# Carcassonne board core in Dafny

A model of the board logic of a small Carcassonne implementation, with
proofs about it.

- **Tiles.** A tile has four edge features and a middle feature, all
  strings such as `"grass+road"` or `"city"`. The model covers the feature
  predicates, the road-exit rule and the deliberately asymmetric
  city-connectivity test. Rotation returns a new tile.
- **The board.** A sparse map from integer coordinates to tiles, seeded
  with the start tile at the origin. A stored border set holds the empty
  cells where a tile may go. The three modes of `add` are modelled:
  validated insert, validated dry run and unchecked overwrite.
- **Road tracing.** `trace_road_one_direction` walks hop by hop along a
  road. `trace_road` assembles the whole road through a tile, including the
  special case of a loop that closes through the starting tile.
- **City tracing.** `trace_city` grows a set of `(x, y, side)` fragments
  pass by pass until nothing changes, and reports whether the city is
  complete.

The model uses immutable values: a `Board` is a map plus a set, `Add`
returns the new board, and the tracing functions take the board as an
argument. Sides are the datatype `Dir`. A road's next step is a `Heading`:
a side, the middle (`Centre`, the source's `-1`) or `Nowhere` (the
source's `None`).

Files:

- `tile.dfy`: module `Tiles`.
- `board.dfy`: module `Boards`, with coordinates, neighbours, border and
  placement.
- `road.dfy`: module `Roads`.
- `city.dfy`: module `Cities`.

## Model

| member | source | states |
|---|---|---|
| Tiles.Rank | carcassonne_tile.py:11-14 | the integer of a side is its position in the N, E, S, W order used for the edge dictionary |
| Tiles.ConstructorStoresSides | carcassonne_tile.py:32-53 | each constructor argument is the edge read back on its own side, and the middle is stored unchanged |
| Tiles.RoadFeatures | carcassonne_tile.py:55-63 | the road test is a substring test: "road", "grass+road" and "city+road" carry a road; "grass" and "city" do not |
| Tiles.CityFeatureIsExact | carcassonne_tile.py:65-73 | only the exact string "city" counts as a city edge; "city+road" is a road edge and not a city edge |
| Tiles.FirstRoadSideSpec | carcassonne_tile.py:95-98 | the search returns a road side other than `from`, every earlier side is `from` or roadless, and it returns nothing exactly when no other side has a road |
| Tiles.RoadGetConnectionSpec | carcassonne_tile.py:86-98 | on a crossroads the exit is the middle; otherwise it is the earliest other road side in N, E, S, W order, or nowhere exactly when no other side carries a road |
| Tiles.CrossroadsIsExactMiddle | carcassonne_tile.py:75-94 | the crossroads test looks only at the middle; a plain city or plain road middle is not a crossroads; and a tile is a crossroads exactly when the road-exit rule sends a road entering from a given side into the middle |
| Tiles.CrossroadsEndsEveryRoad | carcassonne_tile.py:93-94 | a crossroads sends a road entering from any side into the middle |
| Tiles.RoadPassesThrough | carcassonne_tile.py:95-98 | off a crossroads, a road entering a tile that has another road side leaves through a different side that carries a road, never later in the order than that one |
| Tiles.CityConnectsCharacterized | carcassonne_tile.py:100-111 | a side always connects to itself; a different side `b` connects exactly when `b` is a pure city edge and the middle is a city; the content of side `a` never matters |
| Tiles.CityConnectsIsAsymmetric | carcassonne_tile.py:107-111 | on a tile with a city middle, a grass side connects to a city side but not the other way round |
| Tiles.Rotate | carcassonne_tile.py:113-133 | the turned tile carries every side's feature one quarter clockwise and keeps the middle |
| Tiles.RotateFourTimes | carcassonne_tile.py:120-133 | four quarter turns give back the original tile |
| Tiles.RotatePreservesFeatures | carcassonne_tile.py:113-133 | road, city, crossroads and city-connectivity tests move with the sides under rotation |
| Boards.Neighbor | carcassonne_map.py:69-77 | the neighbour across a side is a different cell on the same row or column |
| Boards.Opposite | carcassonne_map.py:19 | the opposite side is the side two quarter turns away in N, E, S, W order, so it differs from the side; stepping back across it from any cell is `NeighborStepBack` |
| Boards.NeighborStepBack | carcassonne_map.py:179-180 | stepping across a side and back across its opposite returns home, the opposite is an involution, and the four neighbours of a cell are distinct |
| Boards.NewBoard | carcassonne_map.py:37-42 | a new board holds just the start tile at the origin, and its border is exactly the set of empty cells touching a placed tile |
| Boards.FindMapBorder | carcassonne_map.py:80-99 | the refresh leaves the placements alone, drops every filled cell and adds every empty neighbour of a placed tile; on a valid board the border is then exactly the frontier |
| Boards.CheckAddTile | carcassonne_map.py:141-165 | the placement test accepts exactly when the cell is empty, is on the stored border, and every placed neighbour shows the candidate's facing feature on its facing side |
| Boards.Add | carcassonne_map.py:115-139 | on a valid board, a confirmed add accepts exactly an empty frontier cell whose edges match. A rejection or dry run leaves the placements unchanged. A commit writes exactly that cell. An unconfirmed add always writes, overwriting. The border is always refreshed first |
| Boards.AddCommitsOneCell | carcassonne_map.py:131-135 | a committed validated add fills one previously empty cell, and every other cell reads as before |
| Boards.AddNeverRemoves | carcassonne_map.py:115-139 | no add in any mode loses a placed coordinate, and the origin stays placed |
| Boards.AddRejectsDetachedCell | carcassonne_map.py:150-154 | a cell touching no placed tile is refused and the placements are unchanged |
| Boards.OriginNorthPlacement | carcassonne_map.py:158-165 | on a new board, a tile with a city south edge is accepted at (0, 1) and one with a grass south edge is refused |
| Roads.WalkSound | carcassonne_map.py:182-201 | every path the walk returns is a chain of hops, each into a placed cell through the side facing the previous exit and out along that tile's road connection. Only the last hop may land on the start, and the walk stops exactly where the loop breaks |
| Roads.WalkHalted | carcassonne_map.py:183-197 | a walk whose road already ends (middle, empty cell, or empty next cell) records no hop |
| Roads.WalkComplete | carcassonne_map.py:182-201 | every halting road walk is the one the loop produces, given one unit of fuel per hop |
| Roads.TraceRoadOneDirection | carcassonne_map.py:167-202 | the result is a halting road walk from (x, y), tracing from the middle gives no hops, and any halting road walk within the fuel bound is exactly the result |
| Roads.WalkChained | carcassonne_map.py:186-197 | each hop of a walk continues where the previous one left |
| Roads.WalkContinues | carcassonne_map.py:191-196 | each hop of a walk is on a placed tile and leaves through that tile's road connection for its entry side |
| Roads.WalkAvoidsStart | carcassonne_map.py:199-201 | only the last hop of a walk can be on the starting cell |
| Roads.Backwards | carcassonne_map.py:218-227 | the reversed trace is as long as the trace, and hop i is hop n-1-i with enter and exit exchanged |
| Roads.BackwardsTwice | carcassonne_map.py:218-227 | reversing a trace twice gives it back |
| Roads.BackwardsChained | carcassonne_map.py:218-227 | a chained road read backwards is chained |
| Roads.PassThroughInBackwards | carcassonne_map.py:216-232 | the duplicate test succeeds exactly when the backward walk returns into the start through `side`, and then the duplicate is the first hop |
| Roads.TraceRoad | carcassonne_map.py:204-236 | a traced road is chained, every hop runs along its tile's road connection in one direction of travel, and the start tile's pass-through hop is on it |
| Roads.TraceRoadLoop | carcassonne_map.py:229-232 | for a loop closing through the start, the road is the reversed backward walk without its first (duplicate) hop, followed by the pass-through hop; it is as long as the backward walk and visits the start only at its end |
| Roads.TraceRoadOpen | carcassonne_map.py:234-236 | otherwise the road is the reversed backward walk, the pass-through hop and the forward walk |
| Roads.RingExhausts | carcassonne_map.py:182-201 | a walk that has entered a ring of road tiles avoiding its start goes round until any amount of fuel is spent |
| Roads.WalkCanCycle | carcassonne_map.py:199-201 | the loop stops only on returning to its start: on a board with such a ring, the walk from the start records hops forever and no fuel bound completes it |
| Roads.StartTileRoad | carcassonne_map.py:204-236 | on a new board the start tile's road runs west to east, and the traced road is its pass-through hop alone |
| Cities.Across | carcassonne_map.py:283-297 | the cell across a fragment's side is a different cell whose facing side points back |
| Cities.Pass | carcassonne_map.py:258-280 | one pass adds exactly the successors of the snapshot in any visiting order. It reports a change exactly when something was added, and reports a seal exactly when every visited fragment faces a placed cell |
| Cities.TraceCity | carcassonne_map.py:251-281 | the city contains the seed, lies on placed tiles and is closed under in-tile connection and crossing to a placed neighbour. It is the smallest such set, and complete exactly when no fragment faces an empty cell |
| Cities.IsolatedTileCity | carcassonne_map.py:272-280 | a tile alone on the board gives an incomplete city holding at least the starting fragment |
| Cities.TwoTileCity | carcassonne_map.py:251-281 | two tiles whose facing sides are pure city, with no city middles, give exactly those two fragments and a complete city |

## Left out

- The tile catalogue (carcassonne_tile.py:136-155) is static data. Only its first tile is used, as `StartTile`, the tile the board constructor places at the origin.
- The `_rotated_info` and `_rotated` attributes that `rotate` writes on the original tile are left out. `rotate` itself reads them back within the same call, but no other method reads them and they do not affect the result, so `Rotate` is a pure function.
- The `_tile_neighbors` cache and `_find_poss_neighbors` are not stored state. The cache's values are pure arithmetic, modelled by `Neighbor`, and its keys equal the placed cells whenever it is read, because every reader refreshes it first: `find_map_border` (carcassonne_map.py:88), `_check_add_tile` after the refresh at line 128, and `trace_city` after line 252. `FindMapBorder` iterates the placed cells directly.
- The unused `_loopDups` list is left out.
- `get_all_coords`, `get` and `get_middle` are plain reads (`AllCoords`, `Get`, the `middle` field) and have no contract of their own. `AllCoords` and `Get` appear in the contracts of `AddCommitsOneCell` and `AddNeverRemoves`; the `middle` field appears in those of `ConstructorStoresSides`, `Rotate`, `CrossroadsIsExactMiddle` and `CityConnectsCharacterized`.
- Sides are the datatype `Dir`, so `get_edge`, `edge_has_road`, `trace_road`, `trace_city`, `city_connects` and the other side-taking calls cannot be given an integer outside 0..3, nor the middle `C` (-1). These calls are outside the model because the tile's methods document their argument as a directional side of the tile (carcassonne_tile.py:47, 58, 68), so any other value is a caller error; the source's behaviour on such values varies by call (an error in some, silent list wrap-around or an early stop in others).
- TraceRoad, TraceCity: the start cell must be placed. The source raises a `KeyError` when it is not.
- TraceRoadOneDirection: `None` as the side to leave by is the source's `KeyError`, modelled as `Failure(MissingExit)`. The source reports no road exit as `None`. It is kept as the value `Nowhere`, not excluded by a precondition, because the source returns it and only faults later.
- TraceRoadOneDirection: takes a `fuel` bound and reports `FuelExhausted` when it runs out. The source has no bound. Its loop stops only on coming back to its start, so a road that runs into a ring avoiding the start makes it loop forever. `WalkCanCycle` exhibits such a board. There the model gives `FuelExhausted` for every fuel, where the source never returns. For every road the source does finish, `WalkComplete` shows the model gives the same result once it has one unit of fuel per hop.
- TraceRoad: the claim that tracing a non-looping road from either end yields the same hops up to reversal is not stated. It depends on every tile's road exit pairing its road sides symmetrically. The catalogue tiles do that, but arbitrary tiles do not: a tile with three road sides and no crossroads sends two of them to the same exit. Since the catalogue is not modelled, the claim would need that restriction as an extra hypothesis.
- `trace_city` starts by refreshing the neighbour cache. Since `Neighbor` is pure, that refresh has no counterpart.
- `trace_city` visits the snapshot fragments in an arbitrary order (Python set iteration). `Pass` picks them nondeterministically and proves the result does not depend on the order.
