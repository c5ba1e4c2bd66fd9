/** The board: a sparse placement of tiles keyed by integer coordinates, the
    border set of empty cells where a tile may go, and validated placement. */
module Boards {
  import opened Tiles

  type Coord = (int, int)

  datatype Option<T> = None | Some(value: T)

  const Origin: Coord := (0, 0)

  /** The first catalogue tile, which every new board holds at the origin. */
  const StartTile: Tile := Tile("city", "grass+road", "grass", "grass+road", "road")

  /** The cell one step from `c` across side `d`: north is y + 1, east is
      x + 1, south is y - 1 and west is x - 1. */
  function Neighbor(c: Coord, d: Dir): (r: Coord)
    ensures r != c
    ensures r.0 == c.0 || r.1 == c.1
  {
    match d
    case N => (c.0, c.1 + 1)
    case E => (c.0 + 1, c.1)
    case S => (c.0, c.1 - 1)
    case W => (c.0 - 1, c.1)
  }

  /** The side facing `d` across a shared border (the pairs of `POINTS`):
      the side two quarter turns away. Stepping back across it is
      `NeighborStepBack`. */
  function Opposite(d: Dir): (r: Dir)
    ensures r != d
    ensures Rank(r) == (Rank(d) + 2) % 4
  {
    match d
    case N => S
    case E => W
    case S => N
    case W => E
  }

  /** Stepping across a side and back across its opposite returns home, the
      opposite of the opposite is the side itself, and the four neighbours of
      a cell are distinct. */
  lemma NeighborStepBack(c: Coord, d: Dir, d': Dir)
    ensures Neighbor(Neighbor(c, d), Opposite(d)) == c
    ensures Opposite(Opposite(d)) == d
    ensures Neighbor(c, d) == Neighbor(c, d') ==> d == d'
  {
  }

  /** `c` is an empty cell touching at least one placed cell. */
  ghost predicate OnFrontier(placed: set<Coord>, c: Coord)
  {
    c !in placed && exists d :: Neighbor(c, d) in placed
  }

  datatype Board = Board(tiles: map<Coord, Tile>, border: set<Coord>)

  /** What the board keeps between calls: the origin stays placed, and every
      cell of the stored border touches a placed tile (it may be stale, and
      hold cells that have since been filled). */
  ghost predicate Valid(b: Board)
  {
    && Origin in b.tiles
    && forall c :: c in b.border ==> exists d :: Neighbor(c, d) in b.tiles
  }

  /** A fresh board: the start tile at the origin and its four neighbours as
      the border. */
  function NewBoard(): (b: Board)
    ensures b.tiles == map[Origin := StartTile]
    ensures Valid(b)
    ensures forall c :: c in b.border <==> OnFrontier(b.tiles.Keys, c)
  {
    var b := Board(map[Origin := StartTile], {(-1, 0), (1, 0), (0, -1), (0, 1)});
    assert Neighbor((-1, 0), E) == Origin && Neighbor((1, 0), W) == Origin;
    assert Neighbor((0, -1), N) == Origin && Neighbor((0, 1), S) == Origin;
    assert forall c :: OnFrontier(b.tiles.Keys, c) ==> c in b.border by {
      forall c | OnFrontier(b.tiles.Keys, c)
        ensures c in b.border
      {
        var d :| Neighbor(c, d) == Origin;
        NeighborStepBack(c, d, d);
        assert c == Neighbor(Origin, Opposite(d));
      }
    }
    b
  }

  /** The coordinates of all placed tiles. */
  function AllCoords(b: Board): set<Coord>
  {
    b.tiles.Keys
  }

  /** The tile at (x, y), or None when that cell is empty. */
  function Get(b: Board, x: int, y: int): Option<Tile>
  {
    if (x, y) in b.tiles then Some(b.tiles[(x, y)]) else None
  }

  /** Every empty cell next to a placed one. */
  function UnplacedNeighbors(placed: set<Coord>): set<Coord>
  {
    set p, d | p in placed && d in AllSides && Neighbor(p, d) !in placed :: Neighbor(p, d)
  }

  /** The border refresh: drop the cells that have been filled, then add
      every empty neighbour of every placed tile. */
  function FindMapBorder(b: Board): (r: Board)
    ensures r.tiles == b.tiles
    ensures forall c :: c in r.border ==> c !in r.tiles
    ensures forall p, d :: p in b.tiles && Neighbor(p, d) !in b.tiles ==> Neighbor(p, d) in r.border
    ensures Valid(b) ==> Valid(r)
    ensures Valid(b) ==> forall c :: c in r.border <==> OnFrontier(b.tiles.Keys, c)
  {
    var added := UnplacedNeighbors(b.tiles.Keys);
    var r := b.(border := (b.border - b.tiles.Keys) + added);
    assert forall c :: c in added ==> exists d :: Neighbor(c, d) in b.tiles by {
      forall c | c in added
        ensures exists d :: Neighbor(c, d) in b.tiles
      {
        var p, d :| p in b.tiles && d in AllSides && Neighbor(p, d) !in b.tiles && c == Neighbor(p, d);
        NeighborStepBack(p, d, d);
      }
    }
    assert forall c :: OnFrontier(b.tiles.Keys, c) ==> c in added by {
      forall c | OnFrontier(b.tiles.Keys, c)
        ensures c in added
      {
        var d :| Neighbor(c, d) in b.tiles;
        NeighborStepBack(c, d, d);
        assert Neighbor(Neighbor(c, d), Opposite(d)) !in b.tiles;
      }
    }
    r
  }

  /** Every placed tile next to `pos` shows on its facing side exactly the
      feature `t` shows on the side facing back. */
  ghost predicate EdgesMatch(tiles: map<Coord, Tile>, pos: Coord, t: Tile)
  {
    forall d :: Neighbor(pos, d) in tiles ==> Edge(tiles[Neighbor(pos, d)], Opposite(d)) == Edge(t, d)
  }

  /** The placement test against the stored border: the cell is empty, is on
      the border, and for every placed tile that has `pos` as its neighbour
      across some side, that side's feature equals the candidate's feature on
      the opposite side. */
  function CheckAddTile(b: Board, pos: Coord, t: Tile): (ok: bool)
    ensures ok <==> pos !in b.tiles && pos in b.border && EdgesMatch(b.tiles, pos, t)
  {
    var ok :=
      && pos !in b.tiles
      && pos in b.border
      && forall p, d | p in b.tiles && d in AllSides && Neighbor(p, d) == pos ::
           Edge(b.tiles[p], d) == Edge(t, Opposite(d));
    assert ok ==> EdgesMatch(b.tiles, pos, t) by {
      if ok {
        forall d | Neighbor(pos, d) in b.tiles
          ensures Edge(b.tiles[Neighbor(pos, d)], Opposite(d)) == Edge(t, d)
        {
          NeighborStepBack(pos, d, d);
        }
      }
    }
    assert pos !in b.tiles && pos in b.border && EdgesMatch(b.tiles, pos, t) ==> ok by {
      if pos !in b.tiles && pos in b.border && EdgesMatch(b.tiles, pos, t) {
        forall p, d | p in b.tiles && d in AllSides && Neighbor(p, d) == pos
          ensures Edge(b.tiles[p], d) == Edge(t, Opposite(d))
        {
          NeighborStepBack(p, d, d);
          assert Neighbor(pos, Opposite(d)) == p;
        }
      }
    }
    ok
  }

  /** The outcome of `add`: whether the tile was (or would be) accepted, and
      the board afterwards. */
  datatype Placement = Placement(accepted: bool, board: Board)

  /** Place tile `t` at (x, y). With `confirm` the placement is validated and
      `tryOnly` makes it a dry run; without `confirm` the tile is written
      unchecked, overwriting whatever was there. The border is refreshed
      first in every mode. */
  function Add(b: Board, x: int, y: int, t: Tile, confirm: bool, tryOnly: bool): (r: Placement)
    ensures r.board.border == FindMapBorder(b).border
    ensures Valid(b) && confirm ==>
              (r.accepted <==> OnFrontier(b.tiles.Keys, (x, y)) && EdgesMatch(b.tiles, (x, y), t))
    ensures confirm && (x, y) in b.tiles ==> !r.accepted
    ensures !confirm ==> r.accepted
    ensures !r.accepted || (confirm && tryOnly) ==> r.board.tiles == b.tiles
    ensures r.accepted && !(confirm && tryOnly) ==> r.board.tiles == b.tiles[(x, y) := t]
    ensures Valid(b) ==> Valid(r.board)
  {
    var refreshed := FindMapBorder(b);
    if confirm then
      if CheckAddTile(refreshed, (x, y), t) then
        if tryOnly then Placement(true, refreshed)
        else Placement(true, refreshed.(tiles := refreshed.tiles[(x, y) := t]))
      else Placement(false, refreshed)
    else Placement(true, refreshed.(tiles := refreshed.tiles[(x, y) := t]))
  }

  /** A validated placement never overwrites: when it commits, exactly one
      new cell is filled, the coordinate set grows by that cell and every
      other cell reads as before. */
  lemma AddCommitsOneCell(b: Board, x: int, y: int, t: Tile)
    requires Add(b, x, y, t, true, false).accepted
    ensures (x, y) !in AllCoords(b)
    ensures AllCoords(Add(b, x, y, t, true, false).board) == AllCoords(b) + {(x, y)}
    ensures Get(Add(b, x, y, t, true, false).board, x, y) == Some(t)
    ensures forall x', y' :: (x', y') != (x, y) ==>
              Get(Add(b, x, y, t, true, false).board, x', y') == Get(b, x', y')
  {
  }

  /** Placements are append-only in every mode: no coordinate is ever lost,
      and the origin stays placed. */
  lemma AddNeverRemoves(b: Board, x: int, y: int, t: Tile, confirm: bool, tryOnly: bool)
    requires Valid(b)
    ensures AllCoords(b) <= AllCoords(Add(b, x, y, t, confirm, tryOnly).board)
    ensures Get(Add(b, x, y, t, confirm, tryOnly).board, 0, 0).Some?
  {
  }

  /** A cell that touches no placed tile is refused, and the placements are
      left as they were. */
  lemma AddRejectsDetachedCell(b: Board, x: int, y: int, t: Tile, tryOnly: bool)
    requires Valid(b)
    requires forall d :: Neighbor((x, y), d) !in b.tiles
    ensures !Add(b, x, y, t, true, tryOnly).accepted
    ensures Add(b, x, y, t, true, tryOnly).board.tiles == b.tiles
  {
  }

  /** On a fresh board the origin's north side is a city, so a tile may go
      at (0, 1) when its south side is a city and not when it is grass. */
  lemma OriginNorthPlacement(north: string, east: string, west: string, middle: string)
    ensures Add(NewBoard(), 0, 1, Tile(north, east, City, west, middle), true, false).accepted
    ensures !Add(NewBoard(), 0, 1, Tile(north, east, "grass", west, middle), true, false).accepted
  {
    var b := NewBoard();
    assert Neighbor((0, 1), S) == Origin;
    forall d | Neighbor((0, 1), d) in b.tiles
      ensures d == S
    {
      NeighborStepBack((0, 1), d, S);
    }
  }
}
