/** City tracing: growing the set of tile sides that belong to one city, pass
    by pass, until a pass adds nothing. */
module Cities {
  import opened Tiles
  import opened Boards

  /** One side of one placed tile, the source's tuple (x, y, side). */
  datatype Fragment = Fragment(pos: Coord, side: Dir)

  /** The cell across the fragment's side (the source's `_obtain_neighbor`). */
  function Across(f: Fragment): (c: Coord)
    ensures c != f.pos && Neighbor(c, Opposite(f.side)) == f.pos
  {
    NeighborStepBack(f.pos, f.side, f.side);
    Neighbor(f.pos, f.side)
  }

  /** The fragments one expansion step adds for `f`: every other side of the
      same tile that the tile's city connectivity joins to `f`'s side, and the
      facing side of the tile across `f`'s side when that cell is placed. */
  function Successors(tiles: map<Coord, Tile>, f: Fragment): set<Fragment>
    requires f.pos in tiles
  {
    (set e | e in AllSides && e != f.side && CityConnects(tiles[f.pos], f.side, e) :: Fragment(f.pos, e))
    + (if Across(f) in tiles then {Fragment(Across(f), Opposite(f.side))} else {})
  }

  /** `S` lies on placed tiles and holds the successors of each of its
      fragments. */
  ghost predicate Closed(tiles: map<Coord, Tile>, S: set<Fragment>)
  {
    forall f :: f in S ==> f.pos in tiles && Successors(tiles, f) <= S
  }

  /** Every fragment of `S` faces a placed tile: nothing of the city borders
      an empty cell. */
  ghost predicate Sealed(tiles: map<Coord, Tile>, S: set<Fragment>)
  {
    forall f :: f in S ==> Across(f) in tiles
  }

  /** All the fragments of the placed tiles, the bound on any city. */
  function Universe(tiles: map<Coord, Tile>): (u: set<Fragment>)
    ensures forall f :: f in u <==> f.pos in tiles
  {
    var u := set p, d | p in tiles.Keys && d in AllSides :: Fragment(p, d);
    assert forall f: Fragment :: f.pos in tiles ==> f in u by {
      forall f: Fragment | f.pos in tiles
        ensures f in u
      {
        assert f.side in AllSides by {
          assert f.side.N? || f.side.E? || f.side.S? || f.side.W?;
        }
        assert f == Fragment(f.pos, f.side);
      }
    }
    u
  }

  /** The successors of a whole set of fragments. */
  ghost function Image(tiles: map<Coord, Tile>, S: set<Fragment>): set<Fragment>
    requires forall f :: f in S ==> f.pos in tiles
  {
    set f, g | f in S && g in Successors(tiles, f) :: g
  }

  /** One pass of the tracing loop: every fragment of the snapshot `city`,
      visited in any order, adds its successors. `changed` reports whether
      anything was added and `sealed` whether every visited fragment faced a
      placed tile. */
  method Pass(tiles: map<Coord, Tile>, city: set<Fragment>) returns (next: set<Fragment>, changed: bool, sealed: bool)
    requires forall f :: f in city ==> f.pos in tiles
    ensures next == city + Image(tiles, city)
    ensures forall f :: f in next ==> f.pos in tiles
    ensures changed <==> next != city
    ensures sealed <==> Sealed(tiles, city)
  {
    next := city;
    changed := false;
    sealed := true;
    var todo := city;
    while todo != {}
      invariant todo <= city
      invariant next == city + Image(tiles, city - todo)
      invariant changed <==> next != city
      invariant sealed <==> Sealed(tiles, city - todo)
      decreases |todo|
    {
      var f :| f in todo;
      var succ := Successors(tiles, f);
      var done := city - todo;
      assert city - (todo - {f}) == done + {f};
      if !(succ <= next) {
        changed := true;
      }
      if Across(f) !in tiles {
        sealed := false;
      }
      ImageAdd(tiles, done, f);
      Regroup(city, Image(tiles, done), succ, Image(tiles, done + {f}));
      assert changed <==> next + succ != city by {
        GrowthVisible(city, next, succ);
      }
      next := next + succ;
      todo := todo - {f};
    }
    assert city - todo == city;
    ImagePlaced(tiles, city);
  }

  lemma Regroup<T>(a: set<T>, b: set<T>, c: set<T>, d: set<T>)
    requires d == b + c
    ensures (a + b) + c == a + d
  {
  }

  /** Adding `succ` to a set that already contains `city` leaves it equal
      to `city` exactly when it was so before and `succ` adds nothing new. */
  lemma GrowthVisible(city: set<Fragment>, next: set<Fragment>, succ: set<Fragment>)
    requires city <= next
    ensures next + succ != city <==> next != city || !(succ <= next)
  {
    if next == city && !(succ <= next) {
      var g :| g in succ && g !in next;
      assert g in next + succ;
    }
  }

  /** Visiting one more fragment adds exactly its successors to the image. */
  lemma ImageAdd(tiles: map<Coord, Tile>, S: set<Fragment>, f: Fragment)
    requires forall g :: g in S ==> g.pos in tiles
    requires f.pos in tiles
    ensures Image(tiles, S + {f}) == Image(tiles, S) + Successors(tiles, f)
  {
    var lhs := Image(tiles, S + {f});
    var rhs := Image(tiles, S) + Successors(tiles, f);
    forall g | g in lhs
      ensures g in rhs
    {
      var h :| h in S + {f} && g in Successors(tiles, h);
    }
  }

  /** Expansion never leaves the placed tiles. */
  lemma ImagePlaced(tiles: map<Coord, Tile>, S: set<Fragment>)
    requires forall f :: f in S ==> f.pos in tiles
    ensures forall g :: g in Image(tiles, S) ==> g.pos in tiles
  {
    forall g | g in Image(tiles, S)
      ensures g.pos in tiles
    {
      var f :| f in S && g in Successors(tiles, f);
    }
  }

  /** A set that holds its own image is closed. */
  lemma ImageClosed(tiles: map<Coord, Tile>, S: set<Fragment>)
    requires forall f :: f in S ==> f.pos in tiles
    requires Image(tiles, S) <= S
    ensures Closed(tiles, S)
  {
    forall f | f in S
      ensures Successors(tiles, f) <= S
    {
      forall g | g in Successors(tiles, f)
        ensures g in S
      {
        assert g in Image(tiles, S);
      }
    }
  }

  /** The image of a subset of a closed set stays inside it. */
  lemma ImageWithin(tiles: map<Coord, Tile>, C: set<Fragment>, S: set<Fragment>)
    requires Closed(tiles, S) && C <= S
    ensures Image(tiles, C) <= S
  {
  }

  /** Growing a set inside a finite bound shrinks what is left of it. */
  lemma Shrinks(u: set<Fragment>, city: set<Fragment>, next: set<Fragment>)
    requires city <= next <= u && city != next
    ensures |u - next| < |u - city|
  {
    var g :| g in next && g !in city;
    assert u - city == (u - next) + (next - city);
    assert (u - next) * (next - city) == {};
    assert g in next - city;
  }

  /** `trace_city`: the city reached from side `side` of the tile at (x, y),
      and whether it is complete. The result is the smallest closed set of
      fragments containing the seed, and it is complete exactly when no
      fragment of it faces an empty cell. */
  method TraceCity(b: Board, x: int, y: int, side: Dir) returns (complete: bool, city: set<Fragment>)
    requires (x, y) in b.tiles
    ensures Fragment((x, y), side) in city
    ensures city <= Universe(b.tiles)
    ensures Closed(b.tiles, city)
    ensures forall S :: Fragment((x, y), side) in S && Closed(b.tiles, S) ==> city <= S
    ensures complete <==> Sealed(b.tiles, city)
  {
    var seed := Fragment((x, y), side);
    city := {seed};
    complete := true;
    var changed := true;
    ghost var visited: set<Fragment> := {};
    while changed
      invariant seed in city
      invariant forall f :: f in city ==> f.pos in b.tiles
      invariant forall S :: seed in S && Closed(b.tiles, S) ==> city <= S
      invariant visited <= city
      invariant !changed ==> visited == city && Image(b.tiles, city) <= city
      invariant complete <==> Sealed(b.tiles, visited)
      decreases |Universe(b.tiles) - city|, if changed then 1 else 0
    {
      var next, grew, sealed := Pass(b.tiles, city);
      forall S | seed in S && Closed(b.tiles, S)
        ensures next <= S
      {
        ImageWithin(b.tiles, city, S);
      }
      if grew {
        Shrinks(Universe(b.tiles), city, next);
      }
      complete := complete && sealed;
      visited := city;
      city := next;
      changed := grew;
    }
    ImageClosed(b.tiles, city);
  }

  /** A tile alone on the board: whatever side the trace starts from, that
      side faces an empty cell, so the city is incomplete; it holds at least
      the starting fragment. */
  method IsolatedTileCity(t: Tile, side: Dir) returns (complete: bool, city: set<Fragment>)
    ensures !complete && |city| >= 1
    ensures Fragment(Origin, side) in city
  {
    var b := Board(map[Origin := t], {});
    complete, city := TraceCity(b, 0, 0, side);
    assert Across(Fragment(Origin, side)) !in b.tiles;
  }

  /** Two tiles stacked vertically whose facing sides are pure city, with no
      city middle to spread further: the city is exactly those two sides and
      it is complete. */
  method TwoTileCity(lower: Tile, upper: Tile) returns (complete: bool, city: set<Fragment>)
    requires lower.north == City && upper.south == City
    requires lower.middle != City && upper.middle != City
    ensures complete
    ensures city == {Fragment((0, 0), N), Fragment((0, 1), S)}
  {
    var b := Board(map[(0, 0) := lower, (0, 1) := upper], {});
    var f1, f2 := Fragment((0, 0), N), Fragment((0, 1), S);
    assert Across(f1) == (0, 1) && Across(f2) == (0, 0);
    assert Successors(b.tiles, f1) == {f2} by {
      assert forall e :: e != N ==> !CityConnects(lower, N, e);
    }
    assert Successors(b.tiles, f2) == {f1} by {
      assert forall e :: e != S ==> !CityConnects(upper, S, e);
    }
    assert Closed(b.tiles, {f1, f2});
    complete, city := TraceCity(b, 0, 0, N);
    assert f2 in city;
  }
}
