/** Road tracing: following a road from tile to tile through the sides it
    leaves by, in one direction and then in both. */
module Roads {
  import opened Tiles
  import opened Boards

  /** One step of a road, the source's tuple (x, y, enter, exit): the cell
      reached, the side the road comes in by and the side it goes out by. */
  datatype Hop = Hop(pos: Coord, enter: Heading, exit: Heading)

  /** Why a trace gives no path. `MissingExit` is the source's fault when a
      road must continue from a tile that offers no exit (looking up the
      step for `None`); `FuelExhausted` is the model's bound on a walk that
      the source would follow forever. */
  datatype TraceError = MissingExit | FuelExhausted

  datatype Result<T> = Success(value: T) | Failure(error: TraceError)

  /** Hop `h` is the step taken from cell `pos` when the road leaves it
      through `side`: the next cell is placed, the road enters it through the
      opposite side and leaves where that tile sends it. */
  ghost predicate Follows(tiles: map<Coord, Tile>, pos: Coord, side: Heading, h: Hop)
  {
    && pos in tiles
    && side.Toward?
    && h.pos == Neighbor(pos, side.dir)
    && h.pos in tiles
    && h.enter == Toward(Opposite(side.dir))
    && h.exit == RoadGetConnection(tiles[h.pos], Opposite(side.dir))
  }

  /** `hops` is a road walked from `pos` leaving through `side`, each hop
      taken from the one before, that reaches `start` at most at its end. */
  ghost predicate IsWalk(tiles: map<Coord, Tile>, start: Coord, pos: Coord, side: Heading, hops: seq<Hop>)
    decreases |hops|
  {
    |hops| == 0 ||
    (&& Follows(tiles, pos, side, hops[0])
     && (|hops| > 1 ==> hops[0].pos != start)
     && IsWalk(tiles, start, hops[0].pos, hops[0].exit, hops[1..]))
  }

  /** From cell `pos`, about to leave through `side`, the road has ended:
      it went into the middle, the cell is empty, or the next cell is. */
  ghost predicate RoadEnds(tiles: map<Coord, Tile>, pos: Coord, side: Heading)
  {
    side == Centre || pos !in tiles || (side.Toward? && Neighbor(pos, side.dir) !in tiles)
  }

  /** The walk `hops` stops where the source stops: just after a hop that
      lands back on `start`, or where the road ends. */
  ghost predicate Halts(tiles: map<Coord, Tile>, start: Coord, pos: Coord, side: Heading, hops: seq<Hop>)
  {
    if |hops| == 0 then RoadEnds(tiles, pos, side)
    else
      var last := hops[|hops| - 1];
      last.pos == start || RoadEnds(tiles, last.pos, last.exit)
  }

  /** The loop of the one-direction trace, as a recursion that spends one
      unit of fuel per recorded hop. `start` is the cell the trace began at,
      `pos` the current cell and `side` the side the road leaves it by. */
  function Walk(tiles: map<Coord, Tile>, start: Coord, pos: Coord, side: Heading, fuel: nat): Result<seq<Hop>>
    decreases fuel
  {
    if side == Centre || pos !in tiles then Success([])
    else if side == Nowhere then Failure(MissingExit)
    else
      var next := Neighbor(pos, side.dir);
      if next !in tiles then Success([])
      else if fuel == 0 then Failure(FuelExhausted)
      else
        var enter := Opposite(side.dir);
        var hop := Hop(next, Toward(enter), RoadGetConnection(tiles[next], enter));
        if next == start then Success([hop])
        else
          match Walk(tiles, start, next, hop.exit, fuel - 1)
          case Success(rest) => Success([hop] + rest)
          case Failure(e) => Failure(e)
  }

  /** A walk with a first hop is that hop followed by a walk from it. */
  lemma WalkCons(tiles: map<Coord, Tile>, start: Coord, pos: Coord, side: Heading, hops: seq<Hop>)
    requires |hops| > 0
    ensures IsWalk(tiles, start, pos, side, hops) <==>
              && Follows(tiles, pos, side, hops[0])
              && IsWalk(tiles, start, hops[0].pos, hops[0].exit, hops[1..])
              && (|hops| > 1 ==> hops[0].pos != start)
    ensures |hops| > 1 ==> (Halts(tiles, start, pos, side, hops) <==> Halts(tiles, start, hops[0].pos, hops[0].exit, hops[1..]))
    ensures |hops| == 1 ==> (Halts(tiles, start, pos, side, hops) <==>
                               hops[0].pos == start || Halts(tiles, start, hops[0].pos, hops[0].exit, hops[1..]))
  {
    if |hops| > 1 {
      assert hops[|hops| - 1] == hops[1..][|hops| - 2];
    }
  }

  /** Every path the walk returns is a road walk that halts where the source
      halts. */
  lemma {:induction false} WalkSound(tiles: map<Coord, Tile>, start: Coord, pos: Coord, side: Heading, fuel: nat)
    requires Walk(tiles, start, pos, side, fuel).Success?
    ensures IsWalk(tiles, start, pos, side, Walk(tiles, start, pos, side, fuel).value)
    ensures Halts(tiles, start, pos, side, Walk(tiles, start, pos, side, fuel).value)
    decreases fuel
  {
    if side == Centre || pos !in tiles || side == Nowhere {
    } else {
      var next := Neighbor(pos, side.dir);
      if next in tiles && fuel > 0 {
        var enter := Opposite(side.dir);
        var hop := Hop(next, Toward(enter), RoadGetConnection(tiles[next], enter));
        assert Follows(tiles, pos, side, hop);
        if next == start {
          WalkCons(tiles, start, pos, side, [hop]);
        } else {
          WalkSound(tiles, start, next, hop.exit, fuel - 1);
          var rest := Walk(tiles, start, next, hop.exit, fuel - 1).value;
          var hops := [hop] + rest;
          assert hops[0] == hop && hops[1..] == rest;
          WalkCons(tiles, start, pos, side, hops);
        }
      }
    }
  }

  /** The first hop of a halting road walk is followed from `pos`; either it
      lands on `start` and is the only hop, or the rest is a halting road walk
      from it. */
  lemma WalkUncons(tiles: map<Coord, Tile>, start: Coord, pos: Coord, side: Heading, hops: seq<Hop>)
    requires |hops| > 0
    requires IsWalk(tiles, start, pos, side, hops) && Halts(tiles, start, pos, side, hops)
    ensures Follows(tiles, pos, side, hops[0])
    ensures hops[0].pos == start ==> |hops| == 1
    ensures hops[0].pos != start ==>
              IsWalk(tiles, start, hops[0].pos, hops[0].exit, hops[1..])
              && Halts(tiles, start, hops[0].pos, hops[0].exit, hops[1..])
  {
    WalkCons(tiles, start, pos, side, hops);
  }

  /** A recorded step that lands back on `start` ends the walk. */
  lemma WalkStepHome(tiles: map<Coord, Tile>, start: Coord, pos: Coord, side: Heading, hops: seq<Hop>, fuel: nat)
    requires |hops| == 1 && Follows(tiles, pos, side, hops[0]) && hops[0].pos == start && fuel > 0
    ensures Walk(tiles, start, pos, side, fuel) == Success(hops)
  {
    assert hops == [hops[0]];
  }

  /** A recorded step that lands elsewhere is followed by the walk from the
      cell it lands on. */
  lemma WalkStepOn(tiles: map<Coord, Tile>, start: Coord, pos: Coord, side: Heading, hops: seq<Hop>, fuel: nat)
    requires |hops| > 0 && Follows(tiles, pos, side, hops[0]) && hops[0].pos != start && fuel > 0
    requires Walk(tiles, start, hops[0].pos, hops[0].exit, fuel - 1) == Success(hops[1..])
    ensures Walk(tiles, start, pos, side, fuel) == Success(hops)
  {
    assert hops == [hops[0]] + hops[1..];
  }

  /** A walk whose road has already ended records nothing. */
  lemma WalkHalted(tiles: map<Coord, Tile>, start: Coord, pos: Coord, side: Heading, fuel: nat)
    requires RoadEnds(tiles, pos, side)
    ensures Walk(tiles, start, pos, side, fuel) == Success([])
  {
  }

  /** Conversely, the walk finds every halting road walk once it has a unit
      of fuel per hop: the trace is the one road walk from its start. */
  lemma {:induction false} WalkComplete(tiles: map<Coord, Tile>, start: Coord, pos: Coord, side: Heading,
                                        hops: seq<Hop>, fuel: nat)
    requires IsWalk(tiles, start, pos, side, hops)
    requires Halts(tiles, start, pos, side, hops)
    requires |hops| <= fuel
    ensures Walk(tiles, start, pos, side, fuel) == Success(hops)
    decreases fuel
  {
    if |hops| > 0 {
      WalkUncons(tiles, start, pos, side, hops);
      if hops[0].pos == start {
        WalkStepHome(tiles, start, pos, side, hops, fuel);
      } else {
        WalkComplete(tiles, start, hops[0].pos, hops[0].exit, hops[1..], fuel - 1);
        WalkStepOn(tiles, start, pos, side, hops, fuel);
      }
    } else {
      WalkHalted(tiles, start, pos, side, fuel);
    }
  }

  /** `trace_road_one_direction`: follow the road from (x, y) leaving
      through `side` until it ends, returns to (x, y), or faults. */
  function TraceRoadOneDirection(b: Board, x: int, y: int, side: Heading, fuel: nat): (r: Result<seq<Hop>>)
    ensures r.Success? ==> IsWalk(b.tiles, (x, y), (x, y), side, r.value)
    ensures r.Success? ==> Halts(b.tiles, (x, y), (x, y), side, r.value)
    ensures side == Centre ==> r == Success([])
    ensures forall hops :: (IsWalk(b.tiles, (x, y), (x, y), side, hops) && Halts(b.tiles, (x, y), (x, y), side, hops)
                            && |hops| <= fuel) ==> r == Success(hops)
  {
    var r := Walk(b.tiles, (x, y), (x, y), side, fuel);
    assert r.Success? ==> IsWalk(b.tiles, (x, y), (x, y), side, r.value)
                          && Halts(b.tiles, (x, y), (x, y), side, r.value) by {
      if r.Success? {
        WalkSound(b.tiles, (x, y), (x, y), side, fuel);
      }
    }
    assert forall hops :: (IsWalk(b.tiles, (x, y), (x, y), side, hops) && Halts(b.tiles, (x, y), (x, y), side, hops)
                           && |hops| <= fuel) ==> r == Success(hops) by {
      forall hops | IsWalk(b.tiles, (x, y), (x, y), side, hops) && Halts(b.tiles, (x, y), (x, y), side, hops)
                    && |hops| <= fuel
        ensures r == Success(hops)
      {
        WalkComplete(b.tiles, (x, y), (x, y), side, hops, fuel);
      }
    }
    r
  }

  /** Hop `b` comes next when leaving cell `pos` through `side`: it sits
      across that side and is entered through the facing side. */
  ghost predicate Step(pos: Coord, side: Heading, b: Hop)
  {
    side.Toward? && b.pos == Neighbor(pos, side.dir) && b.enter == Toward(Opposite(side.dir))
  }

  /** Hop `b` continues the road where hop `a` leaves it. */
  ghost predicate Linked(a: Hop, b: Hop)
  {
    Step(a.pos, a.exit, b)
  }

  /** Every hop of `path` continues the one before it. */
  ghost predicate Chained(path: seq<Hop>)
  {
    forall i, j :: 0 <= i && j == i + 1 && j < |path| ==> Linked(path[i], path[j])
  }

  /** Hop `h` passes through a placed tile the way the road runs when
      entered through `h.enter`. */
  ghost predicate Continues(tiles: map<Coord, Tile>, h: Hop)
  {
    h.pos in tiles && h.enter.Toward? && h.exit == RoadGetConnection(tiles[h.pos], h.enter.dir)
  }

  /** Hop `h` passes through a placed tile along that tile's own road
      connection, in one direction of travel or the other. */
  ghost predicate OnRoad(tiles: map<Coord, Tile>, h: Hop)
  {
    Continues(tiles, h) || Continues(tiles, Swap(h))
  }

  /** A road walk is chained, starting with a step out of `pos` through
      `side`. */
  lemma {:induction false} WalkChained(tiles: map<Coord, Tile>, start: Coord, pos: Coord, side: Heading, hops: seq<Hop>)
    requires IsWalk(tiles, start, pos, side, hops)
    ensures |hops| > 0 ==> Step(pos, side, hops[0])
    ensures Chained(hops)
    decreases |hops|
  {
    if |hops| > 0 {
      var rest := hops[1..];
      WalkChained(tiles, start, hops[0].pos, hops[0].exit, rest);
      forall i, j | 0 <= i && j == i + 1 && j < |hops|
        ensures Linked(hops[i], hops[j])
      {
        if i > 0 {
          assert Linked(rest[i - 1], rest[j - 1]);
        }
      }
    }
  }

  /** Every hop of a road walk goes on along its tile's road connection. */
  lemma {:induction false} WalkContinues(tiles: map<Coord, Tile>, start: Coord, pos: Coord, side: Heading, hops: seq<Hop>)
    requires IsWalk(tiles, start, pos, side, hops)
    ensures forall i :: 0 <= i < |hops| ==> Continues(tiles, hops[i])
    decreases |hops|
  {
    if |hops| > 0 {
      var rest := hops[1..];
      WalkContinues(tiles, start, hops[0].pos, hops[0].exit, rest);
      assert forall k :: 0 <= k < |rest| ==> rest[k] == hops[k + 1];
    }
  }

  /** Only the last hop of a road walk may land on `start`. */
  lemma {:induction false} WalkAvoidsStart(tiles: map<Coord, Tile>, start: Coord, pos: Coord, side: Heading, hops: seq<Hop>)
    requires IsWalk(tiles, start, pos, side, hops)
    ensures forall i :: 0 <= i < |hops| - 1 ==> hops[i].pos != start
    decreases |hops|
  {
    if |hops| > 0 {
      var rest := hops[1..];
      WalkAvoidsStart(tiles, start, hops[0].pos, hops[0].exit, rest);
      assert forall k :: 0 <= k < |rest| ==> rest[k] == hops[k + 1];
    }
  }

  /** A hop seen travelling the other way: enter and exit trade places. */
  function Swap(h: Hop): Hop
  {
    Hop(h.pos, h.exit, h.enter)
  }

  /** The hops of a road in reverse order, each seen travelling the other
      way. */
  function Backwards(hops: seq<Hop>): (r: seq<Hop>)
    ensures |r| == |hops|
    ensures forall i :: 0 <= i < |hops| ==> r[i] == Swap(hops[|hops| - 1 - i])
  {
    if |hops| == 0 then []
    else
      var r := Backwards(hops[1..]) + [Swap(hops[0])];
      assert forall k :: 0 <= k < |hops| - 1 ==> hops[1..][k] == hops[k + 1];
      r
  }

  /** Reversing a road twice gives it back. */
  lemma BackwardsTwice(hops: seq<Hop>)
    ensures Backwards(Backwards(hops)) == hops
  {
    var once := Backwards(hops);
    var r := Backwards(once);
    forall i | 0 <= i < |hops|
      ensures r[i] == hops[i]
    {
      assert r[i] == Swap(once[|hops| - 1 - i]);
      assert once[|hops| - 1 - i] == Swap(hops[i]);
    }
  }

  /** Travelling a link the other way round is again a link. */
  lemma LinkedSwap(a: Hop, b: Hop)
    requires Linked(a, b)
    ensures Linked(Swap(b), Swap(a))
  {
    NeighborStepBack(a.pos, a.exit.dir, a.exit.dir);
  }

  /** A chained road reversed is chained. */
  lemma BackwardsChained(hops: seq<Hop>)
    requires Chained(hops)
    ensures Chained(Backwards(hops))
  {
    var r := Backwards(hops);
    var n := |hops|;
    forall i, j | 0 <= i && j == i + 1 && j < n
      ensures Linked(r[i], r[j])
    {
      assert Linked(hops[n - 1 - j], hops[n - 1 - i]);
      LinkedSwap(hops[n - 1 - j], hops[n - 1 - i]);
    }
  }

  /** Two chained roads joined at a link form one chained road. */
  lemma ChainedJoin(p: seq<Hop>, q: seq<Hop>)
    requires Chained(p) && Chained(q)
    requires |p| > 0 && |q| > 0 ==> Linked(p[|p| - 1], q[0])
    ensures Chained(p + q)
  {
    var r := p + q;
    forall i, j | 0 <= i && j == i + 1 && j < |r|
      ensures Linked(r[i], r[j])
    {
      if j < |p| {
        assert Linked(p[i], p[j]);
      } else if i >= |p| {
        assert Linked(q[i - |p|], q[j - |p|]);
      }
    }
  }

  /** A chained road stays chained without its first hop. */
  lemma ChainedTail(p: seq<Hop>)
    requires Chained(p) && |p| > 0
    ensures Chained(p[1..])
  {
    var r := p[1..];
    forall i, j | 0 <= i && j == i + 1 && j < |r|
      ensures Linked(r[i], r[j])
    {
      assert Linked(p[i + 1], p[j + 1]);
    }
  }

  /** The hop by which a road passes through its starting tile: in through
      the side the tile connects `side` to, out through `side`. */
  function PassThrough(tiles: map<Coord, Tile>, pos: Coord, side: Dir): Hop
    requires pos in tiles
  {
    Hop(pos, RoadGetConnection(tiles[pos], side), Toward(side))
  }

  /** The backward walk closes a loop: its last hop comes back into the
      starting cell through `side`. */
  ghost predicate LoopsThrough(pos: Coord, side: Dir, back: seq<Hop>)
  {
    |back| > 0 && back[|back| - 1].pos == pos && back[|back| - 1].enter == Toward(side)
  }

  /** The source's duplicate test, "the pass-through hop already occurs in
      the reversed backward trace", holds exactly when the backward walk
      closed a loop through the starting side, and then that hop is the
      first of the reversed trace. */
  lemma PassThroughInBackwards(tiles: map<Coord, Tile>, pos: Coord, side: Dir, back: seq<Hop>)
    requires pos in tiles
    requires IsWalk(tiles, pos, pos, RoadGetConnection(tiles[pos], side), back)
    ensures PassThrough(tiles, pos, side) in Backwards(back) <==> LoopsThrough(pos, side, back)
    ensures LoopsThrough(pos, side, back) ==> Backwards(back)[0] == PassThrough(tiles, pos, side)
  {
    var tp := PassThrough(tiles, pos, side);
    var before := Backwards(back);
    var n := |back|;
    if tp in before {
      WalkAvoidsStart(tiles, pos, pos, RoadGetConnection(tiles[pos], side), back);
      var i :| 0 <= i < n && before[i] == tp;
      assert back[n - 1 - i].pos == pos;
      assert i == 0;
    }
    if LoopsThrough(pos, side, back) {
      WalkContinues(tiles, pos, pos, RoadGetConnection(tiles[pos], side), back);
      assert Continues(tiles, back[n - 1]);
      assert before[0] == Swap(back[n - 1]);
    }
  }

  /** `trace_road`: the whole road through (x, y), assembled from the walk
      leaving through the side `side` connects to (reversed, with enter and
      exit swapped), the tile's own pass-through hop, and the walk leaving
      through `side`. When the backward walk already closed a loop through
      the start, its first hop is dropped and the pass-through hop is put at
      the end instead. */
  function TraceRoad(b: Board, x: int, y: int, side: Dir, fuel: nat): (r: Result<seq<Hop>>)
    requires (x, y) in b.tiles
    ensures r.Success? ==> Chained(r.value)
    ensures r.Success? ==> forall i :: 0 <= i < |r.value| ==> OnRoad(b.tiles, r.value[i])
    ensures r.Success? ==> PassThrough(b.tiles, (x, y), side) in r.value
  {
    var pos := (x, y);
    var conn := RoadGetConnection(b.tiles[pos], side);
    var tilePass := Hop(pos, conn, Toward(side));
    match Walk(b.tiles, pos, pos, conn, fuel)
    case Failure(e) => Failure(e)
    case Success(back) =>
      var before := Backwards(back);
      if tilePass in before then
        var path := before[1..] + [tilePass];
        assert Chained(path) && forall i :: 0 <= i < |path| ==> OnRoad(b.tiles, path[i]) by {
          WalkSound(b.tiles, pos, pos, conn, fuel);
          BackFacts(b.tiles, pos, side, back);
          JoinLoop(b.tiles, pos, side, before);
        }
        Success(path)
      else
        match Walk(b.tiles, pos, pos, Toward(side), fuel)
        case Failure(e) => Failure(e)
        case Success(after) =>
          var path := before + [tilePass] + after;
          assert Chained(path) && forall i :: 0 <= i < |path| ==> OnRoad(b.tiles, path[i]) by {
            WalkSound(b.tiles, pos, pos, conn, fuel);
            WalkSound(b.tiles, pos, pos, Toward(side), fuel);
            BackFacts(b.tiles, pos, side, back);
            JoinAtStart(b.tiles, pos, side, before, after);
          }
          assert path[|before|] == tilePass;
          Success(path)
  }

  /** Moving the first hop of the reversed loop to its end, as the
      pass-through hop, keeps it a chained road along the tiles'
      connections. */
  lemma JoinLoop(tiles: map<Coord, Tile>, pos: Coord, side: Dir, before: seq<Hop>)
    requires pos in tiles
    requires |before| > 0
    requires Chained(before) && forall i :: 0 <= i < |before| ==> OnRoad(tiles, before[i])
    requires Linked(before[|before| - 1], PassThrough(tiles, pos, side))
    ensures Chained(before[1..] + [PassThrough(tiles, pos, side)])
    ensures forall i :: 0 <= i < |before| ==> OnRoad(tiles, (before[1..] + [PassThrough(tiles, pos, side)])[i])
  {
    var tp := PassThrough(tiles, pos, side);
    var tail := before[1..];
    ChainedTail(before);
    assert |tail| > 0 ==> tail[|tail| - 1] == before[|before| - 1];
    ChainedJoin(tail, [tp]);
    var path := tail + [tp];
    forall i | 0 <= i < |before|
      ensures OnRoad(tiles, path[i])
    {
      if i < |tail| {
        assert path[i] == before[i + 1];
      }
    }
  }

  /** What the assembly needs from the backward walk: reversed it is a
      chained road along the tiles' connections, and its last hop leads into
      the pass-through hop. */
  lemma BackFacts(tiles: map<Coord, Tile>, pos: Coord, side: Dir, back: seq<Hop>)
    requires pos in tiles
    requires IsWalk(tiles, pos, pos, RoadGetConnection(tiles[pos], side), back)
    ensures Chained(Backwards(back))
    ensures forall i :: 0 <= i < |back| ==> OnRoad(tiles, Backwards(back)[i])
    ensures |back| > 0 ==> Linked(Backwards(back)[|back| - 1], PassThrough(tiles, pos, side))
  {
    var conn := RoadGetConnection(tiles[pos], side);
    WalkChained(tiles, pos, pos, conn, back);
    WalkContinues(tiles, pos, pos, conn, back);
    BackwardsChained(back);
    if |back| > 0 {
      var tp := PassThrough(tiles, pos, side);
      assert Linked(Swap(tp), back[0]);
      LinkedSwap(Swap(tp), back[0]);
    }
  }

  /** Gluing the reversed backward walk, the pass-through hop and the
      forward walk gives one chained road along the tiles' connections. */
  lemma JoinAtStart(tiles: map<Coord, Tile>, pos: Coord, side: Dir, before: seq<Hop>, after: seq<Hop>)
    requires pos in tiles
    requires Chained(before) && forall i :: 0 <= i < |before| ==> OnRoad(tiles, before[i])
    requires |before| > 0 ==> Linked(before[|before| - 1], PassThrough(tiles, pos, side))
    requires IsWalk(tiles, pos, pos, Toward(side), after)
    ensures Chained(before + [PassThrough(tiles, pos, side)] + after)
    ensures forall i :: 0 <= i < |before| + 1 + |after| ==>
              OnRoad(tiles, (before + [PassThrough(tiles, pos, side)] + after)[i])
  {
    var tp := PassThrough(tiles, pos, side);
    var front := before + [tp];
    assert Chained(front) && front[|front| - 1] == tp by {
      ChainedJoin(before, [tp]);
    }
    assert Chained(front + after) by {
      WalkChained(tiles, pos, pos, Toward(side), after);
      ChainedJoin(front, after);
    }
    assert forall i :: 0 <= i < |front| ==> OnRoad(tiles, front[i]) by {
      forall i | 0 <= i < |front|
        ensures OnRoad(tiles, front[i])
      {
        if i < |before| {
          assert front[i] == before[i];
        }
      }
    }
    WalkContinues(tiles, pos, pos, Toward(side), after);
    JoinOnRoad(tiles, front, after);
  }

  /** Two sequences of hops along the road join into one. */
  lemma JoinOnRoad(tiles: map<Coord, Tile>, p: seq<Hop>, q: seq<Hop>)
    requires forall i :: 0 <= i < |p| ==> OnRoad(tiles, p[i])
    requires forall i :: 0 <= i < |q| ==> Continues(tiles, q[i])
    ensures forall i :: 0 <= i < |p + q| ==> OnRoad(tiles, (p + q)[i])
  {
    forall i | 0 <= i < |p + q|
      ensures OnRoad(tiles, (p + q)[i])
    {
      if i >= |p| {
        assert (p + q)[i] == q[i - |p|];
      }
    }
  }

  /** In the two lemmas below, `back` and `after` are the one-direction
      traces from (x, y) leaving through the side `side` connects to and
      through `side` itself (`TraceRoadOneDirection` is `Walk` started at
      (x, y)). */

  /** When the backward walk closes a loop through the start, the traced
      road is that loop with the pass-through hop moved to its end: the
      reversed backward walk without its first hop, then the pass-through
      hop. It is as long as the backward walk, and the starting cell occurs
      once, last. */
  lemma TraceRoadLoop(b: Board, x: int, y: int, side: Dir, fuel: nat, back: seq<Hop>)
    requires (x, y) in b.tiles
    requires Walk(b.tiles, (x, y), (x, y), RoadGetConnection(b.tiles[(x, y)], side), fuel) == Success(back)
    requires LoopsThrough((x, y), side, back)
    ensures TraceRoad(b, x, y, side, fuel) == Success(Backwards(back)[1..] + [PassThrough(b.tiles, (x, y), side)])
    ensures |TraceRoad(b, x, y, side, fuel).value| == |back|
    ensures TraceRoad(b, x, y, side, fuel).value[|back| - 1] == PassThrough(b.tiles, (x, y), side)
    ensures forall i :: 0 <= i < |back| - 1 ==> TraceRoad(b, x, y, side, fuel).value[i].pos != (x, y)
  {
    var pos := (x, y);
    var conn := RoadGetConnection(b.tiles[pos], side);
    var tp := PassThrough(b.tiles, pos, side);
    var before := Backwards(back);
    WalkSound(b.tiles, pos, pos, conn, fuel);
    PassThroughInBackwards(b.tiles, pos, side, back);
    WalkAvoidsStart(b.tiles, pos, pos, conn, back);
    var path := before[1..] + [tp];
    assert TraceRoad(b, x, y, side, fuel) == Success(path);
    forall i | 0 <= i < |path| - 1
      ensures path[i].pos != pos
    {
      assert path[i] == before[i + 1] == Swap(back[|back| - 2 - i]);
    }
  }

  /** Otherwise the traced road is the reversed backward walk, the
      pass-through hop and the forward walk, in that order. */
  lemma TraceRoadOpen(b: Board, x: int, y: int, side: Dir, fuel: nat, back: seq<Hop>, after: seq<Hop>)
    requires (x, y) in b.tiles
    requires Walk(b.tiles, (x, y), (x, y), RoadGetConnection(b.tiles[(x, y)], side), fuel) == Success(back)
    requires !LoopsThrough((x, y), side, back)
    requires Walk(b.tiles, (x, y), (x, y), Toward(side), fuel) == Success(after)
    ensures TraceRoad(b, x, y, side, fuel) == Success(Backwards(back) + [PassThrough(b.tiles, (x, y), side)] + after)
  {
    var pos := (x, y);
    WalkSound(b.tiles, pos, pos, RoadGetConnection(b.tiles[pos], side), fuel);
    PassThroughInBackwards(b.tiles, pos, side, back);
  }

  /** On a fresh board the start tile's road runs west to east and both of
      its ends face empty cells, so the traced road is the tile's own
      pass-through hop alone. */
  lemma StartTileRoad(fuel: nat)
    ensures RoadGetConnection(StartTile, E) == Toward(W)
    ensures TraceRoad(NewBoard(), 0, 0, E, fuel) == Success([Hop(Origin, Toward(W), Toward(E))])
  {
    RoadFeatures();
    RoadGetConnectionSpec(StartTile, E);
    var r := RoadGetConnection(StartTile, E);
    assert EdgeHasRoad(StartTile, W);
    assert !EdgeHasRoad(StartTile, N) && !EdgeHasRoad(StartTile, S);
    assert r == Toward(W);
    var b := NewBoard();
    assert Neighbor(Origin, W) !in b.tiles && Neighbor(Origin, E) !in b.tiles;
    assert Walk(b.tiles, Origin, Origin, Toward(W), fuel) == Success([]);
    assert Walk(b.tiles, Origin, Origin, Toward(E), fuel) == Success([]);
    var tp := Hop(Origin, Toward(W), Toward(E));
    assert b.tiles[(0, 0)] == StartTile;
    assert Backwards([]) == [];
    assert [] + [tp] + [] == [tp];
  }

  /** A board where the one-direction loop never stops: a ring of four road
      curves at (1, 0), (1, 1), (2, 1) and (2, 0), entered from the tile at
      the origin through a grass side of (1, 0). The ring does not pass
      through the origin, and the loop only watches for the origin. */
  const RingTiles: map<Coord, Tile> := map[
    (0, 0) := Tile("grass", "grass", "grass", "grass", "grass"),
    (1, 0) := Tile("grass+road", "grass+road", "grass", "grass", "road"),
    (1, 1) := Tile("grass", "grass+road", "grass+road", "grass", "road"),
    (2, 1) := Tile("grass", "grass", "grass+road", "grass+road", "road"),
    (2, 0) := Tile("grass+road", "grass", "grass", "grass+road", "road")]

  /** The four states of the walk going round the ring: the cell reached and
      the side the road leaves it by. */
  predicate OnRing(pos: Coord, side: Heading)
  {
    || (pos == (1, 0) && side == Toward(N))
    || (pos == (1, 1) && side == Toward(E))
    || (pos == (2, 1) && side == Toward(S))
    || (pos == (2, 0) && side == Toward(W))
  }

  /** Each ring tile sends the road on to the next ring state. */
  lemma RingStep(pos: Coord, side: Heading)
    requires OnRing(pos, side)
    ensures Neighbor(pos, side.dir) in RingTiles
    ensures Neighbor(pos, side.dir) != (0, 0)
    ensures OnRing(Neighbor(pos, side.dir), RoadGetConnection(RingTiles[Neighbor(pos, side.dir)], Opposite(side.dir)))
  {
    RoadFeatures();
    var next := Neighbor(pos, side.dir);
    var t := RingTiles[next];
    RoadGetConnectionSpec(t, Opposite(side.dir));
  }

  /** Once on the ring, the walk goes round until its fuel runs out. */
  lemma {:induction false} RingExhausts(pos: Coord, side: Heading, fuel: nat)
    requires OnRing(pos, side)
    ensures Walk(RingTiles, (0, 0), pos, side, fuel) == Failure(FuelExhausted)
    decreases fuel
  {
    RingStep(pos, side);
    if fuel > 0 {
      var next := Neighbor(pos, side.dir);
      RingExhausts(next, RoadGetConnection(RingTiles[next], Opposite(side.dir)), fuel - 1);
    }
  }

  /** The loop stops only on returning to its start, so a road that runs
      into a ring not through the start is never finished: with any amount
      of fuel the walk from the origin eastwards runs out. */
  lemma WalkCanCycle(fuel: nat)
    ensures Walk(RingTiles, (0, 0), (0, 0), Toward(E), fuel) == Failure(FuelExhausted)
  {
    RoadFeatures();
    var t := RingTiles[(1, 0)];
    RoadGetConnectionSpec(t, W);
    assert RoadGetConnection(t, W) == Toward(N);
    if fuel > 0 {
      RingExhausts((1, 0), Toward(N), fuel - 1);
    }
  }
}
