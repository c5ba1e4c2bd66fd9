/** A tile of the tile-placement game: four edge features and one middle
    feature, with the predicates the board queries while validating a
    placement and while tracing roads and cities. */
module Tiles {

  /** The four sides of a tile. The source numbers them N = 0, E = 1, S = 2,
      W = 3, and that numbering is also the order its edge dictionary is
      iterated in. */
  datatype Dir = N | E | S | W

  /** Where a road goes next: out through a side, into the tile's middle
      (the source's C = -1), or nowhere (the source's `None`, returned when a
      non-crossroads tile has no second road side). */
  datatype Heading = Toward(dir: Dir) | Centre | Nowhere

  /** The sides in the source's iteration order. */
  const Sides: seq<Dir> := [N, E, S, W]

  /** The same four sides as a set, for membership and set comprehensions
      where the order plays no part. */
  const AllSides: set<Dir> := {N, E, S, W}

  /** The source's integer for a side; also its position in `Sides`. */
  function Rank(d: Dir): (k: nat)
    ensures k < |Sides| && Sides[k] == d
  {
    match d
    case N => 0
    case E => 1
    case S => 2
    case W => 3
  }

  /** The side a feature moves to when the tile is turned a quarter clockwise. */
  function Clockwise(d: Dir): Dir
  {
    match d
    case N => E
    case E => S
    case S => W
    case W => N
  }

  const Road: string := "road"
  const City: string := "city"
  const CityAndRoad: string := "city+road"

  /** Edge features are strings such as "grass", "road", "city" and
      "grass+road"; the middle feature is one of "grass", "road", "city" and
      "city+road". The constructor takes the sides in the order N, E, S, W. */
  datatype Tile = Tile(north: string, east: string, south: string, west: string, middle: string)

  /** The feature stored on side `d`. */
  function Edge(t: Tile, d: Dir): string
  {
    match d
    case N => t.north
    case E => t.east
    case S => t.south
    case W => t.west
  }

  /** Whether `sub` occurs in `s` starting at index `i`. */
  predicate OccursAt(s: string, sub: string, i: int)
  {
    0 <= i <= |s| - |sub| && s[i..i + |sub|] == sub
  }

  /** Substring test, as Python's `sub in s` on strings. */
  predicate Contains(s: string, sub: string)
  {
    exists i | 0 <= i <= |s| - |sub| :: OccursAt(s, sub, i)
  }

  predicate EdgeHasRoad(t: Tile, d: Dir)
  {
    Contains(Edge(t, d), Road)
  }

  predicate EdgeHasCity(t: Tile, d: Dir)
  {
    Edge(t, d) == City
  }

  predicate HasCrossroads(t: Tile)
  {
    t.middle == CityAndRoad
  }

  /** The first side of `order`, other than `from`, whose edge carries a road. */
  function FirstRoadSide(t: Tile, from: Dir, order: seq<Dir>): Heading
  {
    if |order| == 0 then Nowhere
    else if order[0] != from && EdgeHasRoad(t, order[0]) then Toward(order[0])
    else FirstRoadSide(t, from, order[1..])
  }

  /** The search finds a road side other than `from`, every side before it
      is `from` or roadless, and it finds nothing exactly when every side is. */
  lemma {:induction false} FirstRoadSideSpec(t: Tile, from: Dir, order: seq<Dir>)
    ensures FirstRoadSide(t, from, order) != Centre
    ensures var r := FirstRoadSide(t, from, order);
            r.Toward? ==>
              exists k :: 0 <= k < |order| && order[k] == r.dir && r.dir != from && EdgeHasRoad(t, r.dir)
                          && forall j :: 0 <= j < k ==> order[j] == from || !EdgeHasRoad(t, order[j])
    ensures FirstRoadSide(t, from, order) == Nowhere <==>
              forall j :: 0 <= j < |order| ==> order[j] == from || !EdgeHasRoad(t, order[j])
    decreases |order|
  {
    if |order| > 0 && !(order[0] != from && EdgeHasRoad(t, order[0])) {
      var rest := order[1..];
      FirstRoadSideSpec(t, from, rest);
      assert forall j :: 1 <= j < |order| ==> order[j] == rest[j - 1];
      var r := FirstRoadSide(t, from, rest);
      if r.Toward? {
        var k :| 0 <= k < |rest| && rest[k] == r.dir && r.dir != from && EdgeHasRoad(t, r.dir)
                 && forall j :: 0 <= j < k ==> rest[j] == from || !EdgeHasRoad(t, rest[j]);
        assert order[k + 1] == r.dir;
      }
    }
  }

  /** Where a road that enters through `from` leaves the tile. A crossroads
      ends every road in its middle; otherwise the road leaves through the
      first other road side in N, E, S, W order, and through nowhere when
      there is none. */
  function RoadGetConnection(t: Tile, from: Dir): Heading
  {
    if HasCrossroads(t) then Centre else FirstRoadSide(t, from, Sides)
  }

  /** The road exit: the middle exactly on a crossroads; otherwise the
      earliest side in N, E, S, W order that differs from `from` and carries
      a road, and nowhere exactly when no such side exists. */
  lemma RoadGetConnectionSpec(t: Tile, from: Dir)
    ensures var r := RoadGetConnection(t, from);
            && (HasCrossroads(t) ==> r == Centre)
            && (!HasCrossroads(t) ==> r != Centre)
            && (r.Toward? ==> r.dir != from && EdgeHasRoad(t, r.dir))
            && (r.Toward? ==> forall d :: Rank(d) < Rank(r.dir) && d != from ==> !EdgeHasRoad(t, d))
            && (r == Nowhere <==> !HasCrossroads(t) && forall d :: d != from ==> !EdgeHasRoad(t, d))
  {
    if !HasCrossroads(t) {
      FirstRoadSideSpec(t, from, Sides);
      var r := FirstRoadSide(t, from, Sides);
      assert forall j :: 0 <= j < |Sides| ==> Rank(Sides[j]) == j;
      if r == Nowhere {
        forall d | d != from
          ensures !EdgeHasRoad(t, d)
        {
          assert Sides[Rank(d)] == d;
        }
      }
    }
  }

  /** Whether side `b` belongs to the same city as side `a`. Deliberately
      asymmetric: only side `b`'s edge is inspected. */
  predicate CityConnects(t: Tile, a: Dir, b: Dir)
  {
    a == b || (Edge(t, b) == City && t.middle == City)
  }

  /** The tile turned a quarter clockwise: a new tile whose north is the old
      west, and so on round; the middle is kept. */
  function Rotate(t: Tile): (r: Tile)
    ensures forall d :: Edge(r, Clockwise(d)) == Edge(t, d)
    ensures r.middle == t.middle
  {
    Tile(t.west, t.north, t.east, t.south, t.middle)
  }

  /** The constructor stores each side argument on that side and the middle
      unchanged. */
  lemma ConstructorStoresSides(n: string, e: string, s: string, w: string, m: string)
    ensures Edge(Tile(n, e, s, w, m), N) == n
    ensures Edge(Tile(n, e, s, w, m), E) == e
    ensures Edge(Tile(n, e, s, w, m), S) == s
    ensures Edge(Tile(n, e, s, w, m), W) == w
    ensures Tile(n, e, s, w, m).middle == m
  {
  }

  /** The road test is a substring test: it accepts "road" and "grass+road"
      and rejects "grass" and "city". */
  lemma RoadFeatures()
    ensures Contains("road", Road)
    ensures Contains("grass+road", Road)
    ensures Contains(CityAndRoad, Road)
    ensures !Contains("grass", Road)
    ensures !Contains(City, Road)
  {
    assert OccursAt("road", Road, 0);
    assert OccursAt("grass+road", Road, 6);
    assert OccursAt(CityAndRoad, Road, 5);
    forall i | 0 <= i <= |"grass"| - |Road|
      ensures !OccursAt("grass", Road, i)
    {
      assert "grass"[i] != 'r' || "grass"[i + 1] != 'o';
    }
    assert !OccursAt(City, Road, 0) by {
      assert City[0] != Road[0];
    }
  }

  /** The city test is exact: only the pure "city" edge counts, not a
      combination that mentions a city. */
  lemma CityFeatureIsExact(t: Tile, d: Dir)
    requires Edge(t, d) == CityAndRoad
    ensures !EdgeHasCity(t, d) && EdgeHasRoad(t, d)
  {
    RoadFeatures();
  }

  /** Only the combined "city+road" middle is a crossroads: a plain city or
      a plain road in the middle is not, and the edges play no part. The
      crossroads test agrees with the road-exit rule: a tile is a crossroads
      exactly when a road entering it from any side ends in the middle. */
  lemma CrossroadsIsExactMiddle(t: Tile, t': Tile, from: Dir)
    requires t'.middle == t.middle
    ensures HasCrossroads(t') == HasCrossroads(t)
    ensures t.middle == City || t.middle == Road ==> !HasCrossroads(t)
    ensures HasCrossroads(t) <==> RoadGetConnection(t, from) == Centre
  {
    RoadGetConnectionSpec(t, from);
  }

  /** On a crossroads every entry side ends in the middle. */
  lemma CrossroadsEndsEveryRoad(t: Tile, from: Dir)
    requires HasCrossroads(t)
    ensures RoadGetConnection(t, from) == Centre
  {
    RoadGetConnectionSpec(t, from);
  }

  /** Off a crossroads, a tile with at least two road sides sends every road
      entering through one of them out through another road side. */
  lemma RoadPassesThrough(t: Tile, from: Dir, other: Dir)
    requires !HasCrossroads(t)
    requires other != from && EdgeHasRoad(t, other)
    ensures RoadGetConnection(t, from).Toward?
    ensures RoadGetConnection(t, from).dir != from
    ensures EdgeHasRoad(t, RoadGetConnection(t, from).dir)
    ensures Rank(RoadGetConnection(t, from).dir) <= Rank(other)
  {
    RoadGetConnectionSpec(t, from);
  }

  /** A side always belongs to its own city; a different side `b` joins side
      `a` exactly when `b` is a pure city edge and the middle is a city,
      whatever side `a` holds. */
  lemma CityConnectsCharacterized(t: Tile, a: Dir, b: Dir, t': Tile)
    requires t'.middle == t.middle
    requires forall d :: d != a ==> Edge(t', d) == Edge(t, d)
    ensures CityConnects(t, a, a)
    ensures a != b ==> (CityConnects(t, a, b) <==> EdgeHasCity(t, b) && t.middle == City)
    ensures CityConnects(t', a, b) == CityConnects(t, a, b)
  {
  }

  /** The connectivity test is not symmetric: on a tile with a city middle,
      a grass side reaches a city side but not the other way round. */
  lemma CityConnectsIsAsymmetric()
    ensures CityConnects(Tile("grass", "city", "grass", "city", "city"), N, E)
    ensures !CityConnects(Tile("grass", "city", "grass", "city", "city"), E, N)
  {
  }

  /** Four quarter turns give back the original tile. */
  lemma RotateFourTimes(t: Tile)
    ensures Rotate(Rotate(Rotate(Rotate(t)))) == t
  {
  }

  /** Turning a tile carries every feature test along with the sides. */
  lemma RotatePreservesFeatures(t: Tile, a: Dir, b: Dir)
    ensures EdgeHasRoad(Rotate(t), Clockwise(a)) == EdgeHasRoad(t, a)
    ensures EdgeHasCity(Rotate(t), Clockwise(a)) == EdgeHasCity(t, a)
    ensures HasCrossroads(Rotate(t)) == HasCrossroads(t)
    ensures CityConnects(Rotate(t), Clockwise(a), Clockwise(b)) == CityConnects(t, a, b)
  {
    assert Clockwise(a) == Clockwise(b) <==> a == b;
  }
}
