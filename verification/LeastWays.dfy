/**
 What the least way from a storey to any place of its building costs, worked out from
 the building alone: down the stairs, out by the best door, and round the outside.
*/
module LeastWays {
  import opened Options
  import opened Pathfinding
  import opened EntryGraph
  import opened Perimeter

  function Price(b: Building, hypot: (real, real) -> real, p: Place, q: Place): real
    requires ValidBuilding(b) && Exists(b, p) && Exists(b, q)
  {
    LegOf(b, hypot, p, q).Cost()
  }

  /** A wall that is not barred, with a room the builder joined to the core. */
  predicate Usable(b: Building, hypot: (real, real) -> real, w: nat)
    requires ValidBuilding(b)
  {
    Open(b, w) && Span(b, hypot, Interior(w), Core(0)) > 0.0
  }

  /** From the core to the door of a wall. */
  function Inside(b: Building, hypot: (real, real) -> real, w: nat): real
    requires ValidBuilding(b) && Open(b, w)
  {
    Price(b, hypot, Interior(w), Core(0)) + Price(b, hypot, Door(w), Interior(w))
  }

  /** From the core out by the door of a wall to its approach. */
  function Out(b: Building, hypot: (real, real) -> real, w: nat): real
    requires ValidBuilding(b) && Open(b, w)
  {
    Inside(b, hypot, w) + Price(b, hypot, Approach(w), Door(w))
  }

  /** One flight: from a storey to the landing above it, or on from there. */
  function Climb(b: Building, hypot: (real, real) -> real, i: nat): real
    requires ValidBuilding(b) && i + 1 < |b.levels|
  {
    Price(b, hypot, Core(i), Landing(i))
  }

  /** From the ground to a storey. */
  function Stairs(b: Building, hypot: (real, real) -> real, n: nat): real
    requires ValidBuilding(b) && n < |b.levels|
  {
    if n == 0 then 0.0 else Stairs(b, hypot, n - 1) + Climb(b, hypot, n - 1) + Climb(b, hypot, n - 1)
  }

  /** From the core to a spot outside, by one of the first `n` walls. */
  function Exit(b: Building, hypot: (real, real) -> real, i: nat, n: nat): Option<real>
    requires ValidBuilding(b) && i <= |b.walls| && n <= |b.walls|
  {
    if n == 0 then None else Nearer(Exit(b, hypot, i, n - 1), By(b, hypot, n - 1, i))
  }

  /** By one wall and round the outside from there. */
  function By(b: Building, hypot: (real, real) -> real, w: nat, i: nat): Option<real>
    requires ValidBuilding(b) && i <= |b.walls| && w < |b.walls|
  {
    if Usable(b, hypot, w) then Then(Some(Out(b, hypot, w)), Around(b, hypot, w, i)) else None
  }

  /** From a storey to a spot outside. */
  function Leave(b: Building, hypot: (real, real) -> real, level: nat, i: nat): Option<real>
    requires ValidBuilding(b) && level < |b.levels| && i <= |b.walls|
  {
    Then(Some(Stairs(b, hypot, level)), Exit(b, hypot, i, |b.walls|))
  }

  /** From a storey to any place at all. */
  function Reach(b: Building, hypot: (real, real) -> real, level: nat, p: Place): Option<real>
    requires ValidBuilding(b) && level < |b.levels| && Exists(b, p)
  {
    var down := Stairs(b, hypot, level);
    match p
    case Core(i) =>
      var up := Stairs(b, hypot, i);
      Some(if i <= level then down - up else up - down)
    case Landing(i) =>
      Some((if i < level then down - Stairs(b, hypot, i + 1) else Stairs(b, hypot, i) - down) + Climb(b, hypot, i))
    case Approach(w) => Leave(b, hypot, level, w)
    case Staging => Leave(b, hypot, level, |b.walls|)
    case Door(w) => ToTheDoor(b, hypot, level, w)
    case Interior(w) => ToTheRoom(b, hypot, level, w)
  }

  /** From within, or from without by way of the approach. */
  function ToTheDoor(b: Building, hypot: (real, real) -> real, level: nat, w: nat): Option<real>
    requires ValidBuilding(b) && level < |b.levels| && Open(b, w)
  {
    Nearer(if Usable(b, hypot, w) then Some(Stairs(b, hypot, level) + Inside(b, hypot, w)) else None,
           Then(Leave(b, hypot, level, w), Some(Price(b, hypot, Approach(w), Door(w)))))
  }

  function ToTheRoom(b: Building, hypot: (real, real) -> real, level: nat, w: nat): Option<real>
    requires ValidBuilding(b) && level < |b.levels| && Open(b, w)
  {
    Nearer(if Usable(b, hypot, w) then Some(Stairs(b, hypot, level) + Price(b, hypot, Interior(w), Core(0))) else None,
           Then(Leave(b, hypot, level, w), Some(Price(b, hypot, Approach(w), Door(w)) + Price(b, hypot, Door(w), Interior(w)))))
  }

  // ---------------------------------------------------------------- prices

  lemma PriceEitherWay(b: Building, hypot: (real, real) -> real, p: Place, q: Place)
    requires ValidBuilding(b) && Hypotenuse(hypot) && Linked(b, p, q)
    ensures Price(b, hypot, p, q) == Price(b, hypot, q, p)
  {
    SpanEitherWay(b, hypot, p, q);
    SamePrice(LegOf(b, hypot, p, q), LegOf(b, hypot, q, p));
  }

  lemma PriceIsPositive(b: Building, hypot: (real, real) -> real, p: Place, q: Place)
    requires ValidBuilding(b) && Hypotenuse(hypot) && Linked(b, p, q) && Span(b, hypot, p, q) > 0.0
    ensures Price(b, hypot, p, q) >= Span(b, hypot, p, q) > 0.0
  {
    SpanEitherWay(b, hypot, p, q);
    var l := if Joined(b, Link(p, q)) then Link(p, q) else Link(q, p);
    WeightsAreSound(b, l);
    CostAtLeastLength(LegOf(b, hypot, p, q));
  }

  lemma DoorPrices(b: Building, hypot: (real, real) -> real, w: nat)
    requires ValidBuilding(b) && Hypotenuse(hypot) && Open(b, w)
    ensures Linked(b, Approach(w), Door(w)) && Linked(b, Door(w), Interior(w)) && Linked(b, Interior(w), Core(0))
    ensures Span(b, hypot, Approach(w), Door(w)) > 0.0 && Span(b, hypot, Door(w), Interior(w)) > 0.0
    ensures Price(b, hypot, Approach(w), Door(w)) > 0.0 && Price(b, hypot, Door(w), Interior(w)) > 0.0
    ensures Usable(b, hypot, w) ==> Price(b, hypot, Interior(w), Core(0)) > 0.0
  {
    PriceIsPositive(b, hypot, Approach(w), Door(w));
    PriceIsPositive(b, hypot, Door(w), Interior(w));
    if Usable(b, hypot, w) {
      PriceIsPositive(b, hypot, Interior(w), Core(0));
    }
  }

  lemma FlightPrices(b: Building, hypot: (real, real) -> real, i: nat)
    requires ValidBuilding(b) && Hypotenuse(hypot) && i + 1 < |b.levels|
    ensures Linked(b, Core(i), Landing(i)) && Linked(b, Landing(i), Core(i + 1))
    ensures Span(b, hypot, Core(i), Landing(i)) > 0.0 && Span(b, hypot, Landing(i), Core(i + 1)) > 0.0
    ensures Price(b, hypot, Core(i), Landing(i)) == Price(b, hypot, Landing(i), Core(i + 1)) == Climb(b, hypot, i) > 0.0
  {
    SlopesAreLong(b, hypot, i);
    PriceIsPositive(b, hypot, Core(i), Landing(i));
    SamePrice(LegOf(b, hypot, Core(i), Landing(i)), LegOf(b, hypot, Landing(i), Core(i + 1)));
  }

  lemma SamePrice(d: Edge, e: Edge)
    requires d.lengthM == e.lengthM && d.weights == e.weights
    ensures d.Cost() == e.Cost()
  {
  }

  lemma StepPrice(b: Building, hypot: (real, real) -> real, i: nat, j: nat)
    requires ValidBuilding(b) && i <= |b.walls| && j <= |b.walls| && Step(b, hypot, i, j).Some?
    ensures Step(b, hypot, i, j).value == Price(b, hypot, Spot(b, i), Spot(b, j))
  {
    assert Sum([]) == 0.0;
  }

  lemma {:induction false} StairsGrow(b: Building, hypot: (real, real) -> real, m: nat, n: nat)
    requires ValidBuilding(b) && Hypotenuse(hypot) && m <= n < |b.levels|
    ensures Stairs(b, hypot, m) <= Stairs(b, hypot, n)
    decreases n
  {
    if m < n {
      StairsGrow(b, hypot, m, n - 1);
      FlightPrices(b, hypot, n - 1);
    }
  }

  // ------------------------------------------------------------- best exits

  /** The ways out to a spot, wall by wall. */
  function Ways(b: Building, hypot: (real, real) -> real, i: nat): (ways: seq<Option<real>>)
    requires ValidBuilding(b) && i <= |b.walls|
    ensures |ways| == |b.walls| && forall w :: 0 <= w < |b.walls| ==> ways[w] == By(b, hypot, w, i)
  {
    seq(|b.walls|, w requires 0 <= w < |b.walls| && ValidBuilding(b) && i <= |b.walls| => By(b, hypot, w, i))
  }

  /** The least of the first `n`. */
  function Best(ways: seq<Option<real>>, n: nat): Option<real>
    requires n <= |ways|
  {
    if n == 0 then None else Nearer(Best(ways, n - 1), ways[n - 1])
  }

  lemma {:induction false} ExitIsBest(b: Building, hypot: (real, real) -> real, i: nat, n: nat)
    requires ValidBuilding(b) && i <= |b.walls| && n <= |b.walls|
    ensures Exit(b, hypot, i, n) == Best(Ways(b, hypot, i), n)
  {
    if n > 0 {
      ExitIsBest(b, hypot, i, n - 1);
    }
  }

  lemma {:induction false} BestIsLeast(ways: seq<Option<real>>, n: nat, w: nat)
    requires w < n <= |ways|
    ensures AtMost(Best(ways, n), ways[w])
  {
    if w < n - 1 {
      BestIsLeast(ways, n - 1, w);
    }
  }

  lemma {:induction false} BestIsOne(ways: seq<Option<real>>, n: nat) returns (w: nat)
    requires n <= |ways| && Best(ways, n).Some?
    ensures w < n && Best(ways, n) == ways[w]
  {
    if Best(ways, n) == ways[n - 1] {
      w := n - 1;
    } else {
      w := BestIsOne(ways, n - 1);
    }
  }

  lemma ExitIsLeast(b: Building, hypot: (real, real) -> real, i: nat, n: nat, w: nat)
    requires ValidBuilding(b) && i <= |b.walls| && w < n <= |b.walls|
    ensures AtMost(Exit(b, hypot, i, n), By(b, hypot, w, i))
  {
    ExitIsBest(b, hypot, i, n);
    BestIsLeast(Ways(b, hypot, i), n, w);
  }

  lemma ExitIsByOne(b: Building, hypot: (real, real) -> real, i: nat, n: nat) returns (w: nat)
    requires ValidBuilding(b) && i <= |b.walls| && n <= |b.walls| && Exit(b, hypot, i, n).Some?
    ensures w < n && Usable(b, hypot, w) && Exit(b, hypot, i, n) == By(b, hypot, w, i)
  {
    ExitIsBest(b, hypot, i, n);
    w := BestIsOne(Ways(b, hypot, i), n);
  }

  lemma ExitThenStep(b: Building, hypot: (real, real) -> real, i: nat, j: nat)
    requires ValidBuilding(b) && i <= |b.walls| && j <= |b.walls|
    ensures AtMost(Exit(b, hypot, j, |b.walls|), Then(Exit(b, hypot, i, |b.walls|), Step(b, hypot, i, j)))
  {
    if Exit(b, hypot, i, |b.walls|).Some? {
      var w := ExitIsByOne(b, hypot, i, |b.walls|);
      AroundThenStep(b, hypot, w, i, j);
      ExitIsLeast(b, hypot, j, |b.walls|, w);
    }
  }

  lemma LeavePositive(b: Building, hypot: (real, real) -> real, level: nat, i: nat)
    requires ValidBuilding(b) && Hypotenuse(hypot) && level < |b.levels| && i <= |b.walls| && Leave(b, hypot, level, i).Some?
    ensures Leave(b, hypot, level, i).value > Stairs(b, hypot, level) >= 0.0
  {
    var w := ExitIsByOne(b, hypot, i, |b.walls|);
    AroundNotNegative(b, hypot, w, i);
    DoorPrices(b, hypot, w);
    StairsGrow(b, hypot, 0, level);
  }

  // ------------------------------------------------------- no leg cuts short

  /** One leg more from `p` to `q` gets there no cheaper than `Reach` says. */
  ghost predicate NoCutShort(b: Building, hypot: (real, real) -> real, level: nat, p: Place, q: Place)
    requires ValidBuilding(b) && level < |b.levels| && Exists(b, p) && Exists(b, q)
  {
    AtMost(Reach(b, hypot, level, q), Then(Reach(b, hypot, level, p), Some(Price(b, hypot, p, q))))
  }

  lemma NoCutOnTheStairs(b: Building, hypot: (real, real) -> real, level: nat, i: nat)
    requires ValidBuilding(b) && Hypotenuse(hypot) && level < |b.levels| && i + 1 < |b.levels|
    ensures NoCutShort(b, hypot, level, Core(i), Landing(i)) && NoCutShort(b, hypot, level, Landing(i), Core(i))
    ensures NoCutShort(b, hypot, level, Landing(i), Core(i + 1)) && NoCutShort(b, hypot, level, Core(i + 1), Landing(i))
  {
    FlightPrices(b, hypot, i);
    PriceEitherWay(b, hypot, Core(i), Landing(i));
    PriceEitherWay(b, hypot, Landing(i), Core(i + 1));
  }

  lemma NoCutToTheCore(b: Building, hypot: (real, real) -> real, level: nat, w: nat)
    requires ValidBuilding(b) && Hypotenuse(hypot) && level < |b.levels| && Usable(b, hypot, w)
    ensures NoCutShort(b, hypot, level, Core(0), Interior(w)) && NoCutShort(b, hypot, level, Interior(w), Core(0))
  {
    DoorPrices(b, hypot, w);
    PriceEitherWay(b, hypot, Interior(w), Core(0));
    if Leave(b, hypot, level, w).Some? {
      LeavePositive(b, hypot, level, w);
    }
  }

  lemma NoCutToTheRoom(b: Building, hypot: (real, real) -> real, level: nat, w: nat)
    requires ValidBuilding(b) && Hypotenuse(hypot) && level < |b.levels| && Open(b, w)
    ensures NoCutShort(b, hypot, level, Door(w), Interior(w)) && NoCutShort(b, hypot, level, Interior(w), Door(w))
  {
    DoorPrices(b, hypot, w);
    PriceEitherWay(b, hypot, Door(w), Interior(w));
  }

  lemma NoCutToTheDoor(b: Building, hypot: (real, real) -> real, level: nat, w: nat)
    requires ValidBuilding(b) && Hypotenuse(hypot) && level < |b.levels| && Open(b, w)
    ensures NoCutShort(b, hypot, level, Door(w), Approach(w)) && NoCutShort(b, hypot, level, Approach(w), Door(w))
  {
    DoorPrices(b, hypot, w);
    PriceEitherWay(b, hypot, Approach(w), Door(w));
    if Usable(b, hypot, w) {
      ExitIsLeast(b, hypot, w, |b.walls|, w);
      AroundItself(b, hypot, w);
    }
  }

  lemma NoCutOutside(b: Building, hypot: (real, real) -> real, level: nat, i: nat, j: nat)
    requires ValidBuilding(b) && level < |b.levels| && i <= |b.walls| && j <= |b.walls| && Step(b, hypot, i, j).Some?
    ensures NoCutShort(b, hypot, level, Spot(b, i), Spot(b, j))
  {
    ExitThenStep(b, hypot, i, j);
    StepPrice(b, hypot, i, j);
  }

  lemma NoCutBetweenSpots(b: Building, hypot: (real, real) -> real, level: nat, p: Place, q: Place)
    requires ValidBuilding(b) && level < |b.levels| && Exists(b, p) && Exists(b, q) && Outside(p) && Outside(q)
    requires Linked(b, p, q) && Span(b, hypot, p, q) > 0.0
    ensures NoCutShort(b, hypot, level, p, q)
  {
    NoCutOutside(b, hypot, level, SpotOf(b, p), SpotOf(b, q));
  }

  lemma NoCutAlong(b: Building, hypot: (real, real) -> real, level: nat, l: Link)
    requires ValidBuilding(b) && Hypotenuse(hypot) && level < |b.levels| && Joined(b, l)
    requires Span(b, hypot, l.a, l.b) > 0.0 && Span(b, hypot, l.b, l.a) > 0.0
    ensures NoCutShort(b, hypot, level, l.a, l.b) && NoCutShort(b, hypot, level, l.b, l.a)
  {
    match l.a
    case Core(i) => NoCutOnTheStairs(b, hypot, level, i);
    case Landing(i) => NoCutOnTheStairs(b, hypot, level, i);
    case Interior(w) => NoCutToTheCore(b, hypot, level, w);
    case Door(w) => NoCutToTheRoom(b, hypot, level, w);
    case Approach(w) =>
      if l.b.Door? {
        NoCutToTheDoor(b, hypot, level, w);
      } else {
        NoCutBetweenSpots(b, hypot, level, l.a, l.b);
        NoCutBetweenSpots(b, hypot, level, l.b, l.a);
      }
    case Staging =>
      NoCutBetweenSpots(b, hypot, level, l.a, l.b);
      NoCutBetweenSpots(b, hypot, level, l.b, l.a);
  }

  lemma NoCutAtAll(b: Building, hypot: (real, real) -> real, level: nat, p: Place, q: Place)
    requires ValidBuilding(b) && Hypotenuse(hypot) && level < |b.levels| && Linked(b, p, q) && Span(b, hypot, p, q) > 0.0
    ensures NoCutShort(b, hypot, level, p, q)
  {
    SpanEitherWay(b, hypot, p, q);
    NoCutAlong(b, hypot, level, if Joined(b, Link(p, q)) then Link(p, q) else Link(q, p));
  }

  function SpotOf(b: Building, p: Place): (i: nat)
    requires Exists(b, p)
    ensures i <= |b.walls| && (Outside(p) ==> Spot(b, i) == p)
  {
    match p case Approach(w) => w case _ => |b.walls|
  }

  /** No walk to a place costs less, and where there is a walk there is a cost. */
  lemma {:induction false} ReachIsLeast(b: Building, hypot: (real, real) -> real, level: nat, p: Place, legs: seq<Edge>)
    requires ValidBuilding(b) && Hypotenuse(hypot) && level < |b.levels| && Exists(b, p)
    requires Walk(GraphOf(b, hypot), legs, Name(b, Core(level)), Name(b, p))
    ensures Reach(b, hypot, level, p).Some? && Reach(b, hypot, level, p).value <= CostOf(legs)
    decreases |legs|
  {
    if legs == [] {
      NamesTell(b, p, Core(level));
    } else {
      var front, last := legs[..|legs| - 1], legs[|legs| - 1];
      var u, v := EndsTellTheLeg(b, hypot, last);
      NamesTell(b, p, v);
      ReachIsLeast(b, hypot, level, u, front);
      NoCutAtAll(b, hypot, level, u, p);
    }
  }

  // --------------------------------------------------------- as it is walked

  /** A walk from a storey to a place that costs just what it is said to. */
  ghost predicate Leads(b: Building, hypot: (real, real) -> real, level: nat, p: Place, legs: seq<Edge>, cost: real)
    requires ValidBuilding(b) && level < |b.levels| && Exists(b, p)
  {
    Walk(GraphOf(b, hypot), legs, Name(b, Core(level)), Name(b, p)) && CostOf(legs) == cost
  }

  lemma LeadsOn(b: Building, hypot: (real, real) -> real, level: nat, p: Place, q: Place, legs: seq<Edge>, cost: real)
    returns (on: seq<Edge>)
    requires ValidBuilding(b) && Hypotenuse(hypot) && level < |b.levels| && Linked(b, p, q) && Span(b, hypot, p, q) > 0.0
    requires Leads(b, hypot, level, p, legs, cost)
    ensures Leads(b, hypot, level, q, on, cost + Price(b, hypot, p, q))
  {
    var e := LegOf(b, hypot, p, q);
    LinkedIsBuilt(b, hypot, p, q);
    WalkExtended(GraphOf(b, hypot), legs, Name(b, Core(level)), e);
    on := legs + [e];
  }

  lemma {:induction false} LeadsUp(b: Building, hypot: (real, real) -> real, level: nat, i: nat) returns (legs: seq<Edge>)
    requires ValidBuilding(b) && Hypotenuse(hypot) && level <= i < |b.levels|
    ensures Leads(b, hypot, level, Core(i), legs, Stairs(b, hypot, i) - Stairs(b, hypot, level))
    decreases i
  {
    if i == level {
      legs := [];
      StaysPut(b, hypot, level);
    } else {
      var cost := Stairs(b, hypot, i - 1) - Stairs(b, hypot, level);
      legs := LeadsUp(b, hypot, level, i - 1);
      legs := OneStoreyUp(b, hypot, level, i - 1, legs, cost);
      assert cost + Climb(b, hypot, i - 1) + Climb(b, hypot, i - 1) == Stairs(b, hypot, i) - Stairs(b, hypot, level);
    }
  }

  lemma StaysPut(b: Building, hypot: (real, real) -> real, level: nat)
    requires ValidBuilding(b) && level < |b.levels|
    ensures Leads(b, hypot, level, Core(level), [], 0.0)
  {
  }

  lemma OneStoreyUp(b: Building, hypot: (real, real) -> real, level: nat, i: nat, legs: seq<Edge>, cost: real) returns (on: seq<Edge>)
    requires ValidBuilding(b) && Hypotenuse(hypot) && level < |b.levels| && i + 1 < |b.levels|
    requires Leads(b, hypot, level, Core(i), legs, cost)
    ensures Leads(b, hypot, level, Core(i + 1), on, cost + Climb(b, hypot, i) + Climb(b, hypot, i))
  {
    FlightPrices(b, hypot, i);
    on := LeadsOn(b, hypot, level, Core(i), Landing(i), legs, cost);
    on := LeadsOn(b, hypot, level, Landing(i), Core(i + 1), on, cost + Climb(b, hypot, i));
  }

  lemma LeadsDown(b: Building, hypot: (real, real) -> real, level: nat, i: nat) returns (legs: seq<Edge>)
    requires ValidBuilding(b) && Hypotenuse(hypot) && i <= level < |b.levels|
    ensures Leads(b, hypot, level, Core(i), legs, Stairs(b, hypot, level) - Stairs(b, hypot, i))
  {
    var up := LeadsUp(b, hypot, i, level);
    legs := WayBack(b, hypot, up, Name(b, Core(i)), Name(b, Core(level)));
  }

  lemma LeadsToTheDoor(b: Building, hypot: (real, real) -> real, level: nat, w: nat) returns (room: seq<Edge>, door: seq<Edge>)
    requires ValidBuilding(b) && Hypotenuse(hypot) && level < |b.levels| && Usable(b, hypot, w)
    ensures Leads(b, hypot, level, Interior(w), room, Stairs(b, hypot, level) + Price(b, hypot, Interior(w), Core(0)))
    ensures Leads(b, hypot, level, Door(w), door, Stairs(b, hypot, level) + Inside(b, hypot, w))
  {
    DoorPrices(b, hypot, w);
    PriceEitherWay(b, hypot, Interior(w), Core(0));
    PriceEitherWay(b, hypot, Door(w), Interior(w));
    SpanEitherWay(b, hypot, Interior(w), Core(0));
    SpanEitherWay(b, hypot, Door(w), Interior(w));
    var down := LeadsDown(b, hypot, level, 0);
    var most := Stairs(b, hypot, level);
    room := LeadsOn(b, hypot, level, Core(0), Interior(w), down, most);
    door := LeadsOn(b, hypot, level, Interior(w), Door(w), room, most + Price(b, hypot, Interior(w), Core(0)));
  }

  lemma LeadsOut(b: Building, hypot: (real, real) -> real, level: nat, i: nat) returns (legs: seq<Edge>)
    requires ValidBuilding(b) && Hypotenuse(hypot) && level < |b.levels| && i <= |b.walls| && Leave(b, hypot, level, i).Some?
    ensures Leads(b, hypot, level, Spot(b, i), legs, Leave(b, hypot, level, i).value)
  {
    var w := ExitIsByOne(b, hypot, i, |b.walls|);
    var room, door := LeadsToTheDoor(b, hypot, level, w);
    DoorPrices(b, hypot, w);
    PriceEitherWay(b, hypot, Approach(w), Door(w));
    SpanEitherWay(b, hypot, Approach(w), Door(w));
    var out := LeadsOn(b, hypot, level, Door(w), Approach(w), door, Stairs(b, hypot, level) + Inside(b, hypot, w));
    var round := AroundRuns(b, hypot, w, i);
    WalkAppends(GraphOf(b, hypot), out, round, Name(b, Core(level)), Name(b, Approach(w)), Name(b, Spot(b, i)));
    legs := out + round;
  }

  lemma LeadsDownToALanding(b: Building, hypot: (real, real) -> real, level: nat, i: nat) returns (legs: seq<Edge>)
    requires ValidBuilding(b) && Hypotenuse(hypot) && i < level < |b.levels|
    ensures Leads(b, hypot, level, Landing(i), legs, Stairs(b, hypot, level) - Stairs(b, hypot, i + 1) + Climb(b, hypot, i))
  {
    FlightPrices(b, hypot, i);
    legs := LeadsDown(b, hypot, level, i + 1);
    PriceEitherWay(b, hypot, Landing(i), Core(i + 1));
    SpanEitherWay(b, hypot, Landing(i), Core(i + 1));
    legs := LeadsOn(b, hypot, level, Core(i + 1), Landing(i), legs, Stairs(b, hypot, level) - Stairs(b, hypot, i + 1));
  }

  lemma LeadsUpToALanding(b: Building, hypot: (real, real) -> real, level: nat, i: nat) returns (legs: seq<Edge>)
    requires ValidBuilding(b) && Hypotenuse(hypot) && level <= i && i + 1 < |b.levels|
    ensures Leads(b, hypot, level, Landing(i), legs, Stairs(b, hypot, i) - Stairs(b, hypot, level) + Climb(b, hypot, i))
  {
    FlightPrices(b, hypot, i);
    legs := LeadsUp(b, hypot, level, i);
    legs := LeadsOn(b, hypot, level, Core(i), Landing(i), legs, Stairs(b, hypot, i) - Stairs(b, hypot, level));
  }

  lemma LeadsBackIn(b: Building, hypot: (real, real) -> real, level: nat, w: nat) returns (door: seq<Edge>, room: seq<Edge>)
    requires ValidBuilding(b) && Hypotenuse(hypot) && level < |b.levels| && Open(b, w) && Leave(b, hypot, level, w).Some?
    ensures var cost := Leave(b, hypot, level, w).value + Price(b, hypot, Approach(w), Door(w));
            && Leads(b, hypot, level, Door(w), door, cost)
            && Leads(b, hypot, level, Interior(w), room, cost + Price(b, hypot, Door(w), Interior(w)))
  {
    DoorPrices(b, hypot, w);
    var out := LeadsOut(b, hypot, level, w);
    var cost := Leave(b, hypot, level, w).value;
    door := LeadsOn(b, hypot, level, Approach(w), Door(w), out, cost);
    room := LeadsOn(b, hypot, level, Door(w), Interior(w), door, cost + Price(b, hypot, Approach(w), Door(w)));
  }

  /** Where there is a cost there is a walk for it. */
  lemma ReachIsWalked(b: Building, hypot: (real, real) -> real, level: nat, p: Place) returns (legs: seq<Edge>)
    requires ValidBuilding(b) && Hypotenuse(hypot) && level < |b.levels| && Exists(b, p) && Reach(b, hypot, level, p).Some?
    ensures Leads(b, hypot, level, p, legs, Reach(b, hypot, level, p).value)
  {
    match p
    case Core(i) =>
      if i <= level {
        legs := LeadsDown(b, hypot, level, i);
      } else {
        legs := LeadsUp(b, hypot, level, i);
      }
    case Landing(i) =>
      if i < level {
        legs := LeadsDownToALanding(b, hypot, level, i);
      } else {
        legs := LeadsUpToALanding(b, hypot, level, i);
      }
    case Approach(w) => legs := LeadsOut(b, hypot, level, w);
    case Staging => legs := LeadsOut(b, hypot, level, |b.walls|);
    case Door(w) => legs := DoorIsWalked(b, hypot, level, w, Reach(b, hypot, level, p).value);
    case Interior(w) => legs := RoomIsWalked(b, hypot, level, w, Reach(b, hypot, level, p).value);
  }

  lemma DoorIsWalked(b: Building, hypot: (real, real) -> real, level: nat, w: nat, cost: real) returns (legs: seq<Edge>)
    requires ValidBuilding(b) && Hypotenuse(hypot) && level < |b.levels| && Open(b, w)
    requires ToTheDoor(b, hypot, level, w) == Some(cost)
    ensures Leads(b, hypot, level, Door(w), legs, cost)
  {
    var other;
    if Usable(b, hypot, w) && cost == Stairs(b, hypot, level) + Inside(b, hypot, w) {
      other, legs := LeadsToTheDoor(b, hypot, level, w);
    } else {
      legs, other := LeadsBackIn(b, hypot, level, w);
    }
  }

  lemma RoomIsWalked(b: Building, hypot: (real, real) -> real, level: nat, w: nat, cost: real) returns (legs: seq<Edge>)
    requires ValidBuilding(b) && Hypotenuse(hypot) && level < |b.levels| && Open(b, w)
    requires ToTheRoom(b, hypot, level, w) == Some(cost)
    ensures Leads(b, hypot, level, Interior(w), legs, cost)
  {
    var other;
    if Usable(b, hypot, w) && cost == Stairs(b, hypot, level) + Price(b, hypot, Interior(w), Core(0)) {
      legs, other := LeadsToTheDoor(b, hypot, level, w);
    } else {
      other, legs := LeadsBackIn(b, hypot, level, w);
    }
  }

  /**
   The formula is exact: a place can be come to from a storey exactly when it gives a
   cost, which some walk has and none is below.
  */
  lemma ReachExactly(b: Building, hypot: (real, real) -> real, level: nat, p: Place)
    requires ValidBuilding(b) && Hypotenuse(hypot) && level < |b.levels| && Exists(b, p)
    ensures HasRoute(GraphOf(b, hypot), Name(b, Core(level)), Name(b, p)) <==> Reach(b, hypot, level, p).Some?
    ensures forall legs :: Walk(GraphOf(b, hypot), legs, Name(b, Core(level)), Name(b, p)) ==>
              Reach(b, hypot, level, p).Some? && Reach(b, hypot, level, p).value <= CostOf(legs)
    ensures Reach(b, hypot, level, p).Some? ==> exists legs :: Leads(b, hypot, level, p, legs, Reach(b, hypot, level, p).value)
  {
    forall legs | Walk(GraphOf(b, hypot), legs, Name(b, Core(level)), Name(b, p))
      ensures Reach(b, hypot, level, p).Some? && Reach(b, hypot, level, p).value <= CostOf(legs)
    {
      ReachIsLeast(b, hypot, level, p, legs);
    }
    if Reach(b, hypot, level, p).Some? {
      var legs := ReachIsWalked(b, hypot, level, p);
    }
  }

  // ------------------------------------------------------------- the way in

  /** A storey can be reached from the apparatus exactly when some usable wall can, round the outside. */
  lemma ReachedExactlyByAUsableWall(b: Building, hypot: (real, real) -> real, level: nat)
    requires ValidBuilding(b) && Hypotenuse(hypot) && level < |b.levels|
    ensures HasRoute(GraphOf(b, hypot), Name(b, Staging), Name(b, Core(level))) <==> Leave(b, hypot, level, |b.walls|).Some?
    ensures Leave(b, hypot, level, |b.walls|).Some? <==>
            exists w :: 0 <= w < |b.walls| && Usable(b, hypot, w) && Around(b, hypot, w, |b.walls|).Some?
  {
    if HasRoute(GraphOf(b, hypot), Name(b, Staging), Name(b, Core(level))) {
      var legs :| Walk(GraphOf(b, hypot), legs, Name(b, Staging), Name(b, Core(level)));
      WayInCosts(b, hypot, level, legs);
    }
    if Leave(b, hypot, level, |b.walls|).Some? {
      var legs := WayIn(b, hypot, level);
      var w := ExitIsByOne(b, hypot, |b.walls|, |b.walls|);
    }
    if w :| 0 <= w < |b.walls| && Usable(b, hypot, w) && Around(b, hypot, w, |b.walls|).Some? {
      ExitIsLeast(b, hypot, |b.walls|, |b.walls|, w);
    }
  }

  lemma WayInCosts(b: Building, hypot: (real, real) -> real, level: nat, legs: seq<Edge>)
    requires ValidBuilding(b) && Hypotenuse(hypot) && level < |b.levels|
    requires Walk(GraphOf(b, hypot), legs, Name(b, Staging), Name(b, Core(level)))
    ensures Leave(b, hypot, level, |b.walls|).Some? && Leave(b, hypot, level, |b.walls|).value <= CostOf(legs)
  {
    var back := WayBack(b, hypot, legs, Name(b, Staging), Name(b, Core(level)));
    ReachIsLeast(b, hypot, level, Staging, back);
  }

  lemma WayIn(b: Building, hypot: (real, real) -> real, level: nat) returns (legs: seq<Edge>)
    requires ValidBuilding(b) && Hypotenuse(hypot) && level < |b.levels| && Leave(b, hypot, level, |b.walls|).Some?
    ensures Walk(GraphOf(b, hypot), legs, Name(b, Staging), Name(b, Core(level)))
    ensures CostOf(legs) == Leave(b, hypot, level, |b.walls|).value
  {
    var out := LeadsOut(b, hypot, level, |b.walls|);
    legs := WayBack(b, hypot, out, Name(b, Core(level)), Name(b, Staging));
  }

  /** No room of an open wall stands at the core, and none of their approaches where the apparatus does. */
  predicate Apart(b: Building, hypot: (real, real) -> real)
    requires ValidBuilding(b)
  {
    forall w :: 0 <= w < |b.walls| && Open(b, w) ==>
      Span(b, hypot, Interior(w), Core(0)) > 0.0 && Span(b, hypot, Staging, Approach(w)) > 0.0
  }

  /** Then a storey can be reached exactly when some wall was not barred. */
  lemma ReachedExactlyByAnOpenWall(b: Building, hypot: (real, real) -> real, level: nat)
    requires ValidBuilding(b) && Hypotenuse(hypot) && Apart(b, hypot) && level < |b.levels|
    ensures HasRoute(GraphOf(b, hypot), Name(b, Staging), Name(b, Core(level))) <==> exists w :: Open(b, w)
  {
    ReachedExactlyByAUsableWall(b, hypot, level);
    if w :| Open(b, w) {
      OpenWallIsUsable(b, hypot, w);
    }
  }

  lemma OpenWallIsUsable(b: Building, hypot: (real, real) -> real, w: nat)
    requires ValidBuilding(b) && Hypotenuse(hypot) && Apart(b, hypot) && Open(b, w)
    ensures Usable(b, hypot, w) && Around(b, hypot, w, |b.walls|).Some?
  {
    SpanEitherWay(b, hypot, Staging, Approach(w));
    ViaStep(Steps(b, hypot), w, |b.walls|, |b.walls| + 1);
  }

  /**
   The route from the apparatus to a storey: the cheapest there is, at the cost the
   building says, through the door of a wall that was not barred; refused exactly when
   no usable wall can be come to, as far as the ceiling allows.
  */
  method EntryRoute(b: Building, graph: Graph, dist: (Node, Node) -> real, hypot: (real, real) -> real, level: nat)
    returns (outcome: Outcome)
    requires ValidBuilding(b) && StraightLine(dist) && Hypotenuse(hypot) && level < |b.levels| && graph == GraphOf(b, hypot)
    ensures Answers(GraphOf(b, hypot), Name(b, Staging), Name(b, Core(level)), outcome)
    ensures Cheapest(GraphOf(b, hypot), Name(b, Staging), Name(b, Core(level)), outcome)
    ensures outcome.Solution? ==> exists k, w :: 0 <= k < |outcome.legs| && Enters(b, outcome.legs[k], w)
    ensures outcome.Solution? ==> Leave(b, hypot, level, |b.walls|) == Some(outcome.totalCost)
    ensures |GraphOf(b, hypot).nodes| <= MAX_EXPANSIONS ==> (outcome.Solution? <==> Leave(b, hypot, level, |b.walls|).Some?)
  {
    LegsAreHonest(b, dist, hypot);
    PlacedAt(b, hypot, Staging);
    PlacedAt(b, hypot, Core(level));
    outcome := AStar(graph, dist, Name(b, Staging), Name(b, Core(level)), true);
    if outcome.Solution? {
      ghost var k, w := EntersByAnOpenDoor(b, hypot, outcome.legs, Staging, Core(level));
      EntryCosts(b, hypot, level, outcome);
    }
    if |graph.nodes| <= MAX_EXPANSIONS {
      RefusedExactlyWhenUnreachable(graph, Name(b, Staging), Name(b, Core(level)), outcome);
      ReachedExactlyByAUsableWall(b, hypot, level);
    }
  }

  lemma EntryCosts(b: Building, hypot: (real, real) -> real, level: nat, o: Outcome)
    requires ValidBuilding(b) && Hypotenuse(hypot) && level < |b.levels| && o.Solution?
    requires Answers(GraphOf(b, hypot), Name(b, Staging), Name(b, Core(level)), o)
    requires Cheapest(GraphOf(b, hypot), Name(b, Staging), Name(b, Core(level)), o)
    ensures Leave(b, hypot, level, |b.walls|) == Some(o.totalCost)
  {
    WayInCosts(b, hypot, level, o.legs);
    var legs := WayIn(b, hypot, level);
  }
}
