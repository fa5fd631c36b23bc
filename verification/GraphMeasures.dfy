/**
 What the graph of a building measures, said of its nodes and legs alone: where each
 place stands, which are joined, how long each leg is and what weighs on it.
*/
module GraphMeasures {
  import opened Options
  import opened Pathfinding
  import opened EntryGraph
  import opened Perimeter

  /** The node a place has in the graph. */
  function Stand(b: Building, hypot: (real, real) -> real, p: Place): Node
    requires ValidBuilding(b) && Exists(b, p)
  {
    PlacedAt(b, hypot, p);
    GraphOf(b, hypot).nodes[Name(b, p)]
  }

  /** `d` is `x`, or the nearer of the two bounds it lies outside. */
  predicate Clamped(d: real, x: real, low: real, high: real) {
    low <= d <= high && (x <= low ==> d == low) && (x >= high ==> d == high) && (low <= x <= high ==> d == x)
  }

  // ------------------------------------------------------------ where they stand

  /** The stairwell is plumb, from the ground up, each storey as far above the last as that one is high. */
  lemma CoresStand(b: Building, hypot: (real, real) -> real, i: nat)
    requires ValidBuilding(b) && i < |b.levels|
    ensures Stand(b, hypot, Core(i)).x == b.coreX && Stand(b, hypot, Core(i)).y == b.coreY
    ensures i == 0 ==> Stand(b, hypot, Core(i)).z == 0.0
    ensures i > 0 ==> Stand(b, hypot, Core(i)).z == Stand(b, hypot, Core(i - 1)).z + b.levels[i - 1].height
  {
    PlacedAt(b, hypot, Core(i));
    if i > 0 {
      PlacedAt(b, hypot, Core(i - 1));
    }
  }

  /** Out from a wall's midpoint by `d` along its normal. */
  function OutBy(w: Wall, d: real): Node {
    Node(w.x + w.nx * d, w.y + w.ny * d, 0.0)
  }

  lemma OffIsOutBy(w: Wall, d: real)
    ensures Off(w, d) == OutBy(w, d)
  {
  }

  lemma NotOut(w: Wall)
    ensures OutBy(w, 0.0) == Node(w.x, w.y, 0.0)
  {
    assert w.nx * 0.0 == 0.0 && w.ny * 0.0 == 0.0;
  }

  /** An approach stands the standoff out from its wall, barred or not. */
  lemma ApproachStands(b: Building, hypot: (real, real) -> real, w: nat)
    requires ValidBuilding(b) && w < |b.walls|
    ensures Stand(b, hypot, Approach(w)) == OutBy(b.walls[w], b.standoff)
  {
    PlacedAt(b, hypot, Approach(w));
    OffIsOutBy(b.walls[w], b.standoff);
  }

  /** A door is the midpoint of its wall. */
  lemma DoorStands(b: Building, hypot: (real, real) -> real, w: nat)
    requires ValidBuilding(b) && Open(b, w)
    ensures Stand(b, hypot, Door(w)) == Node(b.walls[w].x, b.walls[w].y, 0.0)
  {
    PlacedAt(b, hypot, Door(w));
    OffIsOutBy(b.walls[w], 0.0);
    NotOut(b.walls[w]);
  }

  /** How far in a room stands: half the way to the core, but no less than half a metre and no more than two. */
  predicate RoomDepth(b: Building, hypot: (real, real) -> real, w: nat, d: real)
    requires w < |b.walls|
  {
    Clamped(d, hypot(b.coreX - b.walls[w].x, b.coreY - b.walls[w].y) / 2.0, 0.5, 2.0)
  }

  lemma SetbackIsRoomDepth(b: Building, hypot: (real, real) -> real, w: nat)
    requires w < |b.walls|
    ensures RoomDepth(b, hypot, w, Setback(b, hypot, w))
  {
  }

  lemma RoomStands(b: Building, hypot: (real, real) -> real, w: nat)
    requires ValidBuilding(b) && Open(b, w)
    ensures exists d :: RoomDepth(b, hypot, w, d) && Stand(b, hypot, Interior(w)) == OutBy(b.walls[w], -d)
  {
    PlacedAt(b, hypot, Interior(w));
    SetbackIsRoomDepth(b, hypot, w);
    OffIsOutBy(b.walls[w], -Setback(b, hypot, w));
  }

  /** The apparatus stands eight metres beyond the first wall's approach. */
  lemma ApparatusStands(b: Building, hypot: (real, real) -> real)
    requires ValidBuilding(b)
    ensures Stand(b, hypot, Staging) == OutBy(b.walls[0], b.standoff + 8.0)
  {
    PlacedAt(b, hypot, Staging);
    OffIsOutBy(b.walls[0], b.standoff + 8.0);
  }

  /** The run of a flight: what the pitch and half a landing ask, or the room there is, whichever is less. */
  predicate CodeRun(b: Building, i: nat, run: real)
    requires i < |b.levels|
  {
    && run <= b.room && (run - 0.56) * b.tanPitch <= b.levels[i].height / 2.0
    && (run == b.room || (run - 0.56) * b.tanPitch == b.levels[i].height / 2.0)
  }

  lemma RunIsCodeRun(b: Building, i: nat)
    requires i < |b.levels| && b.tanPitch > 0.0
    ensures CodeRun(b, i, FlightRun(b, i))
  {
    var half := b.levels[i].height / 2.0;
    var asked := half / b.tanPitch;
    assert asked * b.tanPitch == half;
    assert STAIR_LANDING_M / 2.0 == 0.56;
    ScaledUp(FlightRun(b, i) - 0.56, asked, b.tanPitch);
  }

  lemma ScaledUp(x: real, y: real, d: real)
    requires d > 0.0
    ensures x <= y <==> x * d <= y * d
  {
    if x <= y {
      assert (y - x) * d >= 0.0;
    } else {
      assert (x - y) * d > 0.0;
    }
  }

  /** A landing stands its run along the axis, half way up between the storeys it joins. */
  ghost predicate Landed(b: Building, hypot: (real, real) -> real, i: nat, run: real)
    requires ValidBuilding(b) && i + 1 < |b.levels|
  {
    && CodeRun(b, i, run)
    && Stand(b, hypot, Landing(i)).x == b.coreX + b.axisX * run && Stand(b, hypot, Landing(i)).y == b.coreY + b.axisY * run
    && Stand(b, hypot, Landing(i)).z * 2.0 == Stand(b, hypot, Core(i)).z + Stand(b, hypot, Core(i + 1)).z
  }

  lemma LandingStands(b: Building, hypot: (real, real) -> real, i: nat)
    requires ValidBuilding(b) && i + 1 < |b.levels|
    ensures exists run :: Landed(b, hypot, i, run)
  {
    RunIsCodeRun(b, i);
    LandingIsHalfWay(b, hypot, i);
    LandingIsOnTheAxis(b, hypot, i);
    assert Landed(b, hypot, i, FlightRun(b, i));
  }

  lemma LandingIsHalfWay(b: Building, hypot: (real, real) -> real, i: nat)
    requires ValidBuilding(b) && i + 1 < |b.levels|
    ensures Stand(b, hypot, Landing(i)).z * 2.0 == Stand(b, hypot, Core(i)).z + Stand(b, hypot, Core(i + 1)).z
  {
    PlacedAt(b, hypot, Landing(i));
    PlacedAt(b, hypot, Core(i));
    CoresStand(b, hypot, i + 1);
  }

  lemma LandingIsOnTheAxis(b: Building, hypot: (real, real) -> real, i: nat)
    requires ValidBuilding(b) && i + 1 < |b.levels|
    ensures var run := FlightRun(b, i);
            Stand(b, hypot, Landing(i)).x == b.coreX + b.axisX * run && Stand(b, hypot, Landing(i)).y == b.coreY + b.axisY * run
  {
    PlacedAt(b, hypot, Landing(i));
    EntryGraph.LandingStands(b, hypot, i);
  }

  // -------------------------------------------------------------- which are joined

  /** Next to each other on the ring: neighbours in fireground order, or the last and the first. */
  predicate NextOnTheRing(n: nat, v: nat, w: nat) {
    v < n && w < n && v != w && (v == w + 1 || w == v + 1 || (v == 0 && w == n - 1) || (w == 0 && v == n - 1))
  }

  /** The pairs of places a crew can go between. */
  predicate Adjoin(b: Building, p: Place, q: Place) {
    match p
    case Staging => q.Approach? && q.wall < |b.walls|
    case Approach(v) => (q == Staging && v < |b.walls|) || (q == Door(v) && Open(b, v)) || (q.Approach? && NextOnTheRing(|b.walls|, v, q.wall))
    case Door(v) => Open(b, v) && (q == Approach(v) || q == Interior(v))
    case Interior(v) => Open(b, v) && (q == Door(v) || q == Core(0)) && b.levels != []
    case Core(i) =>
      || (q.Interior? && Open(b, q.wall) && i == 0 && b.levels != [])
      || (q == Landing(i) && i + 1 < |b.levels|) || (q.Landing? && q.level + 1 == i < |b.levels|)
    case Landing(i) => i + 1 < |b.levels| && (q == Core(i) || q == Core(i + 1))
  }

  lemma RingNeighbours(n: nat, v: nat, w: nat)
    requires v < n && w < n && v != w
    ensures NextOnTheRing(n, v, w) <==> w == (v + 1) % n || v == (w + 1) % n
  {
    NextWall(n, v + 1);
    NextWall(n, w + 1);
  }

  lemma AdjoinExactly(b: Building, p: Place, q: Place)
    requires ValidBuilding(b)
    ensures Adjoin(b, p, q) <==> Linked(b, p, q)
  {
    if p.Approach? && q.Approach? && p.wall < |b.walls| && q.wall < |b.walls| && p != q {
      RingNeighbours(|b.walls|, p.wall, q.wall);
    }
  }

  // ------------------------------------------------------------- what legs measure

  /** The longer of a slope and of what a rise takes at a pitch of that sine. */
  predicate Pitched(length: real, slope: real, rise: real, sine: real) {
    length >= slope && length * sine >= rise && (length == slope || length * sine == rise)
  }

  /** A flight, half a storey: the slope between its ends, or what the pitch asks, whichever is longer, under the upper storey's terms. */
  ghost predicate FlightMeasures(b: Building, dist: (Node, Node) -> real, hypot: (real, real) -> real, p: Place, q: Place, i: nat, e: Edge)
    requires ValidBuilding(b) && Exists(b, p) && Exists(b, q) && i + 1 < |b.levels|
  {
    && Pitched(e.lengthM, dist(Stand(b, hypot, p), Stand(b, hypot, q)), b.levels[i].height / 2.0, b.sinPitch)
    && e.weights == b.levels[i + 1].terms
  }

  /** What a leg from one place to another measures, and what weighs on it. */
  ghost predicate LegMeasures(b: Building, dist: (Node, Node) -> real, hypot: (real, real) -> real, p: Place, q: Place, e: Edge)
    requires ValidBuilding(b) && Exists(b, p) && Exists(b, q)
  {
    var straight := dist(Stand(b, hypot, p), Stand(b, hypot, q));
    if p.Landing? then FlightMeasures(b, dist, hypot, p, q, p.level, e)
    else if q.Landing? then FlightMeasures(b, dist, hypot, p, q, q.level, e)
    else if p.Approach? && q.Door? then e.lengthM == b.standoff && e.weights == b.walls[q.wall].crossing.value
    else if p.Door? && q.Approach? then e.lengthM == b.standoff && e.weights == b.walls[p.wall].crossing.value
    else if p.Door? then RoomDepth(b, hypot, p.wall, e.lengthM) && e.weights == []
    else if q.Door? then RoomDepth(b, hypot, q.wall, e.lengthM) && e.weights == []
    else if p.Interior? || q.Interior? then e.lengthM == straight && e.weights == b.levels[0].terms
    else e.lengthM == straight && e.weights == []
  }

  lemma LongerOfTwo(b: Building, hypot: (real, real) -> real, i: nat, flight: real)
    requires ValidBuilding(b) && i < |b.levels| && flight == Flight(b, hypot, i)
    ensures Pitched(flight, hypot(FlightRun(b, i), b.levels[i].height / 2.0), b.levels[i].height / 2.0, b.sinPitch)
  {
    var half := b.levels[i].height / 2.0;
    var pitched := half / b.sinPitch;
    assert pitched * b.sinPitch == half;
    ScaledUp(pitched, flight, b.sinPitch);
  }

  lemma FlightIsMeasured(b: Building, dist: (Node, Node) -> real, hypot: (real, real) -> real, p: Place, q: Place, i: nat)
    requires ValidBuilding(b) && StraightLine(dist) && Hypotenuse(hypot) && i + 1 < |b.levels|
    requires (p == Landing(i) && (q == Core(i) || q == Core(i + 1))) || (q == Landing(i) && (p == Core(i) || p == Core(i + 1)))
    ensures FlightMeasures(b, dist, hypot, p, q, i, LegOf(b, hypot, p, q))
  {
    LongerOfTwo(b, hypot, i, Flight(b, hypot, i));
    FlightLeg(b, hypot, p, q, i);
    FlightSlope(b, dist, hypot, p, q, i);
  }

  lemma FlightLeg(b: Building, hypot: (real, real) -> real, p: Place, q: Place, i: nat)
    requires ValidBuilding(b) && i + 1 < |b.levels| && Exists(b, p) && Exists(b, q)
    requires (p == Landing(i) && (q == Core(i) || q == Core(i + 1))) || (q == Landing(i) && (p == Core(i) || p == Core(i + 1)))
    ensures LegOf(b, hypot, p, q).lengthM == Flight(b, hypot, i) && LegOf(b, hypot, p, q).weights == b.levels[i + 1].terms
  {
  }

  lemma FlightSlope(b: Building, dist: (Node, Node) -> real, hypot: (real, real) -> real, p: Place, q: Place, i: nat)
    requires ValidBuilding(b) && StraightLine(dist) && Hypotenuse(hypot) && i + 1 < |b.levels| && Exists(b, p) && Exists(b, q)
    requires (p == Landing(i) && (q == Core(i) || q == Core(i + 1))) || (q == Landing(i) && (p == Core(i) || p == Core(i + 1)))
    ensures dist(Stand(b, hypot, p), Stand(b, hypot, q)) == hypot(FlightRun(b, i), b.levels[i].height / 2.0)
  {
    PlacedAt(b, hypot, p);
    PlacedAt(b, hypot, q);
    SlopeOfAFlight(b, dist, hypot, i);
  }

  lemma SlopeOfAFlight(b: Building, dist: (Node, Node) -> real, hypot: (real, real) -> real, i: nat)
    requires ValidBuilding(b) && StraightLine(dist) && Hypotenuse(hypot) && i + 1 < |b.levels|
    ensures var slope := hypot(FlightRun(b, i), b.levels[i].height / 2.0);
            && dist(At(b, hypot, Core(i)), At(b, hypot, Landing(i))) == slope == dist(At(b, hypot, Landing(i)), At(b, hypot, Core(i)))
            && dist(At(b, hypot, Core(i + 1)), At(b, hypot, Landing(i))) == slope == dist(At(b, hypot, Landing(i)), At(b, hypot, Core(i + 1)))
  {
    var run, half := FlightRun(b, i), b.levels[i].height / 2.0;
    SlopeIsStraight(dist, hypot, At(b, hypot, Core(i)), At(b, hypot, Landing(i)), b.axisX, b.axisY, run, half);
    SlopeIsStraight(dist, hypot, At(b, hypot, Core(i + 1)), At(b, hypot, Landing(i)), b.axisX, b.axisY, run, half);
  }

  lemma LegIsMeasured(b: Building, dist: (Node, Node) -> real, hypot: (real, real) -> real, p: Place, q: Place)
    requires ValidBuilding(b) && StraightLine(dist) && Hypotenuse(hypot) && Adjoin(b, p, q)
    ensures Exists(b, p) && Exists(b, q) && LegMeasures(b, dist, hypot, p, q, LegOf(b, hypot, p, q))
  {
    AdjoinExactly(b, p, q);
    if p.Landing? {
      FlightIsMeasured(b, dist, hypot, p, q, p.level);
    } else if q.Landing? {
      FlightIsMeasured(b, dist, hypot, p, q, q.level);
    } else if p.Door? || q.Door? {
      SetbackIsRoomDepth(b, hypot, if p.Door? then p.wall else q.wall);
    } else {
      PlacedAt(b, hypot, p);
      PlacedAt(b, hypot, q);
      GapIsStraight(dist, hypot, At(b, hypot, p), At(b, hypot, q));
      GapIsStraight(dist, hypot, At(b, hypot, q), At(b, hypot, p));
      EitherWay(dist, At(b, hypot, p), At(b, hypot, q));
    }
  }

  /** Every leg of the graph is between two places a crew can go between, and measures what it should. */
  lemma LegsAreMeasured(b: Building, dist: (Node, Node) -> real, hypot: (real, real) -> real, e: Edge) returns (p: Place, q: Place)
    requires ValidBuilding(b) && StraightLine(dist) && Hypotenuse(hypot) && e in GraphOf(b, hypot).edges
    ensures Adjoin(b, p, q) && Exists(b, p) && Exists(b, q) && e.fromId == Name(b, p) && e.toId == Name(b, q)
    ensures LegMeasures(b, dist, hypot, p, q, e)
  {
    p, q := EndsTellTheLeg(b, hypot, e);
    AdjoinExactly(b, p, q);
    LegIsMeasured(b, dist, hypot, p, q);
  }

  /** Apart from doors and stairs, a leg's length is the straight line; and there is no leg between places at one spot. */
  lemma SpanIsZeroExactly(b: Building, hypot: (real, real) -> real, p: Place, q: Place)
    requires ValidBuilding(b) && Hypotenuse(hypot) && Adjoin(b, p, q) && Exists(b, p) && Exists(b, q)
    ensures Span(b, hypot, p, q) > 0.0 <==> p.Landing? || q.Landing? || p.Door? || q.Door? || At(b, hypot, p) != At(b, hypot, q)
  {
    if p.Landing? {
      SlopesAreLong(b, hypot, p.level);
    } else if q.Landing? {
      SlopesAreLong(b, hypot, q.level);
    } else if !p.Door? && !q.Door? {
      GapIsZeroExactly(hypot, At(b, hypot, p), At(b, hypot, q));
      GapIsZeroExactly(hypot, At(b, hypot, q), At(b, hypot, p));
    }
  }

  lemma GapIsZeroExactly(hypot: (real, real) -> real, p: Node, q: Node)
    requires Hypotenuse(hypot) && p.z == q.z
    ensures Gap(p, q, hypot) == 0.0 <==> p == q
  {
    if p == q {
      HypotIs(hypot, 0.0, 0.0, 0.0);
    } else {
      SomewhereElse(hypot, p.x - q.x, p.y - q.y);
    }
  }

  lemma SomewhereElse(hypot: (real, real) -> real, x: real, y: real)
    requires Hypotenuse(hypot) && (x != 0.0 || y != 0.0)
    ensures hypot(x, y) > 0.0
  {
    var d, square := hypot(x, y), x * x + y * y;
    NotBothZero(x, y, square);
    Rooted(hypot, x, y, d, square);
    NotZero(d, square);
  }

  lemma Rooted(hypot: (real, real) -> real, x: real, y: real, d: real, square: real)
    requires Hypotenuse(hypot) && d == hypot(x, y) && square == x * x + y * y
    ensures d >= 0.0 && d * d == square
  {
  }

  lemma NotZero(d: real, square: real)
    requires d >= 0.0 && d * d == square && square > 0.0
    ensures d > 0.0
  {
    NothingTimes(d, d);
  }

  lemma NotBothZero(x: real, y: real, square: real)
    requires (x != 0.0 || y != 0.0) && square == x * x + y * y
    ensures square > 0.0
  {
    SquareNotNegative(x, x * x);
    SquareNotNegative(y, y * y);
  }

  lemma SquareNotNegative(x: real, square: real)
    requires square == x * x
    ensures square >= 0.0 && (x != 0.0 ==> square > 0.0)
  {
    if x > 0.0 {
      PositiveProduct(x, x, square);
    } else if x < 0.0 {
      SquaredEitherWay(x);
      PositiveProduct(0.0 - x, 0.0 - x, square);
    } else {
      NothingTimes(x, x);
    }
  }

  lemma NothingTimes(x: real, y: real)
    ensures x == 0.0 ==> x * y == 0.0
  {
  }

  lemma PositiveProduct(x: real, y: real, product: real)
    requires x > 0.0 && y > 0.0 && product == x * y
    ensures product > 0.0
  {
  }

  /** A leg is there exactly between places a crew can go between that do not stand at one spot. */
  lemma LegsAreThereExactly(b: Building, hypot: (real, real) -> real, p: Place, q: Place)
    requires ValidBuilding(b) && Hypotenuse(hypot) && Exists(b, p) && Exists(b, q)
    ensures (exists e :: e in GraphOf(b, hypot).edges && e.fromId == Name(b, p) && e.toId == Name(b, q)) <==>
            Adjoin(b, p, q) && (p.Landing? || q.Landing? || p.Door? || q.Door? || Stand(b, hypot, p) != Stand(b, hypot, q))
  {
    AdjoinExactly(b, p, q);
    PlacedAt(b, hypot, p);
    PlacedAt(b, hypot, q);
    if Adjoin(b, p, q) {
      SpanIsZeroExactly(b, hypot, p, q);
      if Span(b, hypot, p, q) > 0.0 {
        LinkedIsBuilt(b, hypot, p, q);
      }
    }
    if e :| e in GraphOf(b, hypot).edges && e.fromId == Name(b, p) && e.toId == Name(b, q) {
      var u, v := EndsTellTheLeg(b, hypot, e);
      NamesTell(b, u, p);
      NamesTell(b, v, q);
    }
  }
}
