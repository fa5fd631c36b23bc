/**
 Two footprints whose plans say what is not so: one whose note leaves out an open face,
 and one whose second way out is the door of the first.
*/
module PlansThatMislead {
  import opened Options
  import opened Pathfinding
  import opened EntryGraph
  import opened Perimeter
  import opened LeastWays
  import opened SecondWayOut
  import opened EgressNote
  import opened FaceWalls

  // ------------------------------------------------------------ a square house

  /** Ten metres by ten, its east side first. */
  const SQUARE := [Corner(5.0, -5.0), Corner(5.0, 5.0), Corner(-5.0, 5.0), Corner(-5.0, -5.0)]

  lemma SquareEdges(hypot: (real, real) -> real, bearing: (real, real) -> real)
    requires Hypotenuse(hypot) && Compass(bearing)
    ensures forall i: nat :: i < 4 ==> Length(SQUARE, hypot, i) == 10.0
    ensures Facing(SQUARE, bearing, 0) == 90.0 && Facing(SQUARE, bearing, 1) == 0.0
    ensures Facing(SQUARE, bearing, 2) == 270.0 && Facing(SQUARE, bearing, 3) == 180.0
  {
    HypotIs(hypot, 0.0, 10.0, 10.0);
    HypotIs(hypot, -10.0, 0.0, 10.0);
    HypotIs(hypot, 0.0, -10.0, 10.0);
    HypotIs(hypot, 10.0, 0.0, 10.0);
    Rescaled(bearing, 1.0, 0.0, 10.0, 10.0, 0.0);
    Rescaled(bearing, 0.0, 1.0, 10.0, 0.0, 10.0);
    Rescaled(bearing, -1.0, 0.0, 10.0, -10.0, 0.0);
    Rescaled(bearing, 0.0, -1.0, 10.0, 0.0, -10.0);
    assert End(SQUARE, 0) == Corner(5.0, 5.0) && End(SQUARE, 1) == Corner(-5.0, 5.0);
    assert End(SQUARE, 2) == Corner(-5.0, -5.0) && End(SQUARE, 3) == Corner(5.0, -5.0);
  }

  /** The lowest bearing of four equal edges is north: Alpha. */
  lemma SquareFaces(hypot: (real, real) -> real, bearing: (real, real) -> real)
    requires Hypotenuse(hypot) && Compass(bearing)
    ensures AlphaBearing(SQUARE, hypot, bearing) == Some(0.0)
    ensures FaceEdge(SQUARE, hypot, bearing, FaceBearing(0.0, 0), 4) == Some(1) && FaceEdge(SQUARE, hypot, bearing, FaceBearing(0.0, 1), 4) == Some(0)
    ensures FaceEdge(SQUARE, hypot, bearing, FaceBearing(0.0, 2), 4) == Some(3) && FaceEdge(SQUARE, hypot, bearing, FaceBearing(0.0, 3), 4) == Some(2)
  {
    SquareAlpha(hypot, bearing);
    SquareNorthAndEast(hypot, bearing);
    SquareSouthAndWest(hypot, bearing);
  }

  lemma SquareNorthAndEast(hypot: (real, real) -> real, bearing: (real, real) -> real)
    requires Hypotenuse(hypot) && Compass(bearing)
    ensures FaceEdge(SQUARE, hypot, bearing, 0.0, 4) == Some(1) && FaceEdge(SQUARE, hypot, bearing, 90.0, 4) == Some(0)
  {
    SquareEdges(hypot, bearing);
    BoundExactly(SQUARE, hypot, bearing, 0.0, 1);
    BoundExactly(SQUARE, hypot, bearing, 90.0, 0);
  }

  lemma SquareSouthAndWest(hypot: (real, real) -> real, bearing: (real, real) -> real)
    requires Hypotenuse(hypot) && Compass(bearing)
    ensures FaceEdge(SQUARE, hypot, bearing, 180.0, 4) == Some(3) && FaceEdge(SQUARE, hypot, bearing, 270.0, 4) == Some(2)
  {
    SquareEdges(hypot, bearing);
    BoundExactly(SQUARE, hypot, bearing, 180.0, 3);
    BoundExactly(SQUARE, hypot, bearing, 270.0, 2);
  }

  lemma SquareAlpha(hypot: (real, real) -> real, bearing: (real, real) -> real)
    requires Hypotenuse(hypot) && Compass(bearing)
    ensures AlphaBearing(SQUARE, hypot, bearing) == Some(0.0)
  {
    SquareEdges(hypot, bearing);
    assert AlphaEdge(SQUARE, hypot, bearing, 1) == Some(0);
    assert AlphaEdge(SQUARE, hypot, bearing, 2) == Some(1);
    assert AlphaEdge(SQUARE, hypot, bearing, 3) == Some(1);
  }

  function SquareWalls(crossing: Crossings): seq<Wall> {
    [Wall(Alpha, 0.0, 5.0, 0.0, 1.0, crossing(Alpha)), Wall(Bravo, 5.0, 0.0, 1.0, 0.0, crossing(Bravo)),
     Wall(Charlie, 0.0, -5.0, 0.0, -1.0, crossing(Charlie)), Wall(Delta, -5.0, 0.0, -1.0, 0.0, crossing(Delta))]
  }

  lemma SquareIsBound(hypot: (real, real) -> real, bearing: (real, real) -> real, crossing: Crossings)
    requires Hypotenuse(hypot) && Compass(bearing)
    ensures Bind(SQUARE, hypot, bearing, crossing, 0.0, 4) == SquareWalls(crossing)
  {
    SquareFaces(hypot, bearing);
    SquareEdges(hypot, bearing);
    SquareNormals(hypot, crossing);
    var w := SquareWalls(crossing);
    assert Bind(SQUARE, hypot, bearing, crossing, 0.0, 1) == w[..1];
    assert Bind(SQUARE, hypot, bearing, crossing, 0.0, 2) == w[..2];
    assert Bind(SQUARE, hypot, bearing, crossing, 0.0, 3) == w[..3];
    assert w[..3] + [w[3]] == w;
  }

  /** The four walls the square has. */
  lemma SquareIsWalled(hypot: (real, real) -> real, bearing: (real, real) -> real, crossing: Crossings)
    requires Hypotenuse(hypot) && Compass(bearing)
    ensures WallsOf(SQUARE, hypot, bearing, crossing) == Some(SquareWalls(crossing))
  {
    SquareFaces(hypot, bearing);
    SquareIsBound(hypot, bearing, crossing);
  }

  lemma SquareNormals(hypot: (real, real) -> real, crossing: Crossings)
    requires forall i: nat :: i < 4 ==> Length(SQUARE, hypot, i) == 10.0
    ensures var w := SquareWalls(crossing);
            && WallOn(SQUARE, hypot, 1, Alpha, crossing(Alpha)) == w[0] && WallOn(SQUARE, hypot, 0, Bravo, crossing(Bravo)) == w[1]
            && WallOn(SQUARE, hypot, 3, Charlie, crossing(Charlie)) == w[2] && WallOn(SQUARE, hypot, 2, Delta, crossing(Delta)) == w[3]
  {
  }

  // -------------------------------------------------- an open face left out

  /** One face inside the collapse zone; the next hot, just under the barrier, with voids; the other two barred. */
  function OneFaceHot(): Crossings {
    (f: Face) => match f case Alpha => Some([2.0]) case Bravo => Some([5.5, 3.0, 2.0]) case _ => None
  }

  /** The square house of one storey, its stairwell in the middle. */
  predicate HotHouse(b: Building) {
    && b.walls == SquareWalls(OneFaceHot()) && b.levels == [Level(4.0, [])]
    && b.coreX == 0.0 && b.coreY == 0.0 && b.standoff == 6.0
    && b.axisX == 1.0 && b.axisY == 0.0 && b.room == 4.5 && b.sinPitch > 0.0 && b.tanPitch > 0.0
  }

  lemma HotWeightsAreSound()
    ensures forall f: Face :: OneFaceHot()(f).Some? ==> AllWeights(OneFaceHot()(f).value)
  {
  }

  lemma SquareIsSound(hypot: (real, real) -> real, bearing: (real, real) -> real)
    requires Hypotenuse(hypot) && Compass(bearing)
    ensures var walls := SquareWalls(OneFaceHot());
            Oriented(walls, bearing, 0.0) && InFaceOrder(walls) && forall i: nat :: i < |walls| ==> ValidWall(walls[i])
  {
    SquareIsBound(hypot, bearing, OneFaceHot());
    HotWeightsAreSound();
    WallsAreSound(SQUARE, hypot, bearing, OneFaceHot(), 0.0);
  }

  /** Such a house is one the builder takes, on the walls of its footprint. */
  lemma HotHouseIsMeasured(b: Building, hypot: (real, real) -> real, bearing: (real, real) -> real)
    requires HotHouse(b) && Hypotenuse(hypot) && Compass(bearing)
    ensures ValidBuilding(b) && WallsOf(SQUARE, hypot, bearing, OneFaceHot()) == Some(b.walls) && Oriented(b.walls, bearing, 0.0)
  {
    SquareIsWalled(hypot, bearing, OneFaceHot());
    SquareIsSound(hypot, bearing);
    assert b.levels[0] == Level(4.0, []);
  }

  /** Where its places stand, and what weighs on them. */
  ghost predicate Standing(b: Building, hypot: (real, real) -> real) {
    && |b.walls| == 4 && |b.levels| == 1 && Setback(b, hypot, 0) == 2.0 && b.standoff == 6.0
    && b.walls[0].crossing == Some([2.0]) && b.walls[1].crossing == Some([5.5, 3.0, 2.0]) && b.levels[0].terms == []
    && b.walls[2].crossing == None && b.walls[3].crossing == None && b.walls[0].face == Alpha && b.walls[1].face == Bravo
    && b.coreX == 0.0 && b.coreY == 0.0
    && Off(b.walls[0], -Setback(b, hypot, 0)) == Node(0.0, 3.0, 0.0)
    && Off(b.walls[0], b.standoff) == Node(0.0, 11.0, 0.0)
    && Off(b.walls[1], b.standoff) == Node(11.0, 0.0, 0.0)
    && Off(b.walls[0], b.standoff + APPARATUS_SETBACK_M) == Node(0.0, 19.0, 0.0)
  }

  lemma AxisStep(n: real, d: real)
    ensures n == 0.0 ==> n * d == 0.0
    ensures n == 1.0 ==> n * d == d
  {
  }

  lemma OffNorth(w: Wall, y: real, d: real)
    requires w.x == 0.0 && w.y == y && w.nx == 0.0 && w.ny == 1.0
    ensures Off(w, d) == Node(0.0, y + d, 0.0)
  {
    AxisStep(w.nx, d);
    AxisStep(w.ny, d);
  }

  lemma OffEast(w: Wall, x: real, d: real)
    requires w.x == x && w.y == 0.0 && w.nx == 1.0 && w.ny == 0.0
    ensures Off(w, d) == Node(x + d, 0.0, 0.0)
  {
    AxisStep(w.nx, d);
    AxisStep(w.ny, d);
  }

  lemma RoomIsTwoIn(b: Building, hypot: (real, real) -> real)
    requires HotHouse(b) && Hypotenuse(hypot)
    ensures Setback(b, hypot, 0) == 2.0
  {
    HypotIs(hypot, 0.0, -5.0, 5.0);
  }

  lemma WhereTheyStand(b: Building, hypot: (real, real) -> real)
    requires HotHouse(b) && Hypotenuse(hypot)
    ensures Standing(b, hypot)
  {
    RoomIsTwoIn(b, hypot);
    OffNorth(b.walls[0], 5.0, -2.0);
    OffNorth(b.walls[0], 5.0, 6.0);
    OffNorth(b.walls[0], 5.0, 14.0);
    OffEast(b.walls[1], 5.0, 6.0);
  }

  lemma HypotBound(hypot: (real, real) -> real, x: real, y: real, bound: real)
    requires Hypotenuse(hypot) && bound >= 0.0 && x * x + y * y <= bound * bound
    ensures hypot(x, y) <= bound
  {
    assert hypot(x, y) >= 0.0 && hypot(x, y) * hypot(x, y) == x * x + y * y;
    SquaresKeepOrder(hypot(x, y), bound);
  }

  lemma HowFarApart(hypot: (real, real) -> real)
    requires Hypotenuse(hypot)
    ensures Gap(Node(0.0, 0.0, 0.0), Node(0.0, 3.0, 0.0), hypot) == 3.0
    ensures 0.0 < Gap(Node(0.0, 11.0, 0.0), Node(11.0, 0.0, 0.0), hypot) <= 16.0
    ensures Gap(Node(0.0, 19.0, 0.0), Node(0.0, 11.0, 0.0), hypot) == 8.0
  {
    HypotIs(hypot, 0.0, -3.0, 3.0);
    HypotBound(hypot, -11.0, 11.0, 16.0);
    assert hypot(-11.0, 11.0) * hypot(-11.0, 11.0) == 242.0;
    HypotIs(hypot, 0.0, 8.0, 8.0);
  }

  lemma RoomToCore(b: Building, hypot: (real, real) -> real)
    requires ValidBuilding(b) && Standing(b, hypot) && Hypotenuse(hypot)
    ensures Span(b, hypot, Interior(0), Core(0)) == 3.0
  {
    WallJoins(b, hypot, 0);
    HowFarApart(hypot);
  }

  lemma RoundTheCorner(b: Building, hypot: (real, real) -> real)
    requires ValidBuilding(b) && Standing(b, hypot) && Hypotenuse(hypot)
    ensures Step(b, hypot, 0, 1).Some? && Step(b, hypot, 0, 1).value <= 16.0
  {
    RingJoins(b, hypot, 0, 1);
    HowFarApart(hypot);
  }

  lemma ToTheApparatus(b: Building, hypot: (real, real) -> real)
    requires ValidBuilding(b) && Standing(b, hypot) && Hypotenuse(hypot)
    ensures Step(b, hypot, 0, 4) == Some(8.0)
  {
    StagingJoins(b, hypot, 0);
    HowFarApart(hypot);
    SpanEitherWay(b, hypot, Staging, Approach(0));
  }

  lemma SumOfThree(x: real, y: real, z: real)
    ensures Sum([x]) == x && Sum([x, y, z]) == x + y + z
  {
    assert [x, y, z][..2] == [x, y] && [x, y][..1] == [x] && [x][..0] == [];
    assert Sum([x]) == x && Sum([x, y]) == x + y;
  }

  lemma LegPrice(b: Building, hypot: (real, real) -> real, p: Place, q: Place, length: real, terms: seq<real>)
    requires ValidBuilding(b) && Exists(b, p) && Exists(b, q)
    requires Span(b, hypot, p, q) == length && Weighs(b, p, q) == terms
    ensures Price(b, hypot, p, q) == length * (1.0 + Sum(terms))
  {
  }

  /** Out by the cool door is twenty-three, and by the hot one the door alone is sixty-nine. */
  lemma DoorsCost(b: Building, hypot: (real, real) -> real)
    requires ValidBuilding(b) && Standing(b, hypot) && Hypotenuse(hypot)
    ensures Usable(b, hypot, 0) && Out(b, hypot, 0) == 23.0
    ensures Open(b, 1) && OwnLeg(b, 1).Cost() == Price(b, hypot, Approach(1), Door(1)) == 69.0
  {
    RoomToCore(b, hypot);
    SumOfThree(2.0, 0.0, 0.0);
    SumOfThree(5.5, 3.0, 2.0);
    LegPrice(b, hypot, Interior(0), Core(0), 3.0, []);
    LegPrice(b, hypot, Door(0), Interior(0), 2.0, []);
    LegPrice(b, hypot, Approach(0), Door(0), 6.0, [2.0]);
    LegPrice(b, hypot, Approach(1), Door(1), 6.0, [5.5, 3.0, 2.0]);
    OwnPrice(b, hypot, 1);
  }

  /** By the cool door and one leg on. */
  lemma ByTheCoolDoor(b: Building, hypot: (real, real) -> real, i: nat, most: real)
    requires ValidBuilding(b) && Usable(b, hypot, 0) && i <= |b.walls|
    requires Step(b, hypot, 0, i).Some? && Out(b, hypot, 0) + Step(b, hypot, 0, i).value <= most
    ensures AtMost(By(b, hypot, 0, i), Some(most))
  {
    ViaStep(Steps(b, hypot), 0, i, |b.walls| + 1);
  }

  /** So the way round beats the hot door from within. */
  lemma HotDoorIsNotFirst(b: Building, hypot: (real, real) -> real)
    requires ValidBuilding(b) && Standing(b, hypot) && Hypotenuse(hypot)
    ensures !OwnDoorFirst(b, hypot, 1)
  {
    DoorsCost(b, hypot);
    RoundTheCorner(b, hypot);
    ByTheCoolDoor(b, hypot, 1, 39.0);
    DoorPrices(b, hypot, 1);
  }

  lemma EntryIsCool(b: Building, hypot: (real, real) -> real, entry: Outcome)
    requires ValidBuilding(b) && Standing(b, hypot) && Hypotenuse(hypot) && entry.Solution?
    requires Answers(GraphOf(b, hypot), Name(b, Staging), Name(b, Core(0)), entry)
    requires Cheapest(GraphOf(b, hypot), Name(b, Staging), Name(b, Core(0)), entry)
    ensures entry.totalCost <= 31.0
  {
    EntryCosts(b, hypot, 0, entry);
    DoorsCost(b, hypot);
    ToTheApparatus(b, hypot);
    ByTheCoolDoor(b, hypot, 4, 31.0);
    ExitIsLeast(b, hypot, 4, 4, 0);
  }

  lemma EntryPassesNoHotDoor(b: Building, hypot: (real, real) -> real, entry: Outcome)
    requires ValidBuilding(b) && Hypotenuse(hypot) && Open(b, 1) && OwnLeg(b, 1).Cost() == 69.0 && entry.Solution? && entry.totalCost <= 31.0
    requires Answers(GraphOf(b, hypot), Name(b, Staging), Name(b, Core(0)), entry)
    requires Cheapest(GraphOf(b, hypot), Name(b, Staging), Name(b, Core(0)), entry)
    ensures Name(b, Door(1)) !in entry.nodeIds
  {
    FirstLetter(b, Staging);
    FirstLetter(b, Core(0));
    FirstLetter(b, Door(1));
    if Name(b, Door(1)) in entry.nodeIds {
      PassingADoorCosts(b, hypot, Name(b, Staging), Name(b, Core(0)), 1, entry.legs);
    }
  }

  /**
   The hot house gets an entry by its cool door, no egress, and so a note that its hot
   face is absent or barred. It is neither: its door is dear, and the way round to its
   approach by the entry's own door is cheaper.
  */
  lemma HotFaceIsLeftOut(b: Building, dist: (Node, Node) -> real, hypot: (real, real) -> real, bearing: (real, real) -> real,
                         entry: Outcome, egress: Option<Way>)
    requires HotHouse(b) && StraightLine(dist) && Hypotenuse(hypot) && Compass(bearing)
    requires ValidBuilding(b) && entry.Solution? && Serves(b, dist, hypot, 0, entry, egress)
    ensures WallsOf(SQUARE, hypot, bearing, OneFaceHot()) == Some(b.walls)
    ensures FirstDoor(b, entry.nodeIds) == Some(0) && egress.None? && !NoteIsTrue(b, 0)
  {
    HotHouseIsMeasured(b, hypot, bearing);
    WhereTheyStand(b, hypot);
    HotFaceIsMissed(b, dist, hypot, entry, egress);
  }

  lemma HotFaceIsMissed(b: Building, dist: (Node, Node) -> real, hypot: (real, real) -> real, entry: Outcome, egress: Option<Way>)
    requires ValidBuilding(b) && Standing(b, hypot) && StraightLine(dist) && Hypotenuse(hypot)
    requires entry.Solution? && Serves(b, dist, hypot, 0, entry, egress)
    ensures FirstDoor(b, entry.nodeIds) == Some(0) && egress.None? && !NoteIsTrue(b, 0)
  {
    EntryIsByTheCoolDoor(b, hypot, entry);
    HotDoorIsNotFirst(b, hypot);
    FewNodes(b, hypot);
    NoSecondWayOutExactly(b, dist, hypot, 0, Some(0), egress);
    NoteMeansNoCandidate(b, 0);
    assert Candidate(b, Some(0), 1);
  }

  lemma EntryIsByTheCoolDoor(b: Building, hypot: (real, real) -> real, entry: Outcome)
    requires ValidBuilding(b) && Standing(b, hypot) && Hypotenuse(hypot) && entry.Solution?
    requires Answers(GraphOf(b, hypot), Name(b, Staging), Name(b, Core(0)), entry)
    requires Cheapest(GraphOf(b, hypot), Name(b, Staging), Name(b, Core(0)), entry)
    ensures FirstDoor(b, entry.nodeIds) == Some(0)
  {
    DoorsCost(b, hypot);
    EntryIsCool(b, hypot, entry);
    EntryPassesNoHotDoor(b, hypot, entry);
    FirstDoorExactly(b, entry.nodeIds);
    var used := EntryUsesADoor(b, hypot, 0, entry);
  }

  // ------------------------------------------------------- one door for two

  /** A house with a corner cut off: the cut is its longest wall to the east, and to the south. */
  const CUT := [Corner(0.0, 0.0), Corner(8.0, 8.0), Corner(8.0, 10.0), Corner(-10.0, 10.0), Corner(-10.0, 0.0)]

  lemma CutEdges(hypot: (real, real) -> real, bearing: (real, real) -> real)
    requires Hypotenuse(hypot) && Compass(bearing)
    ensures 10.0 < Length(CUT, hypot, 0) < 12.0 && Length(CUT, hypot, 1) == 2.0 && Length(CUT, hypot, 2) == 18.0
    ensures Length(CUT, hypot, 3) == 10.0 && Length(CUT, hypot, 4) == 10.0
    ensures Facing(CUT, bearing, 0) == 135.0 && Facing(CUT, bearing, 1) == 90.0 && Facing(CUT, bearing, 2) == 0.0
    ensures Facing(CUT, bearing, 3) == 270.0 && Facing(CUT, bearing, 4) == 180.0
  {
    CutLengths(hypot);
    Rescaled(bearing, 1.0, -1.0, 8.0, 8.0, -8.0);
    Rescaled(bearing, 1.0, 0.0, 2.0, 2.0, 0.0);
    Rescaled(bearing, 0.0, 1.0, 18.0, 0.0, 18.0);
    Rescaled(bearing, -1.0, 0.0, 10.0, -10.0, 0.0);
    Rescaled(bearing, 0.0, -1.0, 10.0, 0.0, -10.0);
    assert End(CUT, 0) == Corner(8.0, 8.0) && End(CUT, 1) == Corner(8.0, 10.0) && End(CUT, 2) == Corner(-10.0, 10.0);
    assert End(CUT, 3) == Corner(-10.0, 0.0) && End(CUT, 4) == Corner(0.0, 0.0);
  }

  lemma CutLengths(hypot: (real, real) -> real)
    requires Hypotenuse(hypot)
    ensures 10.0 < hypot(8.0, 8.0) < 12.0 && hypot(0.0, 2.0) == 2.0 && hypot(-18.0, 0.0) == 18.0
    ensures hypot(0.0, -10.0) == 10.0 && hypot(10.0, 0.0) == 10.0
  {
    HypotIs(hypot, 0.0, 2.0, 2.0);
    HypotIs(hypot, -18.0, 0.0, 18.0);
    HypotIs(hypot, 0.0, -10.0, 10.0);
    HypotIs(hypot, 10.0, 0.0, 10.0);
    var d := hypot(8.0, 8.0);
    assert d >= 0.0 && d * d == 128.0;
    SquaresKeepOrder(d, 10.0);
    SquaresKeepOrder(12.0, d);
  }

  /** Bravo and Charlie are bound to the one edge. */
  lemma CutFaces(hypot: (real, real) -> real, bearing: (real, real) -> real)
    requires Hypotenuse(hypot) && Compass(bearing)
    ensures FaceEdge(CUT, hypot, bearing, FaceBearing(0.0, 0), 5) == Some(2) && FaceEdge(CUT, hypot, bearing, FaceBearing(0.0, 1), 5) == Some(0)
    ensures FaceEdge(CUT, hypot, bearing, FaceBearing(0.0, 2), 5) == Some(0) && FaceEdge(CUT, hypot, bearing, FaceBearing(0.0, 3), 5) == Some(3)
  {
    CutNorthAndEast(hypot, bearing);
    CutSouthAndWest(hypot, bearing);
  }

  lemma CutNorthAndEast(hypot: (real, real) -> real, bearing: (real, real) -> real)
    requires Hypotenuse(hypot) && Compass(bearing)
    ensures FaceEdge(CUT, hypot, bearing, 0.0, 5) == Some(2) && FaceEdge(CUT, hypot, bearing, 90.0, 5) == Some(0)
  {
    CutEdges(hypot, bearing);
    BoundExactly(CUT, hypot, bearing, 0.0, 2);
    BoundExactly(CUT, hypot, bearing, 90.0, 0);
  }

  lemma CutSouthAndWest(hypot: (real, real) -> real, bearing: (real, real) -> real)
    requires Hypotenuse(hypot) && Compass(bearing)
    ensures FaceEdge(CUT, hypot, bearing, 180.0, 5) == Some(0) && FaceEdge(CUT, hypot, bearing, 270.0, 5) == Some(3)
  {
    CutEdges(hypot, bearing);
    BoundExactly(CUT, hypot, bearing, 180.0, 0);
    BoundExactly(CUT, hypot, bearing, 270.0, 3);
  }

  lemma CutAlpha(hypot: (real, real) -> real, bearing: (real, real) -> real)
    requires Hypotenuse(hypot) && Compass(bearing)
    ensures AlphaBearing(CUT, hypot, bearing) == Some(0.0)
  {
    CutEdges(hypot, bearing);
    assert AlphaEdge(CUT, hypot, bearing, 1) == Some(0);
    assert AlphaEdge(CUT, hypot, bearing, 2) == Some(0);
    assert AlphaEdge(CUT, hypot, bearing, 3) == Some(2);
    assert AlphaEdge(CUT, hypot, bearing, 4) == Some(2);
  }

  /** Two faces unscanned, inside the collapse zone; the other two barred. */
  function TwoFacesOpen(): Crossings {
    (f: Face) => if f == Bravo || f == Charlie then Some([3.0, 2.0]) else None
  }

  /** So the house has its cut wall twice. */
  lemma CutIsWalled(hypot: (real, real) -> real, bearing: (real, real) -> real, walls: seq<Wall>)
    requires Hypotenuse(hypot) && Compass(bearing) && WallsOf(CUT, hypot, bearing, TwoFacesOpen()) == Some(walls)
    ensures |walls| == 4 && walls[0].crossing.None? && walls[3].crossing.None?
    ensures walls[1].crossing.Some? && walls[2] == walls[1].(face := Charlie)
  {
    CutFaces(hypot, bearing);
    CutAlpha(hypot, bearing);
    var c := TwoFacesOpen();
    assert |Bind(CUT, hypot, bearing, c, 0.0, 1)| == 1 && |Bind(CUT, hypot, bearing, c, 0.0, 2)| == 2;
    assert |Bind(CUT, hypot, bearing, c, 0.0, 3)| == 3;
  }

  /**
   Whatever stands on that footprint, and whichever storey is asked for: with the cut
   wall its one opening a plan that gets in gives a second way out, and its door is the
   one the entry uses.
  */
  lemma SecondDoorIsTheFirst(b: Building, dist: (Node, Node) -> real, hypot: (real, real) -> real, bearing: (real, real) -> real,
                             level: nat, entry: Outcome, egress: Option<Way>) returns (used: nat)
    requires ValidBuilding(b) && StraightLine(dist) && Hypotenuse(hypot) && Compass(bearing) && level < |b.levels| && WithinCeiling(b, hypot)
    requires WallsOf(CUT, hypot, bearing, TwoFacesOpen()) == Some(b.walls)
    requires entry.Solution? && Serves(b, dist, hypot, level, entry, egress)
    ensures FirstDoor(b, entry.nodeIds) == Some(used) && Open(b, used)
    ensures egress.Some? && egress.value.wall != used && Open(b, egress.value.wall)
    ensures At(b, hypot, Door(egress.value.wall)) == At(b, hypot, Door(used))
  {
    CutIsWalled(hypot, bearing, b.walls);
    used := EntryUsesADoor(b, hypot, level, entry);
    var other := if used == 1 then 2 else 1;
    assert SameStretch(b, used, other);
    SomeWallIsUsable(b, hypot, level, entry, used, other);
    OneWallCountsTwice(b, dist, hypot, level, used, other, egress);
  }

  lemma SomeWallIsUsable(b: Building, hypot: (real, real) -> real, level: nat, entry: Outcome, v: nat, w: nat)
    requires ValidBuilding(b) && Hypotenuse(hypot) && level < |b.levels| && entry.Solution? && SameStretch(b, v, w)
    requires forall u :: Open(b, u) ==> u == v || u == w
    requires Answers(GraphOf(b, hypot), Name(b, Staging), Name(b, Core(level)), entry)
    ensures Usable(b, hypot, v)
  {
    WayInCosts(b, hypot, level, entry.legs);
    var u := ExitIsByOne(b, hypot, |b.walls|, |b.walls|);
    SameOut(b, hypot, v, w);
  }
}
