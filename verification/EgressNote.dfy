/**
 When a face's own door is offered as the second way out, told from the building
 before any search; and when the note that takes its place is true.
*/
module EgressNote {
  import opened Options
  import opened Pathfinding
  import opened EntryGraph
  import opened Perimeter
  import opened LeastWays
  import opened SearchOrder
  import opened SecondWayOut
  import Strings

  // --------------------------------------------------------------- the condition

  /** No way out by another door and round to this wall's approach is cheaper. */
  predicate NoCheaperRound(b: Building, hypot: (real, real) -> real, w: nat)
    requires ValidBuilding(b) && Open(b, w)
  {
    forall v :: 0 <= v < |b.walls| && v != w ==> AtMost(Some(Out(b, hypot, w)), By(b, hypot, v, w))
  }

  /** A way round whose last leg comes from spot `i`, as cheap as the wall's own way out. */
  predicate TiedRound(b: Building, hypot: (real, real) -> real, w: nat, i: nat)
    requires ValidBuilding(b) && Open(b, w) && i <= |b.walls|
  {
    Step(b, hypot, i, w).Some? && Then(Exit(b, hypot, i, |b.walls|), Step(b, hypot, i, w)) == Some(Out(b, hypot, w))
  }

  /** Of two such the search takes the door when anything weighs on it; if not, when it is the longer last leg. */
  predicate DoorFirst(b: Building, hypot: (real, real) -> real, w: nat, i: nat)
    requires ValidBuilding(b) && Open(b, w) && i <= |b.walls| && Step(b, hypot, i, w).Some?
  {
    || Sum(b.walls[w].crossing.value) > 0.0
    || Step(b, hypot, i, w).value < b.standoff
    || (Step(b, hypot, i, w).value == b.standoff && i == |b.walls|)
  }

  /** The wall's own way out is the one a search for its approach comes back by. */
  predicate OwnDoorFirst(b: Building, hypot: (real, real) -> real, w: nat)
    requires ValidBuilding(b)
  {
    && Usable(b, hypot, w) && NoCheaperRound(b, hypot, w)
    && forall i :: 0 <= i <= |b.walls| && TiedRound(b, hypot, w, i) ==> DoorFirst(b, hypot, w, i)
  }

  // ------------------------------------------------------------------ estimates

  lemma EstimateIs(b: Building, dist: (Node, Node) -> real, hypot: (real, real) -> real, p: Place, w: nat)
    requires ValidBuilding(b) && Exists(b, p) && w < |b.walls|
    ensures Name(b, p) in GraphOf(b, hypot).nodes && Name(b, Approach(w)) in GraphOf(b, hypot).nodes
    ensures Heuristic(GraphOf(b, hypot), dist, Name(b, Approach(w)), true)(Name(b, p)) == dist(At(b, hypot, p), At(b, hypot, Approach(w)))
  {
    PlacedAt(b, hypot, p);
    PlacedAt(b, hypot, Approach(w));
  }

  lemma DoorEstimate(b: Building, dist: (Node, Node) -> real, hypot: (real, real) -> real, w: nat)
    requires ValidBuilding(b) && StraightLine(dist) && Open(b, w)
    ensures dist(At(b, hypot, Door(w)), At(b, hypot, Approach(w))) == b.standoff
  {
    WallStands(b, hypot, w);
    StepIsStraight(dist, b.walls[w], b.standoff, 0.0);
  }

  lemma SpotEstimate(b: Building, dist: (Node, Node) -> real, hypot: (real, real) -> real, i: nat, w: nat)
    requires ValidBuilding(b) && StraightLine(dist) && Hypotenuse(hypot) && i <= |b.walls| && w < |b.walls|
    requires Step(b, hypot, i, w).Some?
    ensures dist(At(b, hypot, Spot(b, i)), At(b, hypot, Approach(w))) == Step(b, hypot, i, w).value
  {
    GapIsStraight(dist, hypot, At(b, hypot, Spot(b, i)), At(b, hypot, Approach(w)));
  }

  lemma OwnPrice(b: Building, hypot: (real, real) -> real, w: nat)
    requires ValidBuilding(b) && Open(b, w)
    ensures OwnLeg(b, w).Cost() == Price(b, hypot, Approach(w), Door(w)) >= b.standoff
    ensures Price(b, hypot, Approach(w), Door(w)) == b.standoff <==> Sum(b.walls[w].crossing.value) == 0.0
    ensures Sum(b.walls[w].crossing.value) >= 0.0
  {
    var sum := Sum(b.walls[w].crossing.value);
    SumNotNegative(b.walls[w].crossing.value);
    SamePrice(OwnLeg(b, w), LegOf(b, hypot, Approach(w), Door(w)));
    Over(b.standoff, sum);
  }

  lemma Over(length: real, sum: real)
    requires length > 0.0 && sum >= 0.0
    ensures length * (1.0 + sum) >= length && (length * (1.0 + sum) == length <==> sum == 0.0)
  {
    assert length * (1.0 + sum) == length + length * sum;
    if sum > 0.0 {
      assert length * sum > 0.0;
    }
  }

  lemma NamesInOrder(b: Building, w: nat, i: nat)
    requires ValidBuilding(b) && Open(b, w) && i <= |b.walls|
    ensures if i < |b.walls| then Strings.Less(Name(b, Spot(b, i)), Name(b, Door(w)))
            else Strings.Less(Name(b, Door(w)), Name(b, Spot(b, i)))
    ensures Name(b, Spot(b, i)) != Name(b, Door(w))
  {
    FirstLetter(b, Spot(b, i));
    FirstLetter(b, Door(w));
  }

  // ------------------------------------------------------------ what least means

  lemma OwnIsLeast(b: Building, hypot: (real, real) -> real, w: nat)
    requires ValidBuilding(b) && Usable(b, hypot, w)
    ensures NoCheaperRound(b, hypot, w) <==> Exit(b, hypot, w, |b.walls|) == Some(Out(b, hypot, w))
  {
    AroundItself(b, hypot, w);
    ExitIsLeast(b, hypot, w, |b.walls|, w);
    if NoCheaperRound(b, hypot, w) {
      var v := ExitIsByOne(b, hypot, w, |b.walls|);
    } else {
      var v :| 0 <= v < |b.walls| && v != w && !AtMost(Some(Out(b, hypot, w)), By(b, hypot, v, w));
      ExitIsLeast(b, hypot, w, |b.walls|, v);
    }
  }

  /** Any answer's cost is the one the building says. */
  lemma AnswerCosts(b: Building, dist: (Node, Node) -> real, hypot: (real, real) -> real, level: nat, w: nat, o: Outcome)
    requires ValidBuilding(b) && Hypotenuse(hypot) && level < |b.levels| && w < |b.walls|
    requires |GraphOf(b, hypot).nodes| <= MAX_EXPANSIONS
    requires Searched(GraphOf(b, hypot), dist, Name(b, Core(level)), Name(b, Approach(w)), o)
    ensures o.Solution? <==> Leave(b, hypot, level, w).Some?
    ensures o.Solution? ==> Leave(b, hypot, level, w) == Some(o.totalCost)
  {
    if o.Solution? {
      RouteCosts(b, hypot, level, w, o);
    } else if Leave(b, hypot, level, w).Some? {
      var legs := LeadsOut(b, hypot, level, w);
      PlacedAt(b, hypot, Core(level));
      PlacedAt(b, hypot, Approach(w));
      RefusedExactlyWhenUnreachable(GraphOf(b, hypot), Name(b, Core(level)), Name(b, Approach(w)), o);
    }
  }

  lemma RouteCosts(b: Building, hypot: (real, real) -> real, level: nat, w: nat, o: Outcome)
    requires ValidBuilding(b) && Hypotenuse(hypot) && level < |b.levels| && w < |b.walls| && o.Solution?
    requires Answers(GraphOf(b, hypot), Name(b, Core(level)), Name(b, Approach(w)), o)
    requires Cheapest(GraphOf(b, hypot), Name(b, Core(level)), Name(b, Approach(w)), o)
    ensures Leave(b, hypot, level, w) == Some(o.totalCost)
  {
    ReachIsLeast(b, hypot, level, Approach(w), o.legs);
    var legs := LeadsOut(b, hypot, level, w);
    assert Walk(GraphOf(b, hypot), legs, Name(b, Core(level)), Name(b, Approach(w)));
  }

  // ------------------------------------------------- round the outside instead

  /** A route to an approach that does not pass its door ends with a leg from some spot outside. */
  lemma LastLegIsOutside(b: Building, hypot: (real, real) -> real, start: string, w: nat, legs: seq<Edge>) returns (i: nat)
    requires ValidBuilding(b) && Hypotenuse(hypot) && Open(b, w) && start != Name(b, Approach(w))
    requires Walk(GraphOf(b, hypot), legs, start, Name(b, Approach(w)))
    requires Name(b, Door(w)) !in NodeIds(start, legs)
    ensures i <= |b.walls| && legs != [] && legs[|legs| - 1].fromId == Name(b, Spot(b, i))
    ensures Step(b, hypot, i, w) == Some(legs[|legs| - 1].Cost())
  {
    var front, last := legs[..|legs| - 1], legs[|legs| - 1];
    assert legs == front + [last];
    EndIsVisited(GraphOf(b, hypot), front, start, last);
    i := IntoAnApproach(b, hypot, last, w);
  }

  /** What leads to an approach, if not its door, is a leg from some spot outside. */
  lemma IntoAnApproach(b: Building, hypot: (real, real) -> real, e: Edge, w: nat) returns (i: nat)
    requires ValidBuilding(b) && Hypotenuse(hypot) && Open(b, w) && e in GraphOf(b, hypot).edges
    requires e.toId == Name(b, Approach(w)) && e.fromId != Name(b, Door(w))
    ensures i <= |b.walls| && e.fromId == Name(b, Spot(b, i)) && Step(b, hypot, i, w) == Some(e.Cost())
  {
    var u, v := EndsTellTheLeg(b, hypot, e);
    NamesTell(b, v, Approach(w));
    i := NextToAnApproach(b, hypot, u, w);
    StepPrice(b, hypot, i, w);
  }

  lemma NextToAnApproach(b: Building, hypot: (real, real) -> real, u: Place, w: nat) returns (i: nat)
    requires ValidBuilding(b) && w < |b.walls| && Linked(b, u, Approach(w)) && u != Door(w) && Span(b, hypot, u, Approach(w)) > 0.0
    ensures i <= |b.walls| && u == Spot(b, i) && Step(b, hypot, i, w).Some?
  {
    i := SpotOf(b, u);
  }

  /** Of a least cost, such a route ties with the wall's own. */
  lemma ComesRound(b: Building, hypot: (real, real) -> real, level: nat, w: nat, i: nat, front: seq<Edge>)
    requires ValidBuilding(b) && Hypotenuse(hypot) && level < |b.levels| && Open(b, w) && i <= |b.walls|
    requires Step(b, hypot, i, w).Some? && Walk(GraphOf(b, hypot), front, Name(b, Core(level)), Name(b, Spot(b, i)))
    requires CostOf(front) + Step(b, hypot, i, w).value == Stairs(b, hypot, level) + Out(b, hypot, w)
    requires Exit(b, hypot, w, |b.walls|) == Some(Out(b, hypot, w))
    ensures TiedRound(b, hypot, w, i)
  {
    SpotCosts(b, hypot, level, i, front);
    ExitThenStep(b, hypot, i, w);
    Ties(Stairs(b, hypot, level), Exit(b, hypot, i, |b.walls|), Step(b, hypot, i, w), Out(b, hypot, w), CostOf(front));
  }

  lemma SpotCosts(b: Building, hypot: (real, real) -> real, level: nat, i: nat, legs: seq<Edge>)
    requires ValidBuilding(b) && Hypotenuse(hypot) && level < |b.levels| && i <= |b.walls|
    requires Walk(GraphOf(b, hypot), legs, Name(b, Core(level)), Name(b, Spot(b, i)))
    ensures AtMost(Then(Some(Stairs(b, hypot, level)), Exit(b, hypot, i, |b.walls|)), Some(CostOf(legs)))
  {
    ReachIsLeast(b, hypot, level, Spot(b, i), legs);
  }

  lemma Ties(down: real, exit: Option<real>, step: Option<real>, out: real, cost: real)
    requires AtMost(Then(Some(down), exit), Some(cost)) && step.Some? && cost + step.value == down + out
    requires AtMost(Some(out), Then(exit, step))
    ensures Then(exit, step) == Some(out)
  {
  }

  lemma EndIsVisited(graph: Graph, front: seq<Edge>, start: string, last: Edge)
    requires Walk(graph, front, start, last.fromId)
    ensures last.fromId in NodeIds(start, front + [last])
  {
    assert (front + [last])[..|front|] == front;
    if front != [] {
      LegEndsAreVisited(start, front, |front| - 1);
    }
  }

  // ------------------------------------------------------------- who is popped first

  /** The entry of a door and that of a spot, both tight: which the search pops first. */
  lemma PoppedFirst(total: real, step: real, spot: string, own: real, standoff: real, sum: real, door: string)
    requires own >= standoff && sum >= 0.0 && (own == standoff <==> sum == 0.0) && spot != door
    ensures Before(Entry(total - own + standoff, total - own, door), Entry(total - step + step, total - step, spot)) <==>
            sum > 0.0 || step < standoff || (step == standoff && Strings.Less(door, spot))
    ensures Before(Entry(total - step + step, total - step, spot), Entry(total - own + standoff, total - own, door)) <==>
            !(sum > 0.0 || step < standoff || (step == standoff && Strings.Less(door, spot)))
  {
    Strings.LessTotal(door, spot);
  }

  /** The door's entry and a spot's, as a search for the wall's approach has them. */
  ghost predicate DoorBeforeSpot(b: Building, hypot: (real, real) -> real, w: nat, i: nat, total: real)
    requires ValidBuilding(b) && Open(b, w) && i <= |b.walls| && Step(b, hypot, i, w).Some?
  {
    var own, step := OwnLeg(b, w).Cost(), Step(b, hypot, i, w).value;
    Before(Entry(total - own + b.standoff, total - own, Name(b, Door(w))), Entry(total - step + step, total - step, Name(b, Spot(b, i))))
  }

  ghost predicate SpotBeforeDoor(b: Building, hypot: (real, real) -> real, w: nat, i: nat, total: real)
    requires ValidBuilding(b) && Open(b, w) && i <= |b.walls| && Step(b, hypot, i, w).Some?
  {
    var own, step := OwnLeg(b, w).Cost(), Step(b, hypot, i, w).value;
    Before(Entry(total - step + step, total - step, Name(b, Spot(b, i))), Entry(total - own + b.standoff, total - own, Name(b, Door(w))))
  }

  lemma DoorFirstExactly(b: Building, hypot: (real, real) -> real, w: nat, i: nat, total: real)
    requires ValidBuilding(b) && Open(b, w) && i <= |b.walls| && Step(b, hypot, i, w).Some?
    ensures DoorBeforeSpot(b, hypot, w, i, total) <==> DoorFirst(b, hypot, w, i)
    ensures SpotBeforeDoor(b, hypot, w, i, total) <==> !DoorFirst(b, hypot, w, i)
  {
    OwnPrice(b, hypot, w);
    NamesInOrder(b, w, i);
    Strings.LessTotal(Name(b, Door(w)), Name(b, Spot(b, i)));
    PoppedFirst(total, Step(b, hypot, i, w).value, Name(b, Spot(b, i)), OwnLeg(b, w).Cost(), b.standoff,
                Sum(b.walls[w].crossing.value), Name(b, Door(w)));
  }

  /** What the order of the search makes of two tight ways in, once the estimates are known. */
  lemma Compared(b: Building, dist: (Node, Node) -> real, hypot: (real, real) -> real, w: nat, start: string, o: Outcome, e: Edge, way: seq<Edge>)
    requires ValidBuilding(b) && StraightLine(dist) && Hypotenuse(hypot) && w < |b.walls|
    requires start in GraphOf(b, hypot).nodes && Name(b, Approach(w)) in GraphOf(b, hypot).nodes && start != Name(b, Approach(w))
    requires o.Solution? && Searched(GraphOf(b, hypot), dist, start, Name(b, Approach(w)), o)
    requires LeastWayIn(GraphOf(b, hypot), start, Name(b, Approach(w)), o.totalCost, e, way)
    ensures LeavesFirst(Heuristic(GraphOf(b, hypot), dist, Name(b, Approach(w)), true), o.legs, e, way)
  {
    LegsAreHonest(b, dist, hypot);
    HeuristicIsConsistent(GraphOf(b, hypot), dist, Name(b, Approach(w)), true);
    EarliestTightLegWins(GraphOf(b, hypot), Heuristic(GraphOf(b, hypot), dist, Name(b, Approach(w)), true), start,
                         Name(b, Approach(w)), o, e, way);
  }

  lemma OwnLegIsBuilt(b: Building, hypot: (real, real) -> real, w: nat)
    requires ValidBuilding(b) && Hypotenuse(hypot) && Open(b, w)
    ensures OwnLeg(b, w) in GraphOf(b, hypot).edges
  {
    LinkedIsBuilt(b, hypot, Door(w), Approach(w));
  }

  /** The wall's own way out is as cheap as any: its door and then its leg are a least way in to its approach. */
  lemma OwnWayIsTight(b: Building, hypot: (real, real) -> real, level: nat, w: nat) returns (way: seq<Edge>)
    requires ValidBuilding(b) && Hypotenuse(hypot) && level < |b.levels| && Usable(b, hypot, w)
    ensures var total := Stairs(b, hypot, level) + Out(b, hypot, w);
            && LeastWayIn(GraphOf(b, hypot), Name(b, Core(level)), Name(b, Approach(w)), total, OwnLeg(b, w), way)
            && CostOf(way) == total - OwnLeg(b, w).Cost()
  {
    var room;
    room, way := LeadsToTheDoor(b, hypot, level, w);
    OwnLegIsBuilt(b, hypot, w);
    OwnPrice(b, hypot, w);
  }

  /** So is a tied way round. */
  lemma TiedRoundIsTight(b: Building, hypot: (real, real) -> real, level: nat, w: nat, i: nat) returns (e: Edge, way: seq<Edge>)
    requires ValidBuilding(b) && Hypotenuse(hypot) && level < |b.levels| && Open(b, w) && i <= |b.walls| && TiedRound(b, hypot, w, i)
    ensures var total := Stairs(b, hypot, level) + Out(b, hypot, w);
            && LeastWayIn(GraphOf(b, hypot), Name(b, Core(level)), Name(b, Approach(w)), total, e, way)
            && e.fromId == Name(b, Spot(b, i)) && CostOf(way) == total - Step(b, hypot, i, w).value
  {
    e := LegOf(b, hypot, Spot(b, i), Approach(w));
    LinkedIsBuilt(b, hypot, Spot(b, i), Approach(w));
    StepPrice(b, hypot, i, w);
    way := LeadsOut(b, hypot, level, i);
  }

  lemma StartIsElsewhere(b: Building, hypot: (real, real) -> real, level: nat, w: nat)
    requires ValidBuilding(b) && level < |b.levels| && w < |b.walls|
    ensures Name(b, Core(level)) in GraphOf(b, hypot).nodes && Name(b, Approach(w)) in GraphOf(b, hypot).nodes
    ensures Name(b, Core(level)) != Name(b, Approach(w))
  {
    PlacedAt(b, hypot, Core(level));
    PlacedAt(b, hypot, Approach(w));
    FirstLetter(b, Core(level));
    FirstLetter(b, Approach(w));
  }

  lemma Estimates(b: Building, dist: (Node, Node) -> real, hypot: (real, real) -> real, w: nat, i: nat)
    requires ValidBuilding(b) && StraightLine(dist) && Hypotenuse(hypot) && Open(b, w) && i <= |b.walls| && Step(b, hypot, i, w).Some?
    ensures Name(b, Approach(w)) in GraphOf(b, hypot).nodes
    ensures var h := Heuristic(GraphOf(b, hypot), dist, Name(b, Approach(w)), true);
            h(Name(b, Door(w))) == b.standoff && h(Name(b, Spot(b, i))) == Step(b, hypot, i, w).value
  {
    EstimateIs(b, dist, hypot, Spot(b, i), w);
    EstimateIs(b, dist, hypot, Door(w), w);
    SpotEstimate(b, dist, hypot, i, w);
    DoorEstimate(b, dist, hypot, w);
  }

  lemma SpotLeftFirst(b: Building, hypot: (real, real) -> real, w: nat, i: nat, h: string -> real, legs: seq<Edge>, way: seq<Edge>, total: real)
    requires ValidBuilding(b) && Open(b, w) && i <= |b.walls| && Step(b, hypot, i, w).Some?
    requires h(Name(b, Door(w))) == b.standoff && h(Name(b, Spot(b, i))) == Step(b, hypot, i, w).value
    requires LeavesFirst(h, legs, OwnLeg(b, w), way) && legs[|legs| - 1].fromId == Name(b, Spot(b, i)) != Name(b, Door(w))
    requires CostOf(legs[..|legs| - 1]) == total - Step(b, hypot, i, w).value && CostOf(way) == total - OwnLeg(b, w).Cost()
    ensures SpotBeforeDoor(b, hypot, w, i, total)
  {
  }

  lemma DoorLeftFirst(b: Building, hypot: (real, real) -> real, w: nat, i: nat, h: string -> real, legs: seq<Edge>, e: Edge, way: seq<Edge>, total: real)
    requires ValidBuilding(b) && Open(b, w) && i <= |b.walls| && Step(b, hypot, i, w).Some?
    requires h(Name(b, Door(w))) == b.standoff && h(Name(b, Spot(b, i))) == Step(b, hypot, i, w).value
    requires LeavesFirst(h, legs, e, way) && legs[|legs| - 1] == OwnLeg(b, w) && e.fromId == Name(b, Spot(b, i)) != Name(b, Door(w))
    requires CostOf(legs) == total && CostOf(way) == total - Step(b, hypot, i, w).value
    ensures DoorBeforeSpot(b, hypot, w, i, total)
  {
  }

  /** Coming back round the outside means a spot was popped before the door. */
  lemma RoundMeansSpotFirst(b: Building, dist: (Node, Node) -> real, hypot: (real, real) -> real, level: nat, w: nat, o: Outcome)
    returns (i: nat)
    requires ValidBuilding(b) && StraightLine(dist) && Hypotenuse(hypot) && level < |b.levels|
    requires Usable(b, hypot, w) && NoCheaperRound(b, hypot, w)
    requires Searched(GraphOf(b, hypot), dist, Name(b, Core(level)), Name(b, Approach(w)), o)
    requires o.Solution? && o.totalCost == Stairs(b, hypot, level) + Out(b, hypot, w) && !Through(Name(b, Door(w)), o)
    ensures i <= |b.walls| && TiedRound(b, hypot, w, i) && !DoorFirst(b, hypot, w, i)
  {
    StartIsElsewhere(b, hypot, level, w);
    OwnIsLeast(b, hypot, w);
    i := LastLegIsOutside(b, hypot, Name(b, Core(level)), w, o.legs);
    var front, last := o.legs[..|o.legs| - 1], o.legs[|o.legs| - 1];
    ComesRound(b, hypot, level, w, i, front);
    var way := OwnWayIsTight(b, hypot, level, w);
    Compared(b, dist, hypot, w, Name(b, Core(level)), o, OwnLeg(b, w), way);
    Estimates(b, dist, hypot, w, i);
    NamesInOrder(b, w, i);
    SpotLeftFirst(b, hypot, w, i, Heuristic(GraphOf(b, hypot), dist, Name(b, Approach(w)), true), o.legs, way, o.totalCost);
    DoorFirstExactly(b, hypot, w, i, o.totalCost);
  }

  /** Coming by the door means it was popped before every spot that ties. */
  lemma DoorMeansDoorFirst(b: Building, dist: (Node, Node) -> real, hypot: (real, real) -> real, level: nat, w: nat, o: Outcome, i: nat)
    requires ValidBuilding(b) && StraightLine(dist) && Hypotenuse(hypot) && level < |b.levels| && Open(b, w)
    requires i <= |b.walls| && TiedRound(b, hypot, w, i)
    requires Offered(GraphOf(b, hypot), dist, Name(b, Core(level)), Name(b, Approach(w)), Name(b, Door(w)), o)
    requires o.totalCost == Stairs(b, hypot, level) + Out(b, hypot, w)
    ensures DoorFirst(b, hypot, w, i)
  {
    StartIsElsewhere(b, hypot, level, w);
    OfferedLeavesByItsOwnDoor(b, dist, hypot, level, w, o);
    var e, way := TiedRoundIsTight(b, hypot, level, w, i);
    Compared(b, dist, hypot, w, Name(b, Core(level)), o, e, way);
    Estimates(b, dist, hypot, w, i);
    NamesInOrder(b, w, i);
    DoorLeftFirst(b, hypot, w, i, Heuristic(GraphOf(b, hypot), dist, Name(b, Approach(w)), true), o.legs, e, way, o.totalCost);
    DoorFirstExactly(b, hypot, w, i, o.totalCost);
  }

  /** A route by the wall's own door says that the wall is usable and nothing round it cheaper. */
  lemma OfferedMeansLeast(b: Building, dist: (Node, Node) -> real, hypot: (real, real) -> real, level: nat, w: nat, o: Outcome)
    requires ValidBuilding(b) && Hypotenuse(hypot) && level < |b.levels| && Open(b, w)
    requires Offered(GraphOf(b, hypot), dist, Name(b, Core(level)), Name(b, Approach(w)), Name(b, Door(w)), o)
    ensures Usable(b, hypot, w) && NoCheaperRound(b, hypot, w) && o.totalCost == Stairs(b, hypot, level) + Out(b, hypot, w)
  {
    RouteCosts(b, hypot, level, w, o);
    var cost := DoorIsOnTheWay(b, dist, hypot, level, w, o);
    OwnPrice(b, hypot, w);
    LeastAtTheDoor(b, hypot, level, w, cost, o.totalCost);
    OwnIsLeast(b, hypot, w);
  }

  lemma DoorIsOnTheWay(b: Building, dist: (Node, Node) -> real, hypot: (real, real) -> real, level: nat, w: nat, o: Outcome)
    returns (cost: real)
    requires ValidBuilding(b) && Hypotenuse(hypot) && level < |b.levels| && Open(b, w)
    requires Offered(GraphOf(b, hypot), dist, Name(b, Core(level)), Name(b, Approach(w)), Name(b, Door(w)), o)
    ensures AtMost(ToTheDoor(b, hypot, level, w), Some(cost)) && o.totalCost == cost + OwnLeg(b, w).Cost()
  {
    OfferedLeavesByItsOwnDoor(b, dist, hypot, level, w, o);
    var front := o.legs[..|o.legs| - 1];
    cost := CostOf(front);
    ReachIsLeast(b, hypot, level, Door(w), front);
  }

  lemma LeastAtTheDoor(b: Building, hypot: (real, real) -> real, level: nat, w: nat, cost: real, total: real)
    requires ValidBuilding(b) && Hypotenuse(hypot) && level < |b.levels| && Open(b, w)
    requires AtMost(ToTheDoor(b, hypot, level, w), Some(cost))
    requires Leave(b, hypot, level, w) == Some(total) && total == cost + Price(b, hypot, Approach(w), Door(w))
    ensures Usable(b, hypot, w) && Exit(b, hypot, w, |b.walls|) == Some(Out(b, hypot, w))
  {
    OwnIsPositive(b, hypot, w);
    NotFromOutside(b, hypot, level, w, cost, total);
    OutIsAWay(b, hypot, w);
    CameFromWithin(b, hypot, level, w, cost, total);
    NeitherIsLess(Exit(b, hypot, w, |b.walls|), Some(Out(b, hypot, w)));
  }

  lemma NotFromOutside(b: Building, hypot: (real, real) -> real, level: nat, w: nat, cost: real, total: real)
    requires ValidBuilding(b) && level < |b.levels| && Open(b, w) && Price(b, hypot, Approach(w), Door(w)) > 0.0
    requires AtMost(ToTheDoor(b, hypot, level, w), Some(cost))
    requires Leave(b, hypot, level, w) == Some(total) && total == cost + Price(b, hypot, Approach(w), Door(w))
    ensures Usable(b, hypot, w) && Stairs(b, hypot, level) + Inside(b, hypot, w) <= cost
  {
  }

  lemma OwnIsPositive(b: Building, hypot: (real, real) -> real, w: nat)
    requires ValidBuilding(b) && Hypotenuse(hypot) && Open(b, w)
    ensures Price(b, hypot, Approach(w), Door(w)) > 0.0
  {
    DoorPrices(b, hypot, w);
  }

  lemma OutIsAWay(b: Building, hypot: (real, real) -> real, w: nat)
    requires ValidBuilding(b) && Usable(b, hypot, w)
    ensures AtMost(Exit(b, hypot, w, |b.walls|), Some(Out(b, hypot, w)))
  {
    AroundItself(b, hypot, w);
    ExitIsLeast(b, hypot, w, |b.walls|, w);
  }

  /** A least way by a door that was come to from inside is the wall's own. */
  lemma CameFromWithin(b: Building, hypot: (real, real) -> real, level: nat, w: nat, cost: real, total: real)
    requires ValidBuilding(b) && level < |b.levels| && Open(b, w)
    requires Leave(b, hypot, level, w) == Some(total) && total == cost + Price(b, hypot, Approach(w), Door(w))
    requires Stairs(b, hypot, level) + Inside(b, hypot, w) <= cost
    ensures AtMost(Some(Out(b, hypot, w)), Exit(b, hypot, w, |b.walls|))
  {
    OnFromTheDoor(b, hypot, level, w, cost);
    LeftToPay(b, hypot, level, w, total);
  }

  lemma OnFromTheDoor(b: Building, hypot: (real, real) -> real, level: nat, w: nat, cost: real)
    requires ValidBuilding(b) && level < |b.levels| && Open(b, w)
    requires Stairs(b, hypot, level) + Inside(b, hypot, w) <= cost
    ensures Stairs(b, hypot, level) + Out(b, hypot, w) <= cost + Price(b, hypot, Approach(w), Door(w))
  {
  }

  lemma LeftToPay(b: Building, hypot: (real, real) -> real, level: nat, w: nat, total: real)
    requires ValidBuilding(b) && level < |b.levels| && Open(b, w)
    requires Leave(b, hypot, level, w) == Some(total) && Stairs(b, hypot, level) + Out(b, hypot, w) <= total
    ensures AtMost(Some(Out(b, hypot, w)), Exit(b, hypot, w, |b.walls|))
  {
    Cancelled(Stairs(b, hypot, level), Exit(b, hypot, w, |b.walls|), Out(b, hypot, w), total);
  }

  lemma Cancelled(down: real, exit: Option<real>, out: real, total: real)
    requires Then(Some(down), exit) == Some(total) && down + out <= total
    ensures AtMost(Some(out), exit)
  {
  }

  lemma NeitherIsLess(a: Option<real>, b: Option<real>)
    requires AtMost(a, b) && AtMost(b, a) && b.Some?
    ensures a == b
  {
  }

  /**
   A search for a wall's approach comes back by that wall's own door if and only if the
   wall is usable, no way out by another door and round is cheaper, and of those as
   cheap none has its last spot popped before the door.
  */
  lemma OfferedExactly(b: Building, dist: (Node, Node) -> real, hypot: (real, real) -> real, level: nat, w: nat, o: Outcome)
    requires ValidBuilding(b) && StraightLine(dist) && Hypotenuse(hypot) && level < |b.levels| && Open(b, w)
    requires |GraphOf(b, hypot).nodes| <= MAX_EXPANSIONS
    requires Searched(GraphOf(b, hypot), dist, Name(b, Core(level)), Name(b, Approach(w)), o)
    ensures Through(Name(b, Door(w)), o) <==> OwnDoorFirst(b, hypot, w)
  {
    if Through(Name(b, Door(w)), o) {
      OfferedMeansLeast(b, dist, hypot, level, w, o);
      forall i | 0 <= i <= |b.walls| && TiedRound(b, hypot, w, i) ensures DoorFirst(b, hypot, w, i) {
        DoorMeansDoorFirst(b, dist, hypot, level, w, o, i);
      }
    } else if Usable(b, hypot, w) && NoCheaperRound(b, hypot, w) {
      OwnIsLeast(b, hypot, w);
      AnswerCosts(b, dist, hypot, level, w, o);
      var i := RoundMeansSpotFirst(b, dist, hypot, level, w, o);
    }
  }

  // ---------------------------------------------------------------- the egress

  /** A graph the search never gives up on. */
  predicate WithinCeiling(b: Building, hypot: (real, real) -> real)
    requires ValidBuilding(b)
  {
    |GraphOf(b, hypot).nodes| <= MAX_EXPANSIONS
  }

  lemma PassedOverMeansNot(b: Building, dist: (Node, Node) -> real, hypot: (real, real) -> real, level: nat, w: nat)
    requires ValidBuilding(b) && StraightLine(dist) && Hypotenuse(hypot) && level < |b.levels| && Open(b, w) && WithinCeiling(b, hypot)
    requires PassedOver(GraphOf(b, hypot), dist, Name(b, Core(level)), Name(b, Approach(w)), Name(b, Door(w)))
    ensures !OwnDoorFirst(b, hypot, w)
  {
    var o :| Searched(GraphOf(b, hypot), dist, Name(b, Core(level)), Name(b, Approach(w)), o) && !Through(Name(b, Door(w)), o);
    OfferedExactly(b, dist, hypot, level, w, o);
  }

  /** There is no second way out exactly when no face the entry did not use has its own door first. */
  lemma NoSecondWayOutExactly(b: Building, dist: (Node, Node) -> real, hypot: (real, real) -> real, level: nat, used: Option<nat>,
                              best: Option<Way>)
    requires ValidBuilding(b) && StraightLine(dist) && Hypotenuse(hypot) && level < |b.levels| && WithinCeiling(b, hypot)
    requires BestOf(b, GraphOf(b, hypot), dist, Name(b, Core(level)), used, best, |b.walls|)
    ensures best.None? <==> forall w :: Candidate(b, used, w) ==> !OwnDoorFirst(b, hypot, w)
  {
    if best.None? {
      forall w | Candidate(b, used, w) ensures !OwnDoorFirst(b, hypot, w) {
        assert Judged(GraphOf(b, hypot), dist, Name(b, Core(level)), Name(b, Approach(w)), Name(b, Door(w)), w, best);
        PassedOverMeansNot(b, dist, hypot, level, w);
      }
    } else {
      OfferedExactly(b, dist, hypot, level, best.value.wall, best.value.outcome);
    }
  }

  /** Of the faces with their own doors first the egress is the cheapest, the first of equals, and costs what its door does. */
  lemma EgressExactly(b: Building, dist: (Node, Node) -> real, hypot: (real, real) -> real, level: nat, used: Option<nat>, way: Way, w: nat)
    requires ValidBuilding(b) && StraightLine(dist) && Hypotenuse(hypot) && level < |b.levels| && WithinCeiling(b, hypot)
    requires BestOf(b, GraphOf(b, hypot), dist, Name(b, Core(level)), used, Some(way), |b.walls|)
    ensures Candidate(b, used, way.wall) && OwnDoorFirst(b, hypot, way.wall)
    ensures way.outcome.Solution? && way.outcome.totalCost == Stairs(b, hypot, level) + Out(b, hypot, way.wall)
    ensures Candidate(b, used, w) && OwnDoorFirst(b, hypot, w) ==>
              Out(b, hypot, way.wall) <= Out(b, hypot, w) && (w < way.wall ==> Out(b, hypot, way.wall) < Out(b, hypot, w))
  {
    OfferedExactly(b, dist, hypot, level, way.wall, way.outcome);
    OfferedMeansLeast(b, dist, hypot, level, way.wall, way.outcome);
    if Candidate(b, used, w) && OwnDoorFirst(b, hypot, w) {
      assert Judged(GraphOf(b, hypot), dist, Name(b, Core(level)), Name(b, Approach(w)), Name(b, Door(w)), w, Some(way));
      if PassedOver(GraphOf(b, hypot), dist, Name(b, Core(level)), Name(b, Approach(w)), Name(b, Door(w))) {
        PassedOverMeansNot(b, dist, hypot, level, w);
      }
      OwnIsLeast(b, hypot, w);
      var legs := LeadsOut(b, hypot, level, w);
      assert Walk(GraphOf(b, hypot), legs, Name(b, Core(level)), Name(b, Approach(w)));
    }
  }

  // ------------------------------------------------------------------ the note

  /** The face is absent from the measured footprint or behind a barrier. */
  predicate AbsentOrBarred(b: Building, f: Face) {
    forall w :: 0 <= w < |b.walls| && b.walls[w].face == f ==> b.walls[w].crossing.None?
  }

  /** What the note says: so is every face other than the entry's. */
  predicate NoteIsTrue(b: Building, used: nat)
    requires used < |b.walls|
  {
    forall f: Face :: f != b.walls[used].face ==> AbsentOrBarred(b, f)
  }

  lemma NoteMeansNoCandidate(b: Building, used: nat)
    requires ValidBuilding(b) && used < |b.walls|
    ensures NoteIsTrue(b, used) <==> forall w :: !Candidate(b, Some(used), w)
  {
    if NoteIsTrue(b, used) {
      forall w: nat | w < |b.walls| && w != used ensures !Open(b, w) {
        assert Rank(b.walls[w].face) != Rank(b.walls[used].face);
        assert AbsentOrBarred(b, b.walls[w].face);
      }
    }
    if forall w :: !Candidate(b, Some(used), w) {
      forall f: Face | f != b.walls[used].face ensures AbsentOrBarred(b, f) {
        forall w: nat | w < |b.walls| && b.walls[w].face == f ensures b.walls[w].crossing.None? {
          assert !Candidate(b, Some(used), w);
        }
      }
    }
  }

  /**
   The note is printed only of what is so exactly when there is no other open face, or
   one of them has its own door first: a plan without an egress tells the truth if and
   only if there was no candidate.
  */
  lemma NoteIsTrueExactly(b: Building, dist: (Node, Node) -> real, hypot: (real, real) -> real, level: nat, entry: Outcome,
                          egress: Option<Way>) returns (used: nat)
    requires ValidBuilding(b) && StraightLine(dist) && Hypotenuse(hypot) && level < |b.levels| && WithinCeiling(b, hypot)
    requires entry.Solution? && Serves(b, dist, hypot, level, entry, egress)
    ensures FirstDoor(b, entry.nodeIds) == Some(used) && used < |b.walls|
    ensures egress.None? ==> (NoteIsTrue(b, used) <==> forall w :: !Candidate(b, Some(used), w))
    ensures (egress.None? ==> NoteIsTrue(b, used)) <==>
            (forall w :: !Candidate(b, Some(used), w)) || exists w :: Candidate(b, Some(used), w) && OwnDoorFirst(b, hypot, w)
  {
    used := EntryUsesADoor(b, hypot, level, entry);
    NoteMeansNoCandidate(b, used);
    NoSecondWayOutExactly(b, dist, hypot, level, Some(used), egress);
  }

  lemma EntryUsesADoor(b: Building, hypot: (real, real) -> real, level: nat, entry: Outcome) returns (used: nat)
    requires ValidBuilding(b) && Hypotenuse(hypot) && level < |b.levels| && entry.Solution?
    requires Answers(GraphOf(b, hypot), Name(b, Staging), Name(b, Core(level)), entry)
    ensures FirstDoor(b, entry.nodeIds) == Some(used) && Open(b, used)
  {
    var k, w := EntersByAnOpenDoor(b, hypot, entry.legs, Staging, Core(level));
    LegEndsAreVisited(Name(b, Staging), entry.legs, k);
    FirstDoorExactly(b, entry.nodeIds);
    used := FirstDoor(b, entry.nodeIds).value;
  }

  // --------------------------------------------------------------- few nodes

  lemma {:induction false} NodesAtMost(b: Building, hypot: (real, real) -> real, places: seq<Place>)
    requires ValidBuilding(b) && AllExist(b, places)
    ensures |NodesOf(b, hypot, places)| <= |places|
  {
    if places != [] {
      NodesAtMost(b, hypot, places[..|places| - 1]);
    }
  }

  lemma {:induction false} PlacesAtMost(b: Building, cores: nat, walls: nat)
    requires walls <= |b.walls|
    ensures |CorePlaces(cores)| == cores == |LandingPlaces(cores)| && |WallPlaces(b, walls)| <= 3 * walls
    decreases cores + walls
  {
    if cores > 0 {
      PlacesAtMost(b, cores - 1, walls);
    } else if walls > 0 {
      PlacesAtMost(b, 0, walls - 1);
    }
  }

  /** Any building of fewer than some ten thousand storeys. */
  lemma FewNodes(b: Building, hypot: (real, real) -> real)
    requires ValidBuilding(b) && 2 * |b.levels| + 3 * |b.walls| <= MAX_EXPANSIONS
    ensures WithinCeiling(b, hypot)
  {
    AllPlacesExist(b);
    NodesAtMost(b, hypot, Places(b));
    PlacesAtMost(b, |b.levels|, |b.walls|);
    PlacesAtMost(b, |b.levels| - 1, |b.walls|);
  }

  // ------------------------------------------------------- one wall, two faces

  /** Two faces bound to one stretch of wall, and weighed alike. */
  predicate SameStretch(b: Building, v: nat, w: nat) {
    Open(b, v) && Open(b, w) && b.walls[w] == b.walls[v].(face := b.walls[w].face)
  }

  lemma SamePlaces(b: Building, hypot: (real, real) -> real, v: nat, w: nat)
    requires ValidBuilding(b) && SameStretch(b, v, w)
    ensures At(b, hypot, Door(v)) == At(b, hypot, Door(w)) && At(b, hypot, Interior(v)) == At(b, hypot, Interior(w))
    ensures Setback(b, hypot, v) == Setback(b, hypot, w)
  {
    WallStands(b, hypot, v);
    WallStands(b, hypot, w);
    OffAlike(b.walls[v], b.walls[w], 0.0);
    OffAlike(b.walls[v], b.walls[w], -Setback(b, hypot, v));
  }

  lemma OffAlike(v: Wall, w: Wall, d: real)
    requires w == v.(face := w.face)
    ensures Off(v, d) == Off(w, d)
  {
  }

  lemma SameLegs(b: Building, hypot: (real, real) -> real, v: nat, w: nat)
    requires ValidBuilding(b) && SameStretch(b, v, w)
    ensures Span(b, hypot, Interior(v), Core(0)) == Span(b, hypot, Interior(w), Core(0))
    ensures Price(b, hypot, Interior(v), Core(0)) == Price(b, hypot, Interior(w), Core(0))
    ensures Price(b, hypot, Door(v), Interior(v)) == Price(b, hypot, Door(w), Interior(w))
    ensures Price(b, hypot, Approach(v), Door(v)) == Price(b, hypot, Approach(w), Door(w))
  {
    SamePlaces(b, hypot, v, w);
    SamePrice(LegOf(b, hypot, Interior(v), Core(0)), LegOf(b, hypot, Interior(w), Core(0)));
    SamePrice(LegOf(b, hypot, Door(v), Interior(v)), LegOf(b, hypot, Door(w), Interior(w)));
    SamePrice(LegOf(b, hypot, Approach(v), Door(v)), LegOf(b, hypot, Approach(w), Door(w)));
  }

  lemma SameOut(b: Building, hypot: (real, real) -> real, v: nat, w: nat)
    requires ValidBuilding(b) && SameStretch(b, v, w)
    ensures At(b, hypot, Door(v)) == At(b, hypot, Door(w))
    ensures (Usable(b, hypot, v) <==> Usable(b, hypot, w)) && Out(b, hypot, v) == Out(b, hypot, w)
  {
    SamePlaces(b, hypot, v, w);
    SameLegs(b, hypot, v, w);
  }

  /** The two approaches are one spot, and the builder joins them by no leg. */
  lemma TwinsAreNotLinked(b: Building, hypot: (real, real) -> real, v: nat, w: nat)
    requires ValidBuilding(b) && Hypotenuse(hypot) && SameStretch(b, v, w)
    ensures At(b, hypot, Approach(v)) == At(b, hypot, Approach(w)) && Step(b, hypot, v, w).None?
  {
    OffAlike(b.walls[v], b.walls[w], b.standoff);
    HypotIs(hypot, 0.0, 0.0, 0.0);
  }

  /** With no third way out neither of the two is beaten or tied by the other. */
  lemma TwinIsFirst(b: Building, hypot: (real, real) -> real, v: nat, w: nat)
    requires ValidBuilding(b) && Hypotenuse(hypot) && SameStretch(b, v, w) && Usable(b, hypot, v)
    requires forall u :: Open(b, u) ==> u == v || u == w
    ensures OwnDoorFirst(b, hypot, w)
  {
    SameOut(b, hypot, v, w);
    AroundNotNegative(b, hypot, v, w);
    forall u | 0 <= u < |b.walls| && u != w ensures AtMost(Some(Out(b, hypot, w)), By(b, hypot, u, w)) {
      assert Usable(b, hypot, u) ==> u == v;
    }
    forall i: nat | i <= |b.walls| ensures !TiedRound(b, hypot, w, i) {
      NoTieHere(b, hypot, v, w, i);
    }
  }

  lemma NoTieHere(b: Building, hypot: (real, real) -> real, v: nat, w: nat, i: nat)
    requires ValidBuilding(b) && Hypotenuse(hypot) && Open(b, w) && i <= |b.walls|
    requires forall u :: Usable(b, hypot, u) ==> Out(b, hypot, u) == Out(b, hypot, w)
    ensures !TiedRound(b, hypot, w, i)
  {
    if Exit(b, hypot, i, |b.walls|).Some? {
      var u := ExitIsByOne(b, hypot, i, |b.walls|);
      AroundNotNegative(b, hypot, u, i);
    }
  }

  /** Then the second way out is the other face's, and its door is the first one's. */
  lemma OneWallCountsTwice(b: Building, dist: (Node, Node) -> real, hypot: (real, real) -> real, level: nat, v: nat, w: nat, best: Option<Way>)
    requires ValidBuilding(b) && StraightLine(dist) && Hypotenuse(hypot) && level < |b.levels| && WithinCeiling(b, hypot)
    requires SameStretch(b, v, w) && v != w && Usable(b, hypot, v) && forall u :: Open(b, u) ==> u == v || u == w
    requires BestOf(b, GraphOf(b, hypot), dist, Name(b, Core(level)), Some(v), best, |b.walls|)
    ensures best.Some? && best.value.wall == w && At(b, hypot, Door(w)) == At(b, hypot, Door(v))
  {
    TwinIsFirst(b, hypot, v, w);
    SameOut(b, hypot, v, w);
    NoSecondWayOutExactly(b, dist, hypot, level, Some(v), best);
    assert Candidate(b, Some(v), w);
  }
}
