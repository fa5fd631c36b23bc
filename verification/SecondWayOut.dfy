/**
 The plan's second search: of the faces the entry did not use, the cheapest way out
 that leaves by that face's own door, and what it means when there is none.
*/
module SecondWayOut {
  import opened Options
  import opened Pathfinding
  import opened EntryGraph
  import opened Perimeter
  import opened LeastWays
  import opened SearchOrder

  /** A wall and the search's answer for it. */
  datatype Way = Way(wall: nat, outcome: Outcome)

  // ------------------------------------------------------------- ways out

  /** A wall that was not barred and that the entry did not use. */
  predicate Candidate(b: Building, used: Option<nat>, w: nat) {
    Open(b, w) && used != Some(w)
  }

  /** An answer to one candidate's search. */
  ghost predicate Searched(graph: Graph, dist: (Node, Node) -> real, start: string, goal: string, o: Outcome) {
    && Answers(graph, start, goal, o) && Cheapest(graph, start, goal, o)
    && (start in graph.nodes && goal in graph.nodes && start != goal ==>
          Found(graph, Heuristic(graph, dist, goal, true), start, goal, o))
  }

  predicate Through(door: string, o: Outcome) {
    o.Solution? && door in o.nodeIds
  }

  ghost predicate Offered(graph: Graph, dist: (Node, Node) -> real, start: string, goal: string, door: string, o: Outcome) {
    Searched(graph, dist, start, goal, o) && Through(door, o)
  }

  ghost predicate PassedOver(graph: Graph, dist: (Node, Node) -> real, start: string, goal: string, door: string) {
    exists o :: Searched(graph, dist, start, goal, o) && !Through(door, o)
  }

  /** No way to the goal costs less, or with `strictly` as little. */
  ghost predicate Beaten(graph: Graph, start: string, goal: string, cost: real, strictly: bool) {
    forall legs :: Walk(graph, legs, start, goal) ==> cost <= CostOf(legs) && (strictly ==> cost < CostOf(legs))
  }

  /** What the loop knows of a candidate it has seen. */
  ghost predicate Judged(graph: Graph, dist: (Node, Node) -> real, start: string, goal: string, door: string, w: nat, best: Option<Way>) {
    || PassedOver(graph, dist, start, goal, door)
    || (best.Some? && best.value.outcome.Solution?
        && Beaten(graph, start, goal, best.value.outcome.totalCost, w < best.value.wall))
  }

  ghost predicate AllJudged(b: Building, graph: Graph, dist: (Node, Node) -> real, start: string, used: Option<nat>, best: Option<Way>, n: nat) {
    forall w :: 0 <= w < n && Candidate(b, used, w) ==>
      Judged(graph, dist, start, Name(b, Approach(w)), Name(b, Door(w)), w, best)
  }

  /** The best of the first `n` walls: of those that go by their own doors the cheapest, ties to the first. */
  ghost predicate BestOf(b: Building, graph: Graph, dist: (Node, Node) -> real, start: string, used: Option<nat>, best: Option<Way>, n: nat) {
    && AllJudged(b, graph, dist, start, used, best, n)
    && (best.Some? ==>
          && best.value.wall < n && Candidate(b, used, best.value.wall)
          && Offered(graph, dist, start, Name(b, Approach(best.value.wall)), Name(b, Door(best.value.wall)), best.value.outcome))
  }

  // ------------------------------------------------------------- the two searches

  function DoorNamed(b: Building, id: string, n: nat): Option<nat>
    requires n <= |b.walls|
  {
    if n == 0 then None
    else if Open(b, n - 1) && id == Name(b, Door(n - 1)) then Some(n - 1)
    else DoorNamed(b, id, n - 1)
  }

  /** The wall whose door a route comes to first. */
  function FirstDoor(b: Building, ids: seq<string>): Option<nat> {
    if ids == [] then None
    else
      var here := DoorNamed(b, ids[0], |b.walls|);
      if here.Some? then here else FirstDoor(b, ids[1..])
  }

  lemma BeatenByLess(graph: Graph, start: string, goal: string, cost: real, strictly: bool, less: real)
    requires Beaten(graph, start, goal, cost, strictly) && less < cost
    ensures Beaten(graph, start, goal, less, true)
  {
  }

  /** A cheaper best keeps every judgement. */
  lemma JudgedByLess(b: Building, graph: Graph, dist: (Node, Node) -> real, start: string, used: Option<nat>, best: Option<Way>, n: nat, way: Way)
    requires AllJudged(b, graph, dist, start, used, best, n) && way.outcome.Solution? && way.wall == n
    requires best.Some? ==> best.value.outcome.Solution? && way.outcome.totalCost < best.value.outcome.totalCost
    ensures AllJudged(b, graph, dist, start, used, Some(way), n)
  {
    forall w | 0 <= w < n && Candidate(b, used, w)
      ensures Judged(graph, dist, start, Name(b, Approach(w)), Name(b, Door(w)), w, Some(way))
    {
      var goal, door := Name(b, Approach(w)), Name(b, Door(w));
      assert Judged(graph, dist, start, goal, door, w, best);
      if !PassedOver(graph, dist, start, goal, door) {
        BeatenByLess(graph, start, goal, best.value.outcome.totalCost, w < best.value.wall, way.outcome.totalCost);
      }
    }
  }

  lemma OneMoreJudged(b: Building, graph: Graph, dist: (Node, Node) -> real, start: string, used: Option<nat>, best: Option<Way>, n: nat)
    requires AllJudged(b, graph, dist, start, used, best, n)
    requires Candidate(b, used, n) ==> Judged(graph, dist, start, Name(b, Approach(n)), Name(b, Door(n)), n, best)
    ensures AllJudged(b, graph, dist, start, used, best, n + 1)
  {
  }

  /** Every face the entry did not use, in order, its own door required; ties go to the first. */
  method CheapestWayOut(b: Building, graph: Graph, dist: (Node, Node) -> real, start: string, used: Option<nat>)
    returns (best: Option<Way>)
    requires graph.Valid() && StraightLine(dist) && NoShortcut(graph, dist)
    ensures BestOf(b, graph, dist, start, used, best, |b.walls|)
  {
    best := None;
    for w := 0 to |b.walls|
      invariant BestOf(b, graph, dist, start, used, best, w)
    {
      if !Candidate(b, used, w) {
        OneMoreJudged(b, graph, dist, start, used, best, w);
        continue;
      }
      var goal, door := Name(b, Approach(w)), Name(b, Door(w));
      var result := AStar(graph, dist, start, goal, true);
      assert Searched(graph, dist, start, goal, result);
      if Through(door, result) && (best.None? || result.totalCost < best.value.outcome.totalCost) {
        JudgedByLess(b, graph, dist, start, used, best, w, Way(w, result));
        best := Some(Way(w, result));
      }
      assert Judged(graph, dist, start, goal, door, w, best);
      OneMoreJudged(b, graph, dist, start, used, best, w);
    }
  }

  // ------------------------------------------------------ out by its own door

  /** A walk through a node splits there. */
  lemma {:induction false} SplitAt(graph: Graph, legs: seq<Edge>, start: string, goal: string, id: string)
    returns (into: seq<Edge>, onward: seq<Edge>)
    requires Walk(graph, legs, start, goal) && id in NodeIds(start, legs)
    ensures legs == into + onward && Walk(graph, into, start, id) && Walk(graph, onward, id, goal)
  {
    if legs == [] {
      into, onward := [], [];
    } else {
      var front, last := legs[..|legs| - 1], legs[|legs| - 1];
      if id == goal {
        into, onward := legs, [];
      } else {
        var u, v := SplitAt(graph, front, start, last.fromId, id);
        into, onward := u, v + [last];
        assert onward[..|onward| - 1] == v;
      }
    }
  }

  lemma {:induction false} FirstLeg(graph: Graph, legs: seq<Edge>, start: string, goal: string)
    requires Walk(graph, legs, start, goal) && legs != []
    ensures legs[0] in graph.edges && legs[0].fromId == start && Walk(graph, legs[1..], legs[0].toId, goal)
    ensures CostOf(legs) == legs[0].Cost() + CostOf(legs[1..])
  {
    var front := legs[..|legs| - 1];
    if front == [] {
      assert legs[1..] == [];
    } else {
      FirstLeg(graph, front, start, legs[|legs| - 1].fromId);
      assert legs[1..][..|legs[1..]| - 1] == front[1..];
    }
  }

  lemma {:induction false} SomethingCosts(graph: Graph, legs: seq<Edge>, start: string, goal: string)
    requires graph.Valid() && Walk(graph, legs, start, goal)
    ensures CostOf(legs) >= 0.0 && (legs != [] ==> CostOf(legs) > 0.0)
  {
    if legs != [] {
      SomethingCosts(graph, legs[..|legs| - 1], start, legs[|legs| - 1].fromId);
      CostAtLeastLength(legs[|legs| - 1]);
    }
  }

  /** A least walk comes to its goal once. */
  lemma GoalComesOnce(graph: Graph, legs: seq<Edge>, into: seq<Edge>, onward: seq<Edge>, start: string, goal: string)
    requires graph.Valid() && legs == into + onward && Walk(graph, into, start, goal) && Walk(graph, onward, goal, goal)
    requires Beaten(graph, start, goal, CostOf(legs), false)
    ensures onward == []
  {
    WalkAppends(graph, into, onward, start, goal, goal);
    SomethingCosts(graph, onward, goal, goal);
  }

  /** A least walk does not step out to a node and straight back. */
  lemma NoStepOutAndBack(graph: Graph, legs: seq<Edge>, into: seq<Edge>, onward: seq<Edge>, start: string, goal: string, id: string)
    requires graph.Valid() && legs == into + onward && Walk(graph, into, start, id) && Walk(graph, onward, id, goal)
    requires Beaten(graph, start, goal, CostOf(legs), false)
    requires into != [] && onward != []
    ensures into[|into| - 1].fromId != onward[0].toId
  {
    if into[|into| - 1].fromId == onward[0].toId {
      var shorter := StepPast(graph, into, onward, start, goal, id);
    }
  }

  lemma StepPast(graph: Graph, into: seq<Edge>, onward: seq<Edge>, start: string, goal: string, id: string) returns (shorter: seq<Edge>)
    requires graph.Valid() && Walk(graph, into, start, id) && Walk(graph, onward, id, goal)
    requires into != [] && onward != [] && into[|into| - 1].fromId == onward[0].toId
    ensures Walk(graph, shorter, start, goal) && CostOf(shorter) < CostOf(into + onward)
  {
    WalkAppends(graph, into, onward, start, id, goal);
    BeforeLast(graph, into, start, id);
    AfterFirst(graph, onward, id, goal);
    shorter := into[..|into| - 1] + onward[1..];
    WalkAppends(graph, into[..|into| - 1], onward[1..], start, onward[0].toId, goal);
  }

  lemma AfterFirst(graph: Graph, legs: seq<Edge>, start: string, goal: string)
    requires graph.Valid() && Walk(graph, legs, start, goal) && legs != []
    ensures Walk(graph, legs[1..], legs[0].toId, goal)
    ensures CostOf(legs[1..]) < CostOf(legs)
  {
    FirstLeg(graph, legs, start, goal);
    CostAtLeastLength(legs[0]);
  }

  lemma BeforeLast(graph: Graph, legs: seq<Edge>, start: string, goal: string)
    requires graph.Valid() && Walk(graph, legs, start, goal) && legs != []
    ensures Walk(graph, legs[..|legs| - 1], start, legs[|legs| - 1].fromId)
    ensures CostOf(legs[..|legs| - 1]) < CostOf(legs)
  {
    CostAtLeastLength(legs[|legs| - 1]);
  }

  /** A door joins its approach and its room, and nothing else. */
  lemma TwoSidesOfADoor(b: Building, hypot: (real, real) -> real, e: Edge, w: nat)
    requires ValidBuilding(b) && Hypotenuse(hypot) && Open(b, w) && e in GraphOf(b, hypot).edges
    ensures e.fromId == Name(b, Door(w)) ==> e == OwnLeg(b, w) || e.toId == Name(b, Interior(w))
    ensures e.toId == Name(b, Door(w)) ==> e.Cost() == OwnLeg(b, w).Cost() || e.fromId == Name(b, Interior(w))
    ensures e.toId == Name(b, Door(w)) ==> e.fromId == Name(b, Approach(w)) || e.fromId == Name(b, Interior(w))
  {
    if e.fromId == Name(b, Door(w)) {
      OutOfADoor(b, hypot, e, w);
    }
    if e.toId == Name(b, Door(w)) {
      IntoADoor(b, hypot, e, w);
    }
  }

  lemma OutOfADoor(b: Building, hypot: (real, real) -> real, e: Edge, w: nat)
    requires ValidBuilding(b) && Hypotenuse(hypot) && Open(b, w) && e in GraphOf(b, hypot).edges && e.fromId == Name(b, Door(w))
    ensures e == OwnLeg(b, w) || e.toId == Name(b, Interior(w))
  {
    var p, q := EndsTellTheLeg(b, hypot, e);
    NamesTell(b, p, Door(w));
    NextToADoor(b, q, w);
  }

  lemma IntoADoor(b: Building, hypot: (real, real) -> real, e: Edge, w: nat)
    requires ValidBuilding(b) && Hypotenuse(hypot) && Open(b, w) && e in GraphOf(b, hypot).edges && e.toId == Name(b, Door(w))
    ensures e.fromId == Name(b, Interior(w)) || (e.fromId == Name(b, Approach(w)) && e.Cost() == OwnLeg(b, w).Cost())
  {
    var p, q := EndsTellTheLeg(b, hypot, e);
    NamesTell(b, q, Door(w));
    NextToADoor(b, p, w);
    if p == Approach(w) {
      SamePrice(e, OwnLeg(b, w));
    }
  }

  lemma NextToADoor(b: Building, p: Place, w: nat)
    requires ValidBuilding(b) && Open(b, w) && Linked(b, p, Door(w))
    ensures p == Approach(w) || p == Interior(w)
  {
  }

  /** Out through the door of a wall, at what the thermal record and the standoff make of it. */
  function OwnLeg(b: Building, w: nat): Edge
    requires Open(b, w)
  {
    Edge(Name(b, Door(w)), Name(b, Approach(w)), b.standoff, b.walls[w].crossing.value)
  }

  /**
   The check on the door's id is enough: a least route to an approach that passes the
   face's own door leaves by it, in its last leg, and not round the ring from another.
  */
  lemma LeavesByItsOwnDoor(b: Building, hypot: (real, real) -> real, start: string, w: nat, legs: seq<Edge>)
    requires ValidBuilding(b) && Hypotenuse(hypot) && Open(b, w) && start != Name(b, Door(w))
    requires Walk(GraphOf(b, hypot), legs, start, Name(b, Approach(w)))
    requires Beaten(GraphOf(b, hypot), start, Name(b, Approach(w)), CostOf(legs), false)
    requires Name(b, Door(w)) in NodeIds(start, legs)
    ensures legs != [] && legs[|legs| - 1] == OwnLeg(b, w)
  {
    var graph, goal, door := GraphOf(b, hypot), Name(b, Approach(w)), Name(b, Door(w));
    GraphIsValid(b, hypot);
    DoorIsNotApproach(b, w);
    var into, onward := SplitAt(graph, legs, start, goal, door);
    FirstLeg(graph, onward, door, goal);
    TwoSidesOfADoor(b, hypot, onward[0], w);
    TwoSidesOfADoor(b, hypot, into[|into| - 1], w);
    NoStepOutAndBack(graph, legs, into, onward, start, goal, door);
    if into[|into| - 1].fromId == goal {
      ComesBackToGoal(graph, legs, into, onward, start, goal, door);
    }
    EndsWithTheLeg(graph, legs, into, onward, start, goal, door);
  }

  lemma DoorIsNotApproach(b: Building, w: nat)
    requires Open(b, w)
    ensures Name(b, Door(w)) != Name(b, Approach(w))
  {
    assert Name(b, Door(w))[0] != Name(b, Approach(w))[0];
  }

  lemma ComesBackToGoal(graph: Graph, legs: seq<Edge>, into: seq<Edge>, onward: seq<Edge>, start: string, goal: string, id: string)
    requires graph.Valid() && legs == into + onward && Walk(graph, into, start, id) && Walk(graph, onward, id, goal)
    requires Beaten(graph, start, goal, CostOf(legs), false) && into != []
    ensures into[|into| - 1].fromId != goal
  {
    WalkAppends(graph, into, onward, start, id, goal);
    BeforeLast(graph, into, start, id);
    SomethingCosts(graph, onward, id, goal);
  }

  lemma HeadAndTail(into: seq<Edge>, onward: seq<Edge>)
    requires onward != []
    ensures into + onward == into + [onward[0]] + onward[1..]
    ensures onward[1..] == [] ==> (into + onward)[|into + onward| - 1] == onward[0]
  {
  }

  /** After a leg that reaches the goal a least walk has none left. */
  lemma NothingFollows(graph: Graph, into: seq<Edge>, leg: Edge, rest: seq<Edge>, start: string, goal: string)
    requires graph.Valid() && Walk(graph, into, start, leg.fromId) && leg in graph.edges && leg.toId == goal
    requires Walk(graph, rest, goal, goal) && Beaten(graph, start, goal, CostOf(into + [leg] + rest), false)
    ensures rest == []
  {
    OneLegWalks(graph, leg);
    WalkAppends(graph, into, [leg], start, leg.fromId, goal);
    GoalComesOnce(graph, into + [leg] + rest, into + [leg], rest, start, goal);
  }

  lemma EndsWithTheLeg(graph: Graph, legs: seq<Edge>, into: seq<Edge>, onward: seq<Edge>, start: string, goal: string, id: string)
    requires graph.Valid() && legs == into + onward && Walk(graph, into, start, id) && Walk(graph, onward, id, goal)
    requires Beaten(graph, start, goal, CostOf(legs), false)
    requires onward != [] && onward[0].toId == goal
    ensures legs[|legs| - 1] == onward[0]
  {
    FirstLeg(graph, onward, id, goal);
    HeadAndTail(into, onward);
    NothingFollows(graph, into, onward[0], onward[1..], start, goal);
  }

  /** Whatever a least route is for, passing a door costs it the leg between that door and its approach. */
  lemma PassingADoorCosts(b: Building, hypot: (real, real) -> real, start: string, goal: string, w: nat, legs: seq<Edge>)
    requires ValidBuilding(b) && Hypotenuse(hypot) && Open(b, w) && start != Name(b, Door(w)) && goal != Name(b, Door(w))
    requires Walk(GraphOf(b, hypot), legs, start, goal) && Beaten(GraphOf(b, hypot), start, goal, CostOf(legs), false)
    requires Name(b, Door(w)) in NodeIds(start, legs)
    ensures CostOf(legs) >= OwnLeg(b, w).Cost()
  {
    var graph, door := GraphOf(b, hypot), Name(b, Door(w));
    GraphIsValid(b, hypot);
    var into, onward := SplitAt(graph, legs, start, goal, door);
    FirstLeg(graph, onward, door, goal);
    TwoSidesOfADoor(b, hypot, onward[0], w);
    TwoSidesOfADoor(b, hypot, into[|into| - 1], w);
    NoStepOutAndBack(graph, legs, into, onward, start, goal, door);
    ItsLegsCost(graph, into, onward, start, goal, door);
  }

  lemma ItsLegsCost(graph: Graph, into: seq<Edge>, onward: seq<Edge>, start: string, goal: string, id: string)
    requires graph.Valid() && Walk(graph, into, start, id) && Walk(graph, onward, id, goal)
    requires into != [] && onward != []
    ensures CostOf(into + onward) >= into[|into| - 1].Cost() && CostOf(into + onward) >= onward[0].Cost()
  {
    WalkAppends(graph, into, onward, start, id, goal);
    FirstLeg(graph, onward, id, goal);
    SomethingCosts(graph, onward[1..], onward[0].toId, goal);
    SomethingCosts(graph, onward, id, goal);
    SomethingCosts(graph, into, start, id);
    SomethingCosts(graph, into[..|into| - 1], start, into[|into| - 1].fromId);
  }

  lemma OfferedLeavesByItsOwnDoor(b: Building, dist: (Node, Node) -> real, hypot: (real, real) -> real, level: nat, w: nat, o: Outcome)
    requires ValidBuilding(b) && Hypotenuse(hypot) && Open(b, w) && level < |b.levels|
    requires Offered(GraphOf(b, hypot), dist, Name(b, Core(level)), Name(b, Approach(w)), Name(b, Door(w)), o)
    ensures o.legs != [] && o.legs[|o.legs| - 1] == OwnLeg(b, w) && o.totalCost >= OwnLeg(b, w).Cost()
  {
    CoreIsNotDoor(b, level, w);
    LeavesByItsOwnDoor(b, hypot, Name(b, Core(level)), w, o.legs);
    GraphIsValid(b, hypot);
    SomethingCosts(GraphOf(b, hypot), o.legs[..|o.legs| - 1], Name(b, Core(level)), Name(b, Door(w)));
  }

  lemma CoreIsNotDoor(b: Building, level: nat, w: nat)
    requires Open(b, w) && level < |b.levels|
    ensures Name(b, Core(level)) != Name(b, Door(w))
  {
    assert Name(b, Core(level))[0] != Name(b, Door(w))[0];
  }

  // ------------------------------------------------------------------ the plan

  lemma {:induction false} DoorNamedExactly(b: Building, id: string, n: nat)
    requires ValidBuilding(b) && n <= |b.walls|
    ensures DoorNamed(b, id, n).Some? ==> Open(b, DoorNamed(b, id, n).value) && id == Name(b, Door(DoorNamed(b, id, n).value))
    ensures DoorNamed(b, id, n).None? ==> forall w :: 0 <= w < n && Open(b, w) ==> id != Name(b, Door(w))
  {
    if n > 0 {
      DoorNamedExactly(b, id, n - 1);
    }
  }

  lemma {:induction false} FirstDoorExactly(b: Building, ids: seq<string>)
    requires ValidBuilding(b)
    ensures FirstDoor(b, ids).Some? ==> Open(b, FirstDoor(b, ids).value) && Name(b, Door(FirstDoor(b, ids).value)) in ids
    ensures FirstDoor(b, ids).None? ==> forall w :: Open(b, w) ==> Name(b, Door(w)) !in ids
  {
    if ids != [] {
      DoorNamedExactly(b, ids[0], |b.walls|);
      FirstDoorExactly(b, ids[1..]);
      assert ids == [ids[0]] + ids[1..];
    }
  }

  lemma {:induction false} LegEndsAreVisited(start: string, legs: seq<Edge>, k: nat)
    requires k < |legs|
    ensures legs[k].toId in NodeIds(start, legs)
  {
    if k < |legs| - 1 {
      LegEndsAreVisited(start, legs[..|legs| - 1], k);
    }
  }

  /** Nothing to search, for want of a wall or of the storey asked for; or the entry, and with it the egress. */
  datatype Answer = Unmeasured | Planned(entry: Outcome, egress: Option<Way>)

  /** The entry is the cheapest way in, and the egress the best of the other faces' own doors. */
  ghost predicate Serves(b: Building, dist: (Node, Node) -> real, hypot: (real, real) -> real, level: nat, entry: Outcome, egress: Option<Way>)
    requires ValidBuilding(b) && level < |b.levels|
  {
    && Answers(GraphOf(b, hypot), Name(b, Staging), Name(b, Core(level)), entry)
    && Cheapest(GraphOf(b, hypot), Name(b, Staging), Name(b, Core(level)), entry)
    && (!entry.Solution? ==> egress == None)
    && (entry.Solution? ==>
          BestOf(b, GraphOf(b, hypot), dist, Name(b, Core(level)), FirstDoor(b, entry.nodeIds), egress, |b.walls|))
  }

  /** The two go by the doors of two different walls, neither barred, and the egress leaves by its own in its last leg. */
  ghost predicate TwoDoors(b: Building, entry: Outcome, way: Way) {
    && Open(b, way.wall) && entry.Solution? && way.outcome.Solution?
    && (exists v :: Open(b, v) && Name(b, Door(v)) in entry.nodeIds && v != way.wall)
    && way.outcome.legs != [] && way.outcome.legs[|way.outcome.legs| - 1] == OwnLeg(b, way.wall)
  }

  /** One entry and one egress, searched for over one graph. */
  method Plan(b: Building, dist: (Node, Node) -> real, hypot: (real, real) -> real, level: nat) returns (answer: Answer)
    requires Measured(b) && StraightLine(dist) && Hypotenuse(hypot)
    ensures answer.Unmeasured? <==> b.walls == [] || level >= |b.levels|
    ensures answer.Planned? ==> Serves(b, dist, hypot, level, answer.entry, answer.egress)
    ensures answer.Planned? && answer.egress.Some? ==> TwoDoors(b, answer.entry, answer.egress.value)
  {
    if level >= |b.levels| { return Unmeasured; }
    var graph := BuildGraph(b, hypot);
    if graph.nodes == map[] { return Unmeasured; }
    answer := Route(b, graph, dist, hypot, level);
  }

  method Route(b: Building, graph: Graph, dist: (Node, Node) -> real, hypot: (real, real) -> real, level: nat) returns (answer: Answer)
    requires ValidBuilding(b) && StraightLine(dist) && Hypotenuse(hypot) && level < |b.levels| && graph == GraphOf(b, hypot)
    ensures answer.Planned? && Serves(b, dist, hypot, level, answer.entry, answer.egress)
    ensures answer.egress.Some? ==> TwoDoors(b, answer.entry, answer.egress.value)
  {
    LegsAreHonest(b, dist, hypot);
    var entry := EntryRoute(b, graph, dist, hypot, level);
    if !entry.Solution? { return Planned(entry, None); }
    ghost var k, w :| 0 <= k < |entry.legs| && Enters(b, entry.legs[k], w);
    LegEndsAreVisited(Name(b, Staging), entry.legs, k);
    FirstDoorExactly(b, entry.nodeIds);
    var egress := CheapestWayOut(b, graph, dist, Name(b, Core(level)), FirstDoor(b, entry.nodeIds));
    if egress.Some? {
      OfferedLeavesByItsOwnDoor(b, dist, hypot, level, egress.value.wall, egress.value.outcome);
    }
    answer := Planned(entry, egress);
  }
}
