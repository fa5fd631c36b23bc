/**
 When the straight-line heuristic may be trusted: exactly when no leg undercuts the
 straight line across it, however the graph is built on.
*/
module HonestLegs {
  import opened Pathfinding
  import opened Sorting
  import Strings

  // ----------------------------------------------------- more of the same graph

  /** `more` has every node where `graph` has it, and every leg. */
  ghost predicate Extends(more: Graph, graph: Graph) {
    && (forall id :: id in graph.nodes ==> id in more.nodes && more.nodes[id] == graph.nodes[id])
    && (forall e :: e in graph.edges ==> e in more.edges)
  }

  /** The legs it adds are honest: none is cheaper than the straight line across it. */
  ghost predicate HonestBeyond(more: Graph, graph: Graph, dist: (Node, Node) -> real)
    requires more.Valid()
  {
    forall e :: e in more.edges && e !in graph.edges ==> dist(more.nodes[e.fromId], more.nodes[e.toId]) <= e.Cost()
  }

  /** The search with the heuristic, when it reaches the goal, has its least cost. */
  ghost predicate FindsCheapest(graph: Graph, dist: (Node, Node) -> real, start: string, goal: string)
    requires start in graph.nodes && goal in graph.nodes
  {
    var ended := SearchFrom(graph, Heuristic(graph, dist, goal, true), goal, Opening(Heuristic(graph, dist, goal, true), start));
    ended.Reached? ==> goal in ended.s.g && forall w :: Walk(graph, w, start, goal) ==> ended.s.g[goal] <= CostOf(w)
  }

  ghost predicate HonestExtension(more: Graph, graph: Graph, dist: (Node, Node) -> real) {
    more.Valid() && Extends(more, graph) && HonestBeyond(more, graph, dist)
  }

  /** On every honest extension, and between any two of its nodes, the search finds the cheapest route. */
  ghost predicate Trusted(graph: Graph, dist: (Node, Node) -> real) {
    forall more, start, goal :: HonestExtension(more, graph, dist) && Between(more, start, goal) ==>
      FindsCheapest(more, dist, start, goal)
  }

  predicate Between(graph: Graph, start: string, goal: string) {
    start in graph.nodes && goal in graph.nodes && start != goal
  }

  lemma HonestEverywhere(more: Graph, graph: Graph, dist: (Node, Node) -> real)
    requires graph.Valid() && more.Valid() && Extends(more, graph) && HonestBeyond(more, graph, dist)
    requires NoShortcut(graph, dist)
    ensures NoShortcut(more, dist)
  {
    forall e | e in more.edges ensures dist(more.nodes[e.fromId], more.nodes[e.toId]) <= e.Cost() {
      if e in graph.edges {
        assert dist(graph.nodes[e.fromId], graph.nodes[e.toId]) <= e.Cost();
      }
    }
  }

  lemma HonestIsTrusted(graph: Graph, dist: (Node, Node) -> real)
    requires graph.Valid() && StraightLine(dist) && NoShortcut(graph, dist)
    ensures Trusted(graph, dist)
  {
    forall more, start, goal | HonestExtension(more, graph, dist) && Between(more, start, goal)
      ensures FindsCheapest(more, dist, start, goal)
    {
      HonestEverywhere(more, graph, dist);
      HeuristicIsConsistent(more, dist, goal, true);
      var legs := SearchIsRight(more, Heuristic(more, dist, goal, true), start, goal);
    }
  }

  // --------------------------------------------- a start beside a short leg

  lemma {:induction false} LongerThanAll(ids: set<string>) returns (n: nat)
    ensures forall id :: id in ids ==> |id| < n
  {
    if ids == {} {
      n := 0;
    } else {
      var id :| id in ids;
      var m := LongerThanAll(ids - {id});
      n := if |id| < m then m else |id| + 1;
      forall x | x in ids ensures |x| < n {
        if x != id {
          assert x in ids - {id};
        }
      }
    }
  }

  lemma FreshId(ids: set<string>) returns (id: string)
    ensures id !in ids
  {
    var n := LongerThanAll(ids);
    id := seq(n, _ => 'x');
  }

  /** The graph with one node more, beside where `e` leaves, and two honest legs from it. */
  function Beside(graph: Graph, e: Edge, start: string, near: real, far: real): Graph
    requires e.fromId in graph.nodes
  {
    Graph(graph.nodes[start := graph.nodes[e.fromId]],
          graph.edges + [Edge(start, e.fromId, near, []), Edge(start, e.toId, far, [])])
  }

  lemma PlainLeg(e: Edge)
    requires e.weights == []
    ensures e.Cost() == e.lengthM
  {
  }

  lemma ToItself(dist: (Node, Node) -> real, p: Node)
    requires StraightLine(dist)
    ensures dist(p, p) == 0.0
  {
    assert dist(p, p) * dist(p, p) == Squares(p, p) == 0.0;
    SquaresKeepOrder(dist(p, p), 0.0);
  }

  lemma BesideIsHonest(graph: Graph, dist: (Node, Node) -> real, e: Edge, start: string, near: real, far: real)
    requires graph.Valid() && StraightLine(dist) && e in graph.edges && start !in graph.nodes
    requires near > 0.0 && far == dist(graph.nodes[e.fromId], graph.nodes[e.toId]) > 0.0
    ensures var more := Beside(graph, e, start, near, far);
            more.Valid() && Extends(more, graph) && HonestBeyond(more, graph, dist)
  {
    var more := Beside(graph, e, start, near, far);
    var a, b := Edge(start, e.fromId, near, []), Edge(start, e.toId, far, []);
    PlainLeg(a);
    PlainLeg(b);
    ToItself(dist, graph.nodes[e.fromId]);
    forall x | x in more.edges ensures x in graph.edges || x == a || x == b {
    }
    assert more.edges[|graph.edges|] == a && more.edges[|graph.edges| + 1] == b;
  }

  lemma {:induction false} NothingLeaves(edges: seq<Edge>, id: string)
    requires forall e :: e in edges ==> e.fromId != id
    ensures Leaving(edges, id) == []
  {
    if edges != [] {
      NothingLeaves(edges[..|edges| - 1], id);
    }
  }

  /** Its two legs are all that leave the new node, in one order or the other. */
  lemma LeavingBeside(graph: Graph, e: Edge, start: string, near: real, far: real)
    requires graph.Valid() && e in graph.edges && start !in graph.nodes && e.fromId != e.toId
    ensures var a, b := Edge(start, e.fromId, near, []), Edge(start, e.toId, far, []);
            var legs := Adjacent(Beside(graph, e, start, near, far), start);
            legs == [a, b] || legs == [b, a]
  {
    var a, b := Edge(start, e.fromId, near, []), Edge(start, e.toId, far, []);
    var edges := graph.edges + [a, b];
    NothingLeaves(graph.edges, start);
    assert edges[..|edges| - 1] == graph.edges + [a] && (graph.edges + [a])[..|graph.edges|] == graph.edges;
    assert Leaving(graph.edges + [a], start) == [] + [a];
    assert Leaving(edges, start) == [a] + [b];
    assert [a, b][..1] == [a] && [a][..0] == [];
    assert Sort(ByDestination(), [a]) == [a];
    assert Sort(ByDestination(), [a, b]) == Insert(ByDestination(), [a], b);
    assert [a][1..] == [];
  }

  lemma RelaxedTwo(s: Search, h: string -> real, currentG: real, a: Edge, b: Edge)
    ensures RelaxAll(s, h, currentG, [a, b]) == Relax(Relax(s, h, currentG, a), h, currentG, b)
  {
    assert [a, b][..1] == [a] && [a][..0] == [];
    assert RelaxAll(s, h, currentG, [a]) == Relax(s, h, currentG, a);
  }

  /** The start settled and its two legs priced, whichever came first. */
  lemma PricedBeside(h: string -> real, start: string, a: Edge, b: Edge)
    requires a.weights == [] == b.weights && start != a.toId && start != b.toId && a.toId != b.toId
    ensures var left := Search(map[start := 0.0], map[], {start}, []);
            var s := RelaxAll(left, h, 0.0, [a, b]);
            && s.settled == {start} && s.g == map[start := 0.0, a.toId := a.lengthM, b.toId := b.lengthM]
            && s.frontier == [Entry(a.lengthM + h(a.toId), a.lengthM, a.toId), Entry(b.lengthM + h(b.toId), b.lengthM, b.toId)]
  {
    var left := Search(map[start := 0.0], map[], {start}, []);
    PlainLeg(a);
    PlainLeg(b);
    RelaxedTwo(left, h, 0.0, a, b);
  }

  /** Two entries, one of them with the lower estimate: that one is popped. */
  lemma LowerIsPopped(frontier: seq<Entry>, low: Entry, high: Entry)
    requires frontier == [low, high] || frontier == [high, low]
    requires low.f < high.f
    ensures frontier[Least(frontier)] == low
  {
    assert frontier[..1] == [frontier[0]];
    assert Least(frontier[..1]) == 0;
  }

  lemma StartIsSettled(graph: Graph, h: string -> real, start: string, goal: string)
    requires start in graph.nodes && start != goal
    ensures var left := Search(map[start := 0.0], map[], {start}, []);
            RelaxAll(left, h, 0.0, Adjacent(graph, start)).settled == {start}
            && SearchFrom(graph, h, goal, Opening(h, start)) ==
               SearchFrom(graph, h, goal, RelaxAll(left, h, 0.0, Adjacent(graph, start)))
  {
    var left, s := Search(map[start := 0.0], map[], {start}, []), Opening(h, start);
    assert Least(s.frontier) == 0 && Pop(s).(settled := s.settled + {start}) == left;
    RelaxAllSettles(left, h, 0.0, Adjacent(graph, start));
  }

  lemma GoalIsPopped(graph: Graph, h: string -> real, goal: string, s: Search)
    requires s.settled <= graph.nodes.Keys && s.frontier != [] && goal in graph.nodes && goal !in s.settled
    requires s.frontier[Least(s.frontier)].id == goal
    ensures var ended := SearchFrom(graph, h, goal, s);
            ended.Reached? && ended.s.g == s.g
  {
  }

  /** Told the start and the leg's own start are equally far off, the search settles for the straight leg. */
  lemma SettlesBeside(more: Graph, h: string -> real, start: string, a: Edge, b: Edge)
    requires start in more.nodes && b.toId in more.nodes && start != a.toId && start != b.toId && a.toId != b.toId
    requires a.weights == [] == b.weights && a.lengthM > 0.0
    requires Adjacent(more, start) == [a, b] || Adjacent(more, start) == [b, a]
    requires h(a.toId) == b.lengthM && h(b.toId) == 0.0
    ensures var ended := SearchFrom(more, h, b.toId, Opening(h, start));
            ended.Reached? && b.toId in ended.s.g && ended.s.g[b.toId] == b.lengthM
  {
    StartIsSettled(more, h, start, b.toId);
    PricedBeside(h, start, a, b);
    PricedBeside(h, start, b, a);
    var s := RelaxAll(Search(map[start := 0.0], map[], {start}, []), h, 0.0, Adjacent(more, start));
    LowerIsPopped(s.frontier, Entry(b.lengthM + h(b.toId), b.lengthM, b.toId), Entry(a.lengthM + h(a.toId), a.lengthM, a.toId));
    GoalIsPopped(more, h, b.toId, s);
  }

  /** Beside the short leg the search settles for the straight one. */
  lemma SettlesForTheStraightLeg(graph: Graph, dist: (Node, Node) -> real, e: Edge, start: string, near: real, far: real)
    requires graph.Valid() && StraightLine(dist) && e in graph.edges && start !in graph.nodes && e.fromId != e.toId
    requires near > 0.0 && far == dist(graph.nodes[e.fromId], graph.nodes[e.toId]) > 0.0
    ensures var more := Beside(graph, e, start, near, far);
            var h := Heuristic(more, dist, e.toId, true);
            var ended := SearchFrom(more, h, e.toId, Opening(h, start));
            ended.Reached? && e.toId in ended.s.g && ended.s.g[e.toId] == far
  {
    var more := Beside(graph, e, start, near, far);
    ToItself(dist, graph.nodes[e.toId]);
    LeavingBeside(graph, e, start, near, far);
    SettlesBeside(more, Heuristic(more, dist, e.toId, true), start,
                  Edge(start, e.fromId, near, []), Edge(start, e.toId, far, []));
  }

  /** Though there is a cheaper way: to the short leg, and along it. */
  lemma ShortLegIsCheaper(graph: Graph, e: Edge, start: string, near: real, far: real)
    requires graph.Valid() && e in graph.edges && start !in graph.nodes
    ensures var more := Beside(graph, e, start, near, far);
            var w := [Edge(start, e.fromId, near, []), e];
            Walk(more, w, start, e.toId) && CostOf(w) == near + e.Cost()
  {
    var more, a := Beside(graph, e, start, near, far), Edge(start, e.fromId, near, []);
    var w := [a, e];
    assert more.edges[|graph.edges|] == a;
    PlainLeg(a);
    assert w[..1] == [a] && [a][..0] == [];
    assert Walk(more, [a], start, e.fromId) && CostOf([a]) == near;
  }

  lemma ShortLegIsNotTrusted(graph: Graph, dist: (Node, Node) -> real, e: Edge)
    requires graph.Valid() && StraightLine(dist) && e in graph.edges
    requires e.Cost() < dist(graph.nodes[e.fromId], graph.nodes[e.toId])
    ensures !Trusted(graph, dist)
  {
    var far := dist(graph.nodes[e.fromId], graph.nodes[e.toId]);
    var near := (far - e.Cost()) / 2.0;
    CostAtLeastLength(e);
    ToItself(dist, graph.nodes[e.fromId]);
    var start := FreshId(graph.nodes.Keys);
    var more := Beside(graph, e, start, near, far);
    BesideIsHonest(graph, dist, e, start, near, far);
    SettlesForTheStraightLeg(graph, dist, e, start, near, far);
    ShortLegIsCheaper(graph, e, start, near, far);
    assert HonestExtension(more, graph, dist) && Between(more, start, e.toId);
    assert !FindsCheapest(more, dist, start, e.toId);
  }

  /**
   The search with the heuristic finds the cheapest route, on this graph and on
   whatever honest legs add to it, exactly when none of its own legs undercuts the
   straight line across it.
  */
  lemma TrustedExactly(graph: Graph, dist: (Node, Node) -> real)
    requires graph.Valid() && StraightLine(dist)
    ensures Trusted(graph, dist) <==> NoShortcut(graph, dist)
  {
    if NoShortcut(graph, dist) {
      HonestIsTrusted(graph, dist);
    } else {
      var e :| e in graph.edges && e.Cost() < dist(graph.nodes[e.fromId], graph.nodes[e.toId]);
      ShortLegIsNotTrusted(graph, dist, e);
    }
  }
}
