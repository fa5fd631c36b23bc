/**
 The entry route: A* over a weighted graph, with the straight line to the goal as
 its heuristic. The search is a function of the graph; the method is its loop.
*/
module Pathfinding {
  import opened Sorting
  import Strings

  /** Ceiling on how many nodes one search may expand. */
  const MAX_EXPANSIONS := 20_000

  datatype Node = Node(x: real, y: real, z: real)

  /** A leg: real metres, and the risk weights it is travelled under. */
  datatype Edge = Edge(fromId: string, toId: string, lengthM: real, weights: seq<real>) {
    function Cost(): real { lengthM * (1.0 + Sum(weights)) }

    predicate Valid() {
      lengthM > 0.0 && forall i :: 0 <= i < |weights| ==> weights[i] >= 0.0
    }
  }

  datatype Graph = Graph(nodes: map<string, Node>, edges: seq<Edge>) {
    predicate Valid() {
      forall e :: e in edges ==> e.Valid() && e.fromId in nodes && e.toId in nodes
    }
  }

  function Sum(ws: seq<real>): real {
    if ws == [] then 0.0 else Sum(ws[..|ws| - 1]) + ws[|ws| - 1]
  }

  lemma {:induction false} SumNotNegative(ws: seq<real>)
    requires forall i :: 0 <= i < |ws| ==> ws[i] >= 0.0
    ensures Sum(ws) >= 0.0
  {
    if ws != [] { SumNotNegative(ws[..|ws| - 1]); }
  }

  /** The multiplier is never below one, so no leg costs less than its length. */
  lemma CostAtLeastLength(e: Edge)
    requires e.Valid()
    ensures e.Cost() >= e.lengthM > 0.0
  {
    SumNotNegative(e.weights);
    assert e.lengthM * Sum(e.weights) >= 0.0;
    assert e.lengthM * (1.0 + Sum(e.weights)) == e.lengthM + e.lengthM * Sum(e.weights);
  }

  /** A bare leg costs its length, and each weight on it that share of its length more. */
  lemma CostByWeights(e: Edge, w: real)
    ensures e.(weights := []).Cost() == e.lengthM
    ensures e.(weights := e.weights + [w]).Cost() == e.Cost() + e.lengthM * w
  {
    assert (e.weights + [w])[..|e.weights|] == e.weights;
    var sum := Sum(e.weights);
    assert e.lengthM * (1.0 + (sum + w)) == e.lengthM * (1.0 + sum) + e.lengthM * w;
  }

  // ------------------------------------------------------------------- walks

  predicate Walk(graph: Graph, legs: seq<Edge>, start: string, end: string) {
    if legs == [] then start == end
    else
      var last := legs[|legs| - 1];
      last in graph.edges && last.toId == end && Walk(graph, legs[..|legs| - 1], start, last.fromId)
  }

  function CostOf(legs: seq<Edge>): real {
    if legs == [] then 0.0 else CostOf(legs[..|legs| - 1]) + legs[|legs| - 1].Cost()
  }

  function DistanceOf(legs: seq<Edge>): real {
    if legs == [] then 0.0 else DistanceOf(legs[..|legs| - 1]) + legs[|legs| - 1].lengthM
  }

  /** Cost and ground covered are those of the legs, added up. */
  lemma TotalsAdd(legs: seq<Edge>, e: Edge)
    ensures CostOf([]) == 0.0 && CostOf(legs + [e]) == CostOf(legs) + e.Cost()
    ensures DistanceOf([]) == 0.0 && DistanceOf(legs + [e]) == DistanceOf(legs) + e.lengthM
  {
    assert (legs + [e])[..|legs|] == legs;
  }

  // ------------------------------------------------------------ the heuristic

  /** Straight-line distance: the non-negative root of the sum of squares. */
  ghost predicate StraightLine(dist: (Node, Node) -> real) {
    forall p, q :: dist(p, q) >= 0.0 && dist(p, q) * dist(p, q) == Squares(p, q)
  }

  function Squares(p: Node, q: Node): real {
    (p.x - q.x) * (p.x - q.x) + (p.y - q.y) * (p.y - q.y) + (p.z - q.z) * (p.z - q.z)
  }

  function Heuristic(graph: Graph, dist: (Node, Node) -> real, goal: string, useHeuristic: bool): string -> real
    requires goal in graph.nodes
  {
    (id: string) => if useHeuristic && id in graph.nodes then dist(graph.nodes[id], graph.nodes[goal]) else 0.0
  }

  /** No leg is cheaper than the straight line across it. */
  ghost predicate NoShortcut(graph: Graph, dist: (Node, Node) -> real)
    requires graph.Valid()
  {
    forall e :: e in graph.edges ==> dist(graph.nodes[e.fromId], graph.nodes[e.toId]) <= e.Cost()
  }

  /** The bound edge by edge that makes a settled node final. */
  ghost predicate Consistent(graph: Graph, h: string -> real) {
    forall e :: e in graph.edges ==> h(e.fromId) <= e.Cost() + h(e.toId)
  }

  /** On non-negative numbers, squares keep the order. */
  lemma SquaresKeepOrder(x: real, y: real)
    requires x >= 0.0 && y >= 0.0
    ensures x <= y <==> x * x <= y * y
  {
    assert y * y - x * x == (y - x) * (y + x);
    if x <= y {
      assert (y - x) * (y + x) >= 0.0;
    } else {
      var gap, sum := x - y, x + y;
      assert gap > 0.0 && sum > 0.0;
      assert gap * sum > 0.0;
      assert (y - x) * (y + x) == -(gap * sum);
    }
  }

  function Inner(u: Node, v: Node): real {
    u.x * v.x + u.y * v.y + u.z * v.z
  }

  /** Lagrange's identity, and with it the inequality of Cauchy and Schwarz. */
  lemma InnerSquared(u: Node, v: Node)
    ensures Inner(u, v) * Inner(u, v) <= Inner(u, u) * Inner(v, v)
  {
    ProductOfSums(u.x * u.x, u.y * u.y, u.z * u.z, v.x * v.x, v.y * v.y, v.z * v.z);
    ProductOfSums(u.x * v.x, u.y * v.y, u.z * v.z, u.x * v.x, u.y * v.y, u.z * v.z);
    ProductSquared(u.x, v.x);
    ProductSquared(u.y, v.y);
    ProductSquared(u.z, v.z);
    DifferenceSquared(u.x, u.y, v.x, v.y);
    DifferenceSquared(u.y, u.z, v.y, v.z);
    DifferenceSquared(u.z, u.x, v.z, v.x);
  }

  lemma ProductOfSums(a: real, b: real, c: real, d: real, e: real, f: real)
    ensures (a + b + c) * (d + e + f) == a * d + a * e + a * f + b * d + b * e + b * f + c * d + c * e + c * f
  {
  }

  lemma ProductSquared(a: real, c: real)
    ensures (a * c) * (a * c) == (a * a) * (c * c)
  {
  }

  lemma DifferenceSquared(a: real, b: real, c: real, d: real)
    ensures 0.0 <= (a * a) * (d * d) + (b * b) * (c * c) - 2.0 * ((a * c) * (b * d))
  {
    var gap := a * d - b * c;
    assert gap * gap == (a * d) * (a * d) + (b * c) * (b * c) - 2.0 * ((a * d) * (b * c));
    ProductSquared(a, d);
    ProductSquared(b, c);
    assert (a * d) * (b * c) == (a * c) * (b * d);
    assert gap * gap >= 0.0;
  }

  lemma InnerBelowProduct(u: Node, v: Node, a: real, b: real)
    requires a >= 0.0 && b >= 0.0 && a * a == Inner(u, u) && b * b == Inner(v, v)
    ensures Inner(u, v) <= a * b
  {
    InnerSquared(u, v);
    assert (a * b) * (a * b) == (a * a) * (b * b);
    if Inner(u, v) >= 0.0 {
      SquaresKeepOrder(Inner(u, v), a * b);
    }
  }

  lemma SumSquared(u: Node, v: Node)
    ensures var w := Node(u.x + v.x, u.y + v.y, u.z + v.z);
      Inner(w, w) == Inner(u, u) + Inner(v, v) + 2.0 * Inner(u, v)
  {
  }

  lemma RootBelowSum(a: real, b: real, c: real, d: real)
    requires a >= 0.0 && b >= 0.0 && c >= 0.0 && c * c == a * a + b * b + 2.0 * d && d <= a * b
    ensures c <= a + b
  {
    assert (a + b) * (a + b) == a * a + b * b + 2.0 * (a * b);
    SquaresKeepOrder(c, a + b);
  }

  lemma TriangleInequality(dist: (Node, Node) -> real, p: Node, q: Node, r: Node)
    requires StraightLine(dist)
    ensures dist(p, r) <= dist(p, q) + dist(q, r)
  {
    var u, v, w := Difference(p, q), Difference(q, r), Difference(p, r);
    SquaresOfDifference(p, q);
    SquaresOfDifference(q, r);
    SquaresOfDifference(p, r);
    assert w == Node(u.x + v.x, u.y + v.y, u.z + v.z);
    LengthsAdd(u, v, w, dist(p, q), dist(q, r), dist(p, r));
  }

  function Difference(p: Node, q: Node): Node {
    Node(p.x - q.x, p.y - q.y, p.z - q.z)
  }

  lemma SquaresOfDifference(p: Node, q: Node)
    ensures Squares(p, q) == Inner(Difference(p, q), Difference(p, q))
  {
  }

  lemma LengthsAdd(u: Node, v: Node, w: Node, a: real, b: real, c: real)
    requires w == Node(u.x + v.x, u.y + v.y, u.z + v.z) && a >= 0.0 && b >= 0.0 && c >= 0.0
    requires a * a == Inner(u, u) && b * b == Inner(v, v) && c * c == Inner(w, w)
    ensures c <= a + b
  {
    SumSquared(u, v);
    InnerBelowProduct(u, v, a, b);
    RootBelowSum(a, b, c, Inner(u, v));
  }

  /** The straight line is consistent as soon as no leg undercuts it; zero always is. */
  lemma HeuristicIsConsistent(graph: Graph, dist: (Node, Node) -> real, goal: string, useHeuristic: bool)
    requires graph.Valid() && goal in graph.nodes
    requires useHeuristic ==> StraightLine(dist) && NoShortcut(graph, dist)
    ensures Consistent(graph, Heuristic(graph, dist, goal, useHeuristic))
  {
    var h := Heuristic(graph, dist, goal, useHeuristic);
    forall e | e in graph.edges ensures h(e.fromId) <= e.Cost() + h(e.toId) {
      CostAtLeastLength(e);
      if useHeuristic {
        TriangleInequality(dist, graph.nodes[e.fromId], graph.nodes[e.toId], graph.nodes[goal]);
      }
    }
  }

  /** And no sooner: the straight line is consistent whatever the goal exactly when no leg undercuts it. */
  lemma ConsistentForEveryGoalExactly(graph: Graph, dist: (Node, Node) -> real)
    requires graph.Valid() && StraightLine(dist)
    ensures (forall goal :: goal in graph.nodes ==> Consistent(graph, Heuristic(graph, dist, goal, true))) <==>
            NoShortcut(graph, dist)
  {
    if NoShortcut(graph, dist) {
      forall goal | goal in graph.nodes ensures Consistent(graph, Heuristic(graph, dist, goal, true)) {
        HeuristicIsConsistent(graph, dist, goal, true);
      }
    } else {
      var e :| e in graph.edges && e.Cost() < dist(graph.nodes[e.fromId], graph.nodes[e.toId]);
      var end := graph.nodes[e.toId];
      assert Squares(end, end) == 0.0;
      assert dist(end, end) * dist(end, end) == 0.0;
      SquaresKeepOrder(dist(end, end), 0.0);
      var h := Heuristic(graph, dist, e.toId, true);
      assert h(e.fromId) > e.Cost() + h(e.toId);
      assert !Consistent(graph, h);
    }
  }

  // --------------------------------------------------------------- the search

  /** A frontier entry: `(f, g, node_id)`, the order the heap pops them in. */
  datatype Entry = Entry(f: real, g: real, id: string)

  predicate Before(a: Entry, b: Entry) {
    || a.f < b.f
    || (a.f == b.f && a.g < b.g)
    || (a.f == b.f && a.g == b.g && Strings.Less(a.id, b.id))
  }

  /** The position the heap pops: no entry comes before it. */
  function Least(frontier: seq<Entry>): (i: nat)
    requires frontier != []
    ensures i < |frontier|
  {
    if |frontier| == 1 then 0
    else
      var i := Least(frontier[..|frontier| - 1]);
      if Before(frontier[|frontier| - 1], frontier[i]) then |frontier| - 1 else i
  }

  lemma {:induction false} LeastIsLowest(frontier: seq<Entry>)
    requires frontier != []
    ensures forall k :: 0 <= k < |frontier| ==> frontier[Least(frontier)].f <= frontier[k].f
  {
    if |frontier| > 1 {
      LeastIsLowest(frontier[..|frontier| - 1]);
    }
  }

  /** Of two entries with one estimate the one that has covered less ground is popped. */
  lemma LessGroundIsPopped(near: Entry, far: Entry)
    requires near.f == far.f && near.g < far.g
    ensures [near, far][Least([near, far])] == near == [far, near][Least([far, near])]
  {
    assert [near, far][..1] == [near] && [far, near][..1] == [far];
  }

  datatype Search = Search(
    g: map<string, real>, cameFrom: map<string, Edge>, settled: set<string>, frontier: seq<Entry>)

  function ByDestination(): (Edge, Edge) -> bool {
    (a: Edge, b: Edge) => Strings.Less(a.toId, b.toId)
  }

  function Leaving(edges: seq<Edge>, id: string): seq<Edge> {
    if edges == [] then []
    else
      var before, last := Leaving(edges[..|edges| - 1], id), edges[|edges| - 1];
      if last.fromId == id then before + [last] else before
  }

  /** Outgoing legs, sorted by destination. */
  function Adjacent(graph: Graph, id: string): seq<Edge> {
    Sort(ByDestination(), Leaving(graph.edges, id))
  }

  /** A leg priced at `tentative` counts only as a strict improvement: an equal one keeps the first predecessor. */
  function RelaxTo(s: Search, h: string -> real, tentative: real, e: Edge): Search {
    if e.toId in s.settled || (e.toId in s.g && tentative >= s.g[e.toId]) then s
    else s.(g := s.g[e.toId := tentative], cameFrom := s.cameFrom[e.toId := e],
            frontier := s.frontier + [Entry(tentative + h(e.toId), tentative, e.toId)])
  }

  function Relax(s: Search, h: string -> real, currentG: real, e: Edge): Search {
    RelaxTo(s, h, currentG + e.Cost(), e)
  }

  function RelaxAll(s: Search, h: string -> real, currentG: real, edges: seq<Edge>): Search {
    if edges == [] then s
    else Relax(RelaxAll(s, h, currentG, edges[..|edges| - 1]), h, currentG, edges[|edges| - 1])
  }

  lemma {:induction false} RelaxAllSettles(s: Search, h: string -> real, currentG: real, edges: seq<Edge>)
    ensures RelaxAll(s, h, currentG, edges).settled == s.settled
  {
    if edges != [] { RelaxAllSettles(s, h, currentG, edges[..|edges| - 1]); }
  }

  function Pop(s: Search): Search
    requires s.frontier != []
  {
    var i := Least(s.frontier);
    s.(frontier := s.frontier[..i] + s.frontier[i + 1..])
  }

  datatype Ended = Reached(s: Search) | Exhausted(s: Search) | Ceiling(s: Search)

  /** Whether the popped id is new, and a node: an id the graph does not hold ends the search. */
  function SearchFrom(graph: Graph, h: string -> real, goal: string, s: Search): Ended
    requires s.settled <= graph.nodes.Keys
    decreases |graph.nodes.Keys - s.settled|, |s.frontier|
  {
    if s.frontier == [] then Exhausted(s)
    else
      var top := s.frontier[Least(s.frontier)];
      var popped := Pop(s);
      if top.id in s.settled || top.id !in graph.nodes then SearchFrom(graph, h, goal, popped)
      else
        var settled := popped.(settled := s.settled + {top.id});
        assert graph.nodes.Keys - s.settled == (graph.nodes.Keys - settled.settled) + {top.id};
        if top.id == goal then Reached(settled)
        else if |settled.settled| > MAX_EXPANSIONS then Ceiling(settled)
        else
          RelaxAllSettles(settled, h, top.g, Adjacent(graph, top.id));
          SearchFrom(graph, h, goal, RelaxAll(settled, h, top.g, Adjacent(graph, top.id)))
  }

  function Opening(h: string -> real, start: string): Search {
    Search(map[start := 0.0], map[], {}, [Entry(h(start), 0.0, start)])
  }

  // ------------------------------------------------------- what the loop keeps

  type Paths = map<string, seq<Edge>>

  ghost predicate Walked(graph: Graph, start: string, g: map<string, real>, paths: Paths)
    requires g.Keys == paths.Keys
  {
    forall id :: id in g ==> Walk(graph, paths[id], start, id) && CostOf(paths[id]) == g[id]
  }

  ghost predicate LastLegs(start: string, scored: set<string>, cameFrom: map<string, Edge>, settled: set<string>, paths: Paths)
    requires settled <= scored == paths.Keys
  {
    forall id {:trigger LastLeg(cameFrom, settled, paths, id)} ::
      id in scored && id != start ==> LastLeg(cameFrom, settled, paths, id)
  }

  predicate LastLeg(cameFrom: map<string, Edge>, settled: set<string>, paths: Paths, id: string) {
    && id in cameFrom && cameFrom[id].fromId in settled
    && id in paths && cameFrom[id].fromId in paths
    && paths[id] == paths[cameFrom[id].fromId] + [cameFrom[id]]
  }

  /** Every score is the cost of a walk, whose last leg comes from a settled node. */
  ghost predicate Scored(graph: Graph, start: string, s: Search, paths: Paths) {
    && start in s.g && s.g[start] == 0.0 && start in paths && paths[start] == []
    && s.g.Keys == paths.Keys && s.settled <= s.g.Keys <= graph.nodes.Keys
    && Walked(graph, start, s.g, paths)
    && LastLegs(start, s.g.Keys, s.cameFrom, s.settled, paths)
  }

  /** The frontier holds every unsettled score, and nothing better than a score. */
  ghost predicate Fringed(h: string -> real, s: Search) {
    && (forall e :: e in s.frontier ==> Listed(s, h, e))
    && (forall id :: id in s.g && id !in s.settled ==> EntryOf(s, h, id) in s.frontier)
  }

  function EntryOf(s: Search, h: string -> real, id: string): Entry
    requires id in s.g
  {
    Entry(s.g[id] + h(id), s.g[id], id)
  }

  ghost predicate Sound(graph: Graph, h: string -> real, start: string, s: Search, paths: Paths) {
    Scored(graph, start, s, paths) && Fringed(h, s)
  }

  predicate Listed(s: Search, h: string -> real, e: Entry) {
    e.id in s.g && e.g >= s.g[e.id] && e.f == e.g + h(e.id)
  }

  /** A settled score is the least any walk can have. */
  ghost predicate Optimal(graph: Graph, start: string, s: Search) {
    forall id, w :: id in s.settled && id in s.g && Walk(graph, w, start, id) ==> s.g[id] <= CostOf(w)
  }

  /** Every leg out of a settled node has been priced. */
  ghost predicate Relaxed(graph: Graph, s: Search) {
    forall u, e :: u in s.settled && u in s.g && e in graph.edges && e.fromId == u ==>
      e.toId in s.g && s.g[e.toId] <= s.g[u] + e.Cost()
  }

  /** Every leg out of a settled node leads to a node with a score. */
  ghost predicate Covered(graph: Graph, s: Search) {
    forall u, e :: u in s.settled && e in graph.edges && e.fromId == u ==> e.toId in s.g
  }

  /** What a consistent heuristic adds: settled scores are least, and legs out of them priced. */
  ghost predicate Final(graph: Graph, h: string -> real, start: string, s: Search) {
    Consistent(graph, h) ==> Optimal(graph, start, s) && Relaxed(graph, s)
  }

  lemma {:induction false} LeavingMembers(edges: seq<Edge>, id: string, e: Edge)
    ensures e in Leaving(edges, id) <==> e in edges && e.fromId == id
  {
    if edges != [] {
      var front := edges[..|edges| - 1];
      assert edges == front + [edges[|edges| - 1]];
      LeavingMembers(front, id, e);
    }
  }

  lemma AdjacentMembers(graph: Graph, id: string, e: Edge)
    ensures e in Adjacent(graph, id) <==> e in graph.edges && e.fromId == id
  {
    SortKeeps(ByDestination(), Leaving(graph.edges, id));
    LeavingMembers(graph.edges, id, e);
  }

  lemma {:induction false} HeuristicAlongWalk(graph: Graph, h: string -> real, w: seq<Edge>, start: string, end: string)
    requires Consistent(graph, h) && Walk(graph, w, start, end)
    ensures h(start) <= CostOf(w) + h(end)
  {
    if w != [] {
      HeuristicAlongWalk(graph, h, w[..|w| - 1], start, w[|w| - 1].fromId);
    }
  }

  /** Where a walk leaves the settled region it meets the frontier, no later than it costs. */
  lemma {:induction false} WalkMeetsFrontier(graph: Graph, h: string -> real, start: string, s: Search, paths: Paths,
                                             w: seq<Edge>, end: string) returns (v: string, rest: real)
    requires Sound(graph, h, start, s, paths) && Optimal(graph, start, s) && Relaxed(graph, s)
    requires Consistent(graph, h) && Walk(graph, w, start, end) && end !in s.settled
    ensures v in s.g && v !in s.settled
    ensures s.g[v] + rest <= CostOf(w) && h(v) <= rest + h(end)
    ensures graph.Valid() ==> rest >= 0.0
  {
    if w == [] {
      v, rest := start, 0.0;
    } else {
      var last := w[|w| - 1];
      if last.fromId in s.settled {
        v, rest := end, 0.0;
      } else {
        var sofar;
        v, sofar := WalkMeetsFrontier(graph, h, start, s, paths, w[..|w| - 1], last.fromId);
        rest := sofar + last.Cost();
        if graph.Valid() {
          CostAtLeastLength(last);
        }
      }
    }
  }

  /** The entry popped for a new node carries its score. */
  lemma PoppedIsScore(h: string -> real, s: Search)
    requires Fringed(h, s) && s.frontier != []
    ensures var top := s.frontier[Least(s.frontier)];
      && top.id in s.g
      && (top.id !in s.settled ==> top == EntryOf(s, h, top.id))
      && forall v :: v in s.g && v !in s.settled ==> top.f <= s.g[v] + h(v)
  {
    LeastIsLowest(s.frontier);
    var top := s.frontier[Least(s.frontier)];
    assert top in s.frontier && Listed(s, h, top);
    forall v | v in s.g && v !in s.settled ensures top.f <= s.g[v] + h(v) {
      assert EntryOf(s, h, v) in s.frontier;
    }
  }

  /** And that score is final. */
  lemma PoppedIsFinal(graph: Graph, h: string -> real, start: string, s: Search, paths: Paths, w: seq<Edge>)
    requires Sound(graph, h, start, s, paths) && Optimal(graph, start, s) && Relaxed(graph, s)
    requires Consistent(graph, h) && s.frontier != []
    requires s.frontier[Least(s.frontier)].id !in s.settled
    requires Walk(graph, w, start, s.frontier[Least(s.frontier)].id)
    ensures s.frontier[Least(s.frontier)].g <= CostOf(w)
  {
    var top := s.frontier[Least(s.frontier)];
    PoppedIsScore(h, s);
    var v, rest := WalkMeetsFrontier(graph, h, start, s, paths, w, top.id);
    assert top.f <= s.g[v] + h(v);
  }

  lemma PopMembers(s: Search)
    requires s.frontier != []
    ensures forall e :: e in Pop(s).frontier ==> e in s.frontier
    ensures forall e :: e in s.frontier && e != s.frontier[Least(s.frontier)] ==> e in Pop(s).frontier
  {
    var i := Least(s.frontier);
    assert s.frontier == s.frontier[..i] + [s.frontier[i]] + s.frontier[i + 1..];
  }

  /** Popping loses nothing once the popped node is settled. */
  lemma PopKeeps(h: string -> real, s: Search)
    requires Fringed(h, s) && s.frontier != []
    ensures Fringed(h, Pop(s).(settled := s.settled + {s.frontier[Least(s.frontier)].id}))
  {
    PopMembers(s);
    var top := s.frontier[Least(s.frontier)];
    var t := Pop(s).(settled := s.settled + {top.id});
    forall e | e in t.frontier ensures Listed(t, h, e) {
      assert Listed(s, h, e);
    }
    forall id | id in t.g && id !in t.settled ensures EntryOf(t, h, id) in t.frontier {
      assert EntryOf(s, h, id) in s.frontier;
    }
  }

  lemma WalkExtended(graph: Graph, w: seq<Edge>, start: string, e: Edge)
    requires Walk(graph, w, start, e.fromId) && e in graph.edges
    ensures Walk(graph, w + [e], start, e.toId) && CostOf(w + [e]) == CostOf(w) + e.Cost()
  {
    assert (w + [e])[..|w|] == w;
  }

  lemma {:induction false} CostNotNegative(graph: Graph, w: seq<Edge>, start: string, end: string)
    requires graph.Valid() && Walk(graph, w, start, end)
    ensures CostOf(w) >= 0.0
  {
    if w != [] {
      CostNotNegative(graph, w[..|w| - 1], start, w[|w| - 1].fromId);
      CostAtLeastLength(w[|w| - 1]);
    }
  }

  lemma RelaxKeepsFringe(h: string -> real, s: Search, currentG: real, e: Edge)
    requires Fringed(h, s)
    ensures Fringed(h, Relax(s, h, currentG, e))
  {
    var t := Relax(s, h, currentG, e);
    if t.frontier != s.frontier {
      assert t.frontier == s.frontier + [EntryOf(t, h, e.toId)];
      forall x | x in t.frontier ensures Listed(t, h, x) {
        if x in s.frontier {
          assert Listed(s, h, x);
        }
      }
      forall id | id in t.g && id !in t.settled ensures EntryOf(t, h, id) in t.frontier {
        if id == e.toId {
          assert t.frontier[|s.frontier|] == EntryOf(t, h, id);
        } else {
          assert EntryOf(s, h, id) in s.frontier;
        }
      }
    }
  }

  /** Scores only fall, and a settled one not at all. */
  predicate Improves(s: Search, t: Search) {
    && s.settled == t.settled && s.g.Keys <= t.g.Keys
    && (forall id :: id in s.g ==> t.g[id] <= s.g[id])
    && (forall id :: id in s.settled && id in s.g ==> t.g[id] == s.g[id])
  }

  lemma RelaxKeeps(graph: Graph, h: string -> real, start: string, s: Search, paths: Paths, e: Edge)
    returns (paths': Paths)
    requires graph.Valid() && Scored(graph, start, s, paths)
    requires e in graph.edges && e.fromId in s.settled
    ensures Scored(graph, start, Relax(s, h, s.g[e.fromId], e), paths')
  {
    ExtendedCost(graph, start, s, paths, e);
    paths' := RelaxToKeeps(graph, h, start, s, paths, e, s.g[e.fromId] + e.Cost());
  }

  lemma RelaxImproves(h: string -> real, s: Search, currentG: real, e: Edge)
    requires s.settled <= s.g.Keys
    ensures var t := Relax(s, h, currentG, e);
            && Improves(s, t) && e.toId in t.g
            && (e.toId !in s.settled ==> t.g[e.toId] <= currentG + e.Cost())
  {
  }

  lemma RelaxToKeeps(graph: Graph, h: string -> real, start: string, s: Search, paths: Paths, e: Edge, cost: real)
    returns (paths': Paths)
    requires Scored(graph, start, s, paths) && e.fromId in s.settled && e.toId in graph.nodes
    requires Walk(graph, paths[e.fromId] + [e], start, e.toId) && CostOf(paths[e.fromId] + [e]) == cost >= 0.0
    ensures Scored(graph, start, RelaxTo(s, h, cost, e), paths')
  {
    if e.toId in s.settled || (e.toId in s.g && cost >= s.g[e.toId]) {
      paths' := paths;
    } else {
      paths' := paths[e.toId := paths[e.fromId] + [e]];
      assert e.toId != start;
      BetterWalks(graph, start, s, paths, e, cost);
      BetterLegs(start, s, paths, e);
      assert s.g[e.toId := cost].Keys == s.g.Keys + {e.toId};
    }
  }

  lemma ExtendedCost(graph: Graph, start: string, s: Search, paths: Paths, e: Edge)
    requires graph.Valid() && Scored(graph, start, s, paths)
    requires e in graph.edges && e.fromId in s.settled
    ensures Walk(graph, paths[e.fromId] + [e], start, e.toId)
    ensures CostOf(paths[e.fromId] + [e]) == s.g[e.fromId] + e.Cost() >= 0.0
  {
    WalkExtended(graph, paths[e.fromId], start, e);
    CostNotNegative(graph, paths[e.fromId] + [e], start, e.toId);
  }

  /** A better walk to a node replaces its score, and no other. */
  lemma BetterWalks(graph: Graph, start: string, s: Search, paths: Paths, e: Edge, cost: real)
    requires s.g.Keys == paths.Keys && e.fromId in paths
    requires Walked(graph, start, s.g, paths)
    requires Walk(graph, paths[e.fromId] + [e], start, e.toId) && CostOf(paths[e.fromId] + [e]) == cost
    ensures Walked(graph, start, s.g[e.toId := cost], paths[e.toId := paths[e.fromId] + [e]])
  {
  }

  lemma BetterLegs(start: string, s: Search, paths: Paths, e: Edge)
    requires s.settled <= s.g.Keys == paths.Keys && LastLegs(start, s.g.Keys, s.cameFrom, s.settled, paths)
    requires e.fromId in s.settled && e.toId !in s.settled
    ensures LastLegs(start, s.g.Keys + {e.toId}, s.cameFrom[e.toId := e], s.settled, paths[e.toId := paths[e.fromId] + [e]])
  {
    forall id | id in s.g.Keys + {e.toId} && id != start
      ensures LastLeg(s.cameFrom[e.toId := e], s.settled, paths[e.toId := paths[e.fromId] + [e]], id)
    {
      assert id != e.toId ==> LastLeg(s.cameFrom, s.settled, paths, id);
    }
  }

  lemma {:induction false} RelaxAllKeeps(graph: Graph, h: string -> real, start: string, s: Search, paths: Paths,
                                         u: string, edges: seq<Edge>) returns (paths': Paths)
    requires graph.Valid() && Sound(graph, h, start, s, paths) && u in s.settled
    requires forall e :: e in edges ==> e in graph.edges && e.fromId == u
    ensures var t := RelaxAll(s, h, s.g[u], edges);
      && Sound(graph, h, start, t, paths') && Improves(s, t)
      && (forall e :: e in edges ==> e.toId in t.g && (e.toId !in s.settled ==> t.g[e.toId] <= s.g[u] + e.Cost()))
  {
    if edges == [] {
      paths' := paths;
    } else {
      var front, last := edges[..|edges| - 1], edges[|edges| - 1];
      assert edges == front + [last];
      paths' := RelaxAllKeeps(graph, h, start, s, paths, u, front);
      var mid := RelaxAll(s, h, s.g[u], front);
      RelaxKeepsFringe(h, mid, s.g[u], last);
      RelaxImproves(h, mid, s.g[u], last);
      paths' := RelaxKeeps(graph, h, start, mid, paths', last);
      ImprovesOnceMore(s, mid, RelaxAll(s, h, s.g[u], edges), s.g[u], front, last);
    }
  }

  lemma ImprovesOnceMore(s: Search, mid: Search, t: Search, currentG: real, front: seq<Edge>, last: Edge)
    requires s.settled <= s.g.Keys && Improves(s, mid) && Improves(mid, t)
    requires forall e :: e in front ==> e.toId in mid.g && (e.toId !in s.settled ==> mid.g[e.toId] <= currentG + e.Cost())
    requires last.toId in t.g && (last.toId !in s.settled ==> t.g[last.toId] <= currentG + last.Cost())
    ensures Improves(s, t)
    ensures forall e :: e in front + [last] ==> e.toId in t.g && (e.toId !in s.settled ==> t.g[e.toId] <= currentG + e.Cost())
  {
  }

  /** Settling the popped node keeps the scores, and with a consistent heuristic keeps them least. */
  lemma SettleKeeps(graph: Graph, h: string -> real, start: string, s: Search, paths: Paths)
    requires s.frontier != [] && s.frontier[Least(s.frontier)].id !in s.settled
    requires Sound(graph, h, start, s, paths) && Final(graph, h, start, s)
    ensures var top := s.frontier[Least(s.frontier)];
      var settled := Pop(s).(settled := s.settled + {top.id});
      && top.id in s.g && s.g[top.id] == top.g
      && Sound(graph, h, start, settled, paths)
      && (Consistent(graph, h) ==> Optimal(graph, start, settled))
  {
    var top := s.frontier[Least(s.frontier)];
    var settled := Pop(s).(settled := s.settled + {top.id});
    PoppedIsScore(h, s);
    PopKeeps(h, s);
    forall id | id in s.g && id != start ensures LastLeg(settled.cameFrom, settled.settled, paths, id) {
      assert LastLeg(s.cameFrom, s.settled, paths, id);
    }
    assert Scored(graph, start, settled, paths);
    forall id, w | Consistent(graph, h) && id in settled.settled && id in settled.g && Walk(graph, w, start, id)
      ensures settled.g[id] <= CostOf(w)
    {
      if id == top.id {
        PoppedIsFinal(graph, h, start, s, paths, w);
      }
    }
  }

  /** One expansion: the popped node is settled for good and its legs are priced. */
  lemma ExpandKeeps(graph: Graph, h: string -> real, start: string, s: Search, paths: Paths)
    returns (paths': Paths)
    requires graph.Valid() && s.frontier != [] && s.frontier[Least(s.frontier)].id !in s.settled
    requires Sound(graph, h, start, s, paths) && Covered(graph, s) && Final(graph, h, start, s)
    ensures var top := s.frontier[Least(s.frontier)];
      var settled := Pop(s).(settled := s.settled + {top.id});
      var t := RelaxAll(settled, h, top.g, Adjacent(graph, top.id));
      && Sound(graph, h, start, settled, paths) && (Consistent(graph, h) ==> Optimal(graph, start, settled))
      && Sound(graph, h, start, t, paths') && Covered(graph, t) && Final(graph, h, start, t)
  {
    var top := s.frontier[Least(s.frontier)];
    var settled := Pop(s).(settled := s.settled + {top.id});
    SettleKeeps(graph, h, start, s, paths);
    forall e | e in Adjacent(graph, top.id) ensures e in graph.edges && e.fromId == top.id {
      AdjacentMembers(graph, top.id, e);
    }
    paths' := RelaxAllKeeps(graph, h, start, settled, paths, top.id, Adjacent(graph, top.id));
    var t := RelaxAll(settled, h, top.g, Adjacent(graph, top.id));
    ExpandKeepsCovered(graph, s, settled, t, top.id);
    if Consistent(graph, h) {
      ImprovesKeepsOptimal(graph, start, settled, t);
      ExpandKeepsRelaxed(graph, start, s, settled, t, top.id, paths);
    }
  }

  lemma ExpandKeepsCovered(graph: Graph, s: Search, settled: Search, t: Search, u: string)
    requires Covered(graph, s) && s.g == settled.g && settled.settled == s.settled + {u}
    requires Improves(settled, t) && forall e :: e in Adjacent(graph, u) ==> e.toId in t.g
    ensures Covered(graph, t)
  {
    forall x, e | x in t.settled && e in graph.edges && e.fromId == x ensures e.toId in t.g {
      if x == u {
        AdjacentMembers(graph, u, e);
      }
    }
  }

  lemma ExpandKeepsRelaxed(graph: Graph, start: string, s: Search, settled: Search, t: Search, u: string, paths: Paths)
    requires Relaxed(graph, s) && s.g == settled.g && settled.settled == s.settled + {u} && s.settled <= s.g.Keys
    requires Scored(graph, start, settled, paths) && Optimal(graph, start, settled) && Improves(settled, t)
    requires forall e :: e in Adjacent(graph, u) ==>
      e.toId in t.g && (e.toId !in settled.settled ==> t.g[e.toId] <= settled.g[u] + e.Cost())
    ensures Relaxed(graph, t)
  {
    forall x, e | x in t.settled && x in t.g && e in graph.edges && e.fromId == x
      ensures e.toId in t.g && t.g[e.toId] <= t.g[x] + e.Cost()
    {
      if x == u {
        AdjacentMembers(graph, u, e);
        if e.toId in settled.settled {
          BackwardLeg(graph, start, settled, paths, u, e);
        }
      } else {
        assert x in s.settled && s.g[e.toId] <= s.g[x] + e.Cost();
      }
    }
  }

  /** A leg into a settled node cannot improve it. */
  lemma BackwardLeg(graph: Graph, start: string, s: Search, paths: Paths, u: string, e: Edge)
    requires Scored(graph, start, s, paths) && Optimal(graph, start, s)
    requires u in s.settled && e in graph.edges && e.fromId == u && e.toId in s.settled
    ensures s.g[e.toId] <= s.g[u] + e.Cost()
  {
    WalkExtended(graph, paths[u], start, e);
  }

  lemma ImprovesKeepsOptimal(graph: Graph, start: string, s: Search, t: Search)
    requires Optimal(graph, start, s) && Improves(s, t) && s.settled <= s.g.Keys
    ensures Optimal(graph, start, t)
  {
    forall id, w | id in t.settled && id in t.g && Walk(graph, w, start, id) ensures t.g[id] <= CostOf(w) {
      assert s.g[id] <= CostOf(w);
    }
  }

  // --------------------------------------------------------------- the answer

  /** The legs read back from the predecessors, goal to start. */
  predicate ReadsBack(cameFrom: map<string, Edge>, start: string, id: string, legs: seq<Edge>)
    decreases |legs|
  {
    if legs == [] then id == start
    else
      id != start && id in cameFrom && legs[|legs| - 1] == cameFrom[id]
      && ReadsBack(cameFrom, start, cameFrom[id].fromId, legs[..|legs| - 1])
  }

  lemma {:induction false} ReadsBackOnce(cameFrom: map<string, Edge>, start: string, id: string, a: seq<Edge>, b: seq<Edge>)
    requires ReadsBack(cameFrom, start, id, a) && ReadsBack(cameFrom, start, id, b)
    ensures a == b
    decreases |a|
  {
    if a != [] {
      ReadsBackOnce(cameFrom, start, cameFrom[id].fromId, a[..|a| - 1], b[..|b| - 1]);
      assert a == a[..|a| - 1] + [cameFrom[id]] && b == b[..|b| - 1] + [cameFrom[id]];
    }
  }

  lemma {:induction false} PathReadsBack(graph: Graph, h: string -> real, start: string, s: Search, paths: Paths, id: string)
    requires Sound(graph, h, start, s, paths) && id in s.g
    ensures ReadsBack(s.cameFrom, start, id, paths[id])
    decreases |paths[id]|
  {
    if id != start {
      assert LastLeg(s.cameFrom, s.settled, paths, id);
      PathReadsBack(graph, h, start, s, paths, s.cameFrom[id].fromId);
    }
  }

  /** What every state of the search keeps. */
  ghost predicate Kept(graph: Graph, h: string -> real, start: string, s: Search, paths: Paths) {
    Sound(graph, h, start, s, paths) && Covered(graph, s) && Final(graph, h, start, s)
  }

  /** How the search may end, and what is then known. */
  ghost predicate EndsWell(graph: Graph, h: string -> real, start: string, goal: string, ended: Ended, paths: Paths) {
    && Sound(graph, h, start, ended.s, paths)
    && (Consistent(graph, h) ==> Optimal(graph, start, ended.s))
    && (ended.Reached? ==> goal in ended.s.settled)
    && (ended.Exhausted? ==> ended.s.frontier == [] && goal !in ended.s.settled && Covered(graph, ended.s))
    && (ended.Ceiling? ==> |ended.s.settled| > MAX_EXPANSIONS)
  }

  /** Wherever the search ends, its scores are costs of walks; with a consistent heuristic, the least. */
  lemma {:induction false} SearchKeeps(graph: Graph, h: string -> real, start: string, goal: string, s: Search, paths: Paths)
    returns (paths': Paths)
    requires graph.Valid() && goal !in s.settled && Kept(graph, h, start, s, paths)
    ensures EndsWell(graph, h, start, goal, SearchFrom(graph, h, goal, s), paths')
    decreases |graph.nodes.Keys - s.settled|, |s.frontier|
  {
    if s.frontier == [] {
      paths' := paths;
    } else {
      var top := s.frontier[Least(s.frontier)];
      PoppedIsScore(h, s);
      if top.id in s.settled {
        PoppedAgain(graph, h, start, s, paths);
        paths' := SearchKeeps(graph, h, start, goal, Pop(s), paths);
      } else {
        var settled := Pop(s).(settled := s.settled + {top.id});
        var after := ExpandKeeps(graph, h, start, s, paths);
        assert graph.nodes.Keys - s.settled == (graph.nodes.Keys - settled.settled) + {top.id};
        RelaxAllSettles(settled, h, top.g, Adjacent(graph, top.id));
        if top.id == goal || |settled.settled| > MAX_EXPANSIONS {
          paths' := paths;
        } else {
          paths' := SearchKeeps(graph, h, start, goal, RelaxAll(settled, h, top.g, Adjacent(graph, top.id)), after);
        }
      }
    }
  }

  lemma PoppedAgain(graph: Graph, h: string -> real, start: string, s: Search, paths: Paths)
    requires Kept(graph, h, start, s, paths) && s.frontier != []
    requires s.frontier[Least(s.frontier)].id in s.settled
    ensures Kept(graph, h, start, Pop(s), paths)
  {
    PopKeeps(h, s);
    assert s.settled + {s.frontier[Least(s.frontier)].id} == s.settled;
  }

  /** An exhausted search has seen everything the start reaches. */
  lemma {:induction false} ExhaustedReachesAll(graph: Graph, h: string -> real, start: string, s: Search, paths: Paths,
                                               w: seq<Edge>, end: string)
    requires Sound(graph, h, start, s, paths) && Covered(graph, s) && s.frontier == []
    requires Walk(graph, w, start, end)
    ensures end in s.settled
  {
    if w != [] {
      ExhaustedReachesAll(graph, h, start, s, paths, w[..|w| - 1], w[|w| - 1].fromId);
    }
  }

  datatype Outcome =
    | Solution(nodeIds: seq<string>, legs: seq<Edge>, totalCost: real, totalDistance: real, expanded: nat)
    | UnknownEndpoint(id: string)
    | NoRoute(expanded: nat)
    | PastCeiling(expanded: nat)

  function NodeIds(start: string, legs: seq<Edge>): seq<string> {
    if legs == [] then [start] else NodeIds(start, legs[..|legs| - 1]) + [legs[|legs| - 1].toId]
  }

  /** The nodes of a walk, in the order it comes to them: each leg leaves the one it is listed at for the next. */
  lemma {:induction false} NodeIdsInOrder(graph: Graph, legs: seq<Edge>, start: string, end: string)
    requires Walk(graph, legs, start, end)
    ensures var ids := NodeIds(start, legs);
            && |ids| == |legs| + 1 && ids[0] == start && ids[|legs|] == end
            && forall i :: 0 <= i < |legs| ==> legs[i].fromId == ids[i] && legs[i].toId == ids[i + 1]
  {
    if legs != [] {
      var n := |legs| - 1;
      NodeIdsInOrder(graph, legs[..n], start, legs[n].fromId);
      forall i | 0 <= i < |legs|
        ensures legs[i].fromId == NodeIds(start, legs)[i] && legs[i].toId == NodeIds(start, legs)[i + 1]
      {
        assert i < n ==> legs[..n][i] == legs[i];
      }
    }
  }

  /** What every answer owes: a real walk and what it costs, or a reason there is none. */
  ghost predicate Answers(graph: Graph, start: string, goal: string, o: Outcome) {
    match o
    case Solution(ids, legs, cost, distance, _) =>
      && start in graph.nodes && goal in graph.nodes
      && Walk(graph, legs, start, goal) && ids == NodeIds(start, legs)
      && cost == CostOf(legs) && distance == DistanceOf(legs)
    case UnknownEndpoint(id) => id in {start, goal} && id !in graph.nodes
    case NoRoute(_) => start in graph.nodes && goal in graph.nodes && !HasRoute(graph, start, goal)
    case PastCeiling(expanded) => start in graph.nodes && goal in graph.nodes && MAX_EXPANSIONS < expanded <= |graph.nodes|
  }

  ghost predicate HasRoute(graph: Graph, start: string, goal: string) {
    exists w :: Walk(graph, w, start, goal)
  }

  /** A route found is the cheapest there is. */
  ghost predicate Cheapest(graph: Graph, start: string, goal: string, o: Outcome) {
    o.Solution? ==> forall w :: Walk(graph, w, start, goal) ==> o.totalCost <= CostOf(w)
  }

  /** The answer and the search it was read from. */
  ghost predicate Found(graph: Graph, h: string -> real, start: string, goal: string, o: Outcome)
    requires start in graph.nodes && goal in graph.nodes && start != goal
  {
    var ended := SearchFrom(graph, h, goal, Opening(h, start));
    match o
    case Solution(ids, legs, cost, distance, expanded) =>
      && ended.Reached? && expanded == |ended.s.settled| && ReadsBack(ended.s.cameFrom, start, goal, legs)
      && goal in ended.s.g && cost == ended.s.g[goal]
      && ids == NodeIds(start, legs) && distance == DistanceOf(legs)
    case NoRoute(expanded) => ended.Exhausted? && expanded == |ended.s.settled|
    case PastCeiling(expanded) => ended.Ceiling? && expanded == |ended.s.settled|
    case UnknownEndpoint(_) => false
  }

  lemma SearchIsRight(graph: Graph, h: string -> real, start: string, goal: string) returns (legs: seq<Edge>)
    requires graph.Valid()
    requires start in graph.nodes && goal in graph.nodes && start != goal
    ensures var ended := SearchFrom(graph, h, goal, Opening(h, start));
      && (ended.Reached? ==> (
            && goal in ended.s.g && Walk(graph, legs, start, goal) && CostOf(legs) == ended.s.g[goal]
            && ReadsBack(ended.s.cameFrom, start, goal, legs)
            && (Consistent(graph, h) ==> forall w :: Walk(graph, w, start, goal) ==> ended.s.g[goal] <= CostOf(w))))
      && (ended.Exhausted? ==> !HasRoute(graph, start, goal))
      && (ended.Ceiling? ==> MAX_EXPANSIONS < |ended.s.settled| <= |graph.nodes|)
  {
    var s := Opening(h, start);
    var opening: Paths := map[start := []];
    assert s.frontier[0] == EntryOf(s, h, start);
    assert Kept(graph, h, start, s, opening);
    var paths := SearchKeeps(graph, h, start, goal, s, opening);
    var ended := SearchFrom(graph, h, goal, s);
    legs := [];
    if ended.Reached? {
      legs := paths[goal];
      PathReadsBack(graph, h, start, ended.s, paths, goal);
    } else if ended.Exhausted? {
      forall w ensures !Walk(graph, w, start, goal) {
        if Walk(graph, w, start, goal) {
          ExhaustedReachesAll(graph, h, start, ended.s, paths, w, goal);
        }
      }
    } else {
      Subset(ended.s.settled, graph.nodes.Keys);
    }
  }

  lemma {:induction false} Subset(a: set<string>, b: set<string>)
    requires a <= b
    ensures |a| <= |b|
  {
    if a != {} {
      var x :| x in a;
      Subset(a - {x}, b - {x});
    }
  }

  // ------------------------------------------------------------------ the loop

  /** Walks the predecessors back from the goal, then turns the chain round. */
  method Reconstruct(cameFrom: map<string, Edge>, start: string, goal: string, ghost legs: seq<Edge>)
    returns (chain: seq<Edge>)
    requires ReadsBack(cameFrom, start, goal, legs)
    ensures chain == legs
  {
    chain := [];
    var cursor := goal;
    ghost var left := legs;
    while cursor != start
      invariant ReadsBack(cameFrom, start, cursor, left) && left + chain == legs
      decreases |left|
    {
      var edge := cameFrom[cursor];
      chain := [edge] + chain;
      left := left[..|left| - 1];
      cursor := edge.fromId;
    }
  }

  /** The ids along a chain, and what it costs and measures. */
  method Measure(start: string, chain: seq<Edge>) returns (ids: seq<string>, distance: real)
    ensures ids == NodeIds(start, chain) && distance == DistanceOf(chain)
  {
    ids, distance := [start], 0.0;
    for n := 0 to |chain|
      invariant ids == NodeIds(start, chain[..n]) && distance == DistanceOf(chain[..n])
    {
      assert chain[..n + 1][..n] == chain[..n];
      ids, distance := ids + [chain[n].toId], distance + chain[n].lengthM;
    }
    assert chain[..|chain|] == chain;
  }

  lemma RelaxedOneMore(s: Search, h: string -> real, currentG: real, edges: seq<Edge>, n: nat)
    requires n < |edges|
    ensures var before := RelaxAll(s, h, currentG, edges[..n]);
            && before.settled == s.settled
            && RelaxAll(s, h, currentG, edges[..n + 1]) == RelaxTo(before, h, currentG + edges[n].Cost(), edges[n])
  {
    assert edges[..n + 1][..n] == edges[..n];
    RelaxAllSettles(s, h, currentG, edges[..n]);
  }

  method RelaxEdges(s: Search, h: string -> real, currentG: real, edges: seq<Edge>) returns (t: Search)
    ensures t == RelaxAll(s, h, currentG, edges)
  {
    var g, cameFrom, frontier := s.g, s.cameFrom, s.frontier;
    for n := 0 to |edges|
      invariant Search(g, cameFrom, s.settled, frontier) == RelaxAll(s, h, currentG, edges[..n])
    {
      RelaxedOneMore(s, h, currentG, edges, n);
      var edge := edges[n];
      if edge.toId in s.settled { continue; }
      var tentative := currentG + edge.Cost();
      if edge.toId !in g || tentative < g[edge.toId] {
        g := g[edge.toId := tentative];
        cameFrom := cameFrom[edge.toId := edge];
        frontier := frontier + [Entry(tentative + h(edge.toId), tentative, edge.toId)];
      }
    }
    assert edges[..|edges|] == edges;
    t := Search(g, cameFrom, s.settled, frontier);
  }

  /** The main loop: pop, skip what is settled, settle, stop or relax. */
  method Explore(graph: Graph, h: string -> real, start: string, goal: string) returns (ended: Ended, expanded: nat)
    ensures ended == SearchFrom(graph, h, goal, Opening(h, start)) && expanded == |ended.s.settled|
  {
    var s := Opening(h, start);
    expanded := 0;
    while s.frontier != []
      invariant s.settled <= graph.nodes.Keys && expanded == |s.settled|
      invariant SearchFrom(graph, h, goal, s) == SearchFrom(graph, h, goal, Opening(h, start))
      decreases |graph.nodes.Keys - s.settled|, |s.frontier|
    {
      var top := s.frontier[Least(s.frontier)];
      ghost var before := s.settled;
      s := Pop(s);
      if top.id in s.settled || top.id !in graph.nodes { continue; }
      s := s.(settled := s.settled + {top.id});
      assert graph.nodes.Keys - before == (graph.nodes.Keys - s.settled) + {top.id};
      expanded := expanded + 1;
      if top.id == goal { return Reached(s), expanded; }
      if expanded > MAX_EXPANSIONS { return Ceiling(s), expanded; }
      RelaxAllSettles(s, h, top.g, Adjacent(graph, top.id));
      s := RelaxEdges(s, h, top.g, Adjacent(graph, top.id));
    }
    return Exhausted(s), expanded;
  }

  /**
   A route from start to goal, or a stated refusal. Without the heuristic this is
   Dijkstra; with it the route is the cheapest when no leg undercuts the straight
   line across it.
  */
  method AStar(graph: Graph, dist: (Node, Node) -> real, start: string, goal: string, useHeuristic: bool)
    returns (outcome: Outcome)
    requires graph.Valid()
    ensures Answers(graph, start, goal, outcome)
    ensures (useHeuristic ==> StraightLine(dist) && NoShortcut(graph, dist)) ==> Cheapest(graph, start, goal, outcome)
    ensures start in graph.nodes && goal in graph.nodes && start != goal ==>
      Found(graph, Heuristic(graph, dist, goal, useHeuristic), start, goal, outcome)
  {
    if start !in graph.nodes { return UnknownEndpoint(start); }
    if goal !in graph.nodes { return UnknownEndpoint(goal); }
    if start == goal {
      forall w | Walk(graph, w, start, goal) ensures 0.0 <= CostOf(w) {
        CostNotNegative(graph, w, start, goal);
      }
      return Solution([start], [], 0.0, 0.0, 0);
    }
    var h := Heuristic(graph, dist, goal, useHeuristic);
    if useHeuristic ==> StraightLine(dist) && NoShortcut(graph, dist) {
      HeuristicIsConsistent(graph, dist, goal, useHeuristic);
    }
    ghost var legs := SearchIsRight(graph, h, start, goal);
    var ended, expanded := Explore(graph, h, start, goal);
    match ended
    case Reached(s) =>
      var chain := Reconstruct(s.cameFrom, start, goal, legs);
      var ids, distance := Measure(start, chain);
      return Solution(ids, chain, s.g[goal], distance, expanded);
    case Ceiling(_) => return PastCeiling(expanded);
    case Exhausted(_) => return NoRoute(expanded);
  }

  // ------------------------------------------------------- heuristic and ties

  /** On a graph within the ceiling, a route is found exactly when there is one. */
  lemma RefusedExactlyWhenUnreachable(graph: Graph, start: string, goal: string, o: Outcome)
    requires Answers(graph, start, goal, o) && |graph.nodes| <= MAX_EXPANSIONS
    requires start in graph.nodes && goal in graph.nodes
    ensures o.Solution? <==> HasRoute(graph, start, goal)
  {
  }

  /**
   Where no leg undercuts the straight line the heuristic changes nothing but the
   work: the search with it and the search without find a route together, at one cost.
  */
  lemma HeuristicNeverChangesTheCost(graph: Graph, dist: (Node, Node) -> real, start: string, goal: string,
                                     astar: Outcome, dijkstra: Outcome)
    requires graph.Valid() && StraightLine(dist) && NoShortcut(graph, dist)
    requires start in graph.nodes && goal in graph.nodes && start != goal && |graph.nodes| <= MAX_EXPANSIONS
    requires Found(graph, Heuristic(graph, dist, goal, true), start, goal, astar)
    requires Found(graph, Heuristic(graph, dist, goal, false), start, goal, dijkstra)
    ensures astar.Solution? <==> dijkstra.Solution?
    ensures astar.Solution? ==> astar.totalCost == dijkstra.totalCost
  {
    var h, zero := Heuristic(graph, dist, goal, true), Heuristic(graph, dist, goal, false);
    HeuristicIsConsistent(graph, dist, goal, true);
    HeuristicIsConsistent(graph, dist, goal, false);
    var v := SearchIsRight(graph, h, start, goal);
    var w := SearchIsRight(graph, zero, start, goal);
    if astar.Solution? {
      assert Walk(graph, v, start, goal);
    }
    if dijkstra.Solution? {
      assert Walk(graph, w, start, goal);
    }
  }

  /** Legs that join the same two nodes in the same direction are one leg, however often it is listed. */
  predicate ParallelLegsAgree(edges: seq<Edge>) {
    forall i, j :: 0 <= i < |edges| && 0 <= j < |edges| ==>
      (edges[i].fromId == edges[j].fromId && edges[i].toId == edges[j].toId ==> edges[i] == edges[j])
  }

  /** The legs without their repeats. */
  function Once(edges: seq<Edge>): seq<Edge> {
    if edges == [] then []
    else
      var front, last := edges[..|edges| - 1], edges[|edges| - 1];
      if last in front then Once(front) else Once(front) + [last]
  }

  lemma {:induction false} OnceMembers(edges: seq<Edge>)
    ensures forall e :: e in Once(edges) <==> e in edges
  {
    if edges != [] {
      assert edges == edges[..|edges| - 1] + [edges[|edges| - 1]];
      OnceMembers(edges[..|edges| - 1]);
    }
  }

  /** A leg already priced from this node has nothing left to improve. */
  lemma {:induction false} PricedAlready(s: Search, h: string -> real, currentG: real, edges: seq<Edge>, e: Edge)
    requires e in edges
    ensures var t := RelaxAll(s, h, currentG, edges);
            e.toId in t.settled || (e.toId in t.g && t.g[e.toId] <= currentG + e.Cost())
  {
    var front, last := edges[..|edges| - 1], edges[|edges| - 1];
    if e != last {
      assert e in front;
      PricedAlready(s, h, currentG, front, e);
      PriceOnlyFalls(RelaxAll(s, h, currentG, front), h, currentG + last.Cost(), last, e.toId);
    }
  }

  lemma PriceOnlyFalls(s: Search, h: string -> real, tentative: real, e: Edge, id: string)
    ensures var t := RelaxTo(s, h, tentative, e);
            t.settled == s.settled && (id in s.g ==> id in t.g && t.g[id] <= s.g[id])
  {
  }

  lemma {:induction false} RepeatsChangeNothing(s: Search, h: string -> real, currentG: real, edges: seq<Edge>)
    ensures RelaxAll(s, h, currentG, edges) == RelaxAll(s, h, currentG, Once(edges))
  {
    if edges != [] {
      var front, last := edges[..|edges| - 1], edges[|edges| - 1];
      RepeatsChangeNothing(s, h, currentG, front);
      if last in front {
        PricedAlready(s, h, currentG, front, last);
      } else {
        assert (Once(front) + [last])[..|Once(front)|] == Once(front);
      }
    }
  }

  lemma ByDestinationIsOrdering()
    ensures Ordering(ByDestination())
  {
    var less := ByDestination();
    forall x, y | less(x, y) ensures !less(y, x) {
      Strings.LessTotal(x.toId, y.toId);
    }
    forall x, y, z | less(x, y) && less(y, z) ensures less(x, z) {
      Strings.LessTransitive(x.toId, y.toId, z.toId);
    }
    forall x, y, z | !less(x, y) && !less(y, z) ensures !less(x, z) {
      Strings.LessTotal(x.toId, y.toId);
      Strings.LessTotal(y.toId, z.toId);
      Strings.LessTotal(x.toId, z.toId);
      if y.toId != x.toId && y.toId != z.toId {
        Strings.LessTransitive(z.toId, y.toId, x.toId);
      }
    }
  }

  /** Sorted legs out of one node, without repeats, are strictly sorted. */
  lemma {:induction false} OnceIsStrict(edges: seq<Edge>, id: string)
    requires Sorted(ByDestination(), edges) && ParallelLegsAgree(edges)
    requires forall e :: e in edges ==> e.fromId == id
    ensures StrictlySorted(ByDestination(), Once(edges))
  {
    if edges != [] {
      var front, last := edges[..|edges| - 1], edges[|edges| - 1];
      assert edges == front + [last];
      FrontAgrees(front, last);
      OnceIsStrict(front, id);
      OnceMembers(front);
      if last !in front {
        forall e | e in Once(front) ensures Strings.Less(e.toId, last.toId) {
          LastIsApart(front, last, e, id);
        }
        StrictSnoc(Once(front), last);
      }
    }
  }

  lemma StrictSnoc(edges: seq<Edge>, last: Edge)
    requires StrictlySorted(ByDestination(), edges) && forall e :: e in edges ==> Strings.Less(e.toId, last.toId)
    ensures StrictlySorted(ByDestination(), edges + [last])
  {
  }

  lemma FrontAgrees(front: seq<Edge>, last: Edge)
    requires Sorted(ByDestination(), front + [last]) && ParallelLegsAgree(front + [last])
    ensures Sorted(ByDestination(), front) && ParallelLegsAgree(front)
  {
    var all := front + [last];
    assert forall i :: 0 <= i < |front| ==> all[i] == front[i];
  }

  lemma LastIsApart(front: seq<Edge>, last: Edge, e: Edge, id: string)
    requires Sorted(ByDestination(), front + [last]) && ParallelLegsAgree(front + [last])
    requires e in front && last !in front && e.fromId == id == last.fromId
    ensures Strings.Less(e.toId, last.toId)
  {
    var all := front + [last];
    var k :| 0 <= k < |front| && front[k] == e;
    assert all[k] == e && all[|front|] == last && !ByDestination()(last, e);
    Strings.LessTotal(e.toId, last.toId);
  }

  lemma AdjacentAgree(graph: Graph, id: string)
    requires ParallelLegsAgree(graph.edges)
    ensures ParallelLegsAgree(Adjacent(graph, id)) && forall e :: e in Adjacent(graph, id) ==> e.fromId == id
  {
    var legs := Adjacent(graph, id);
    forall e | e in legs ensures e in graph.edges && e.fromId == id {
      AdjacentMembers(graph, id, e);
    }
    forall i, j | 0 <= i < |legs| && 0 <= j < |legs| && legs[i].fromId == legs[j].fromId && legs[i].toId == legs[j].toId
      ensures legs[i] == legs[j]
    {
      var k :| 0 <= k < |graph.edges| && graph.edges[k] == legs[i];
      var l :| 0 <= l < |graph.edges| && graph.edges[l] == legs[j];
    }
  }

  /** The same legs, built in another order or listed again, are priced as the same list. */
  lemma AdjacencyIgnoresBuildOrder(a: Graph, b: Graph, id: string)
    requires ParallelLegsAgree(a.edges) && ParallelLegsAgree(b.edges)
    requires forall e :: e in a.edges <==> e in b.edges
    ensures Once(Adjacent(a, id)) == Once(Adjacent(b, id))
    ensures forall s, h, currentG :: RelaxAll(s, h, currentG, Adjacent(a, id)) == RelaxAll(s, h, currentG, Adjacent(b, id))
  {
    ByDestinationIsOrdering();
    AdjacentAgree(a, id);
    AdjacentAgree(b, id);
    SortSorts(ByDestination(), Leaving(a.edges, id));
    SortSorts(ByDestination(), Leaving(b.edges, id));
    OnceIsStrict(Adjacent(a, id), id);
    OnceIsStrict(Adjacent(b, id), id);
    OnceMembers(Adjacent(a, id));
    OnceMembers(Adjacent(b, id));
    forall e ensures e in Once(Adjacent(a, id)) <==> e in Once(Adjacent(b, id)) {
      AdjacentMembers(a, id, e);
      AdjacentMembers(b, id, e);
    }
    StrictlySortedUnique(ByDestination(), Once(Adjacent(a, id)), Once(Adjacent(b, id)));
    forall s, h, currentG
      ensures RelaxAll(s, h, currentG, Adjacent(a, id)) == RelaxAll(s, h, currentG, Adjacent(b, id))
    {
      RepeatsChangeNothing(s, h, currentG, Adjacent(a, id));
      RepeatsChangeNothing(s, h, currentG, Adjacent(b, id));
    }
  }

  lemma {:induction false} SearchIgnoresBuildOrder(a: Graph, b: Graph, h: string -> real, goal: string, s: Search)
    requires s.settled <= a.nodes.Keys && a.nodes == b.nodes
    requires ParallelLegsAgree(a.edges) && ParallelLegsAgree(b.edges)
    requires forall e :: e in a.edges <==> e in b.edges
    ensures SearchFrom(a, h, goal, s) == SearchFrom(b, h, goal, s)
    decreases |a.nodes.Keys - s.settled|, |s.frontier|
  {
    if s.frontier != [] {
      var top := s.frontier[Least(s.frontier)];
      if top.id in s.settled || top.id !in a.nodes {
        SearchIgnoresBuildOrder(a, b, h, goal, Pop(s));
      } else {
        var settled := Pop(s).(settled := s.settled + {top.id});
        assert a.nodes.Keys - s.settled == (a.nodes.Keys - settled.settled) + {top.id};
        AdjacencyIgnoresBuildOrder(a, b, top.id);
        RelaxAllSettles(settled, h, top.g, Adjacent(a, top.id));
        if top.id != goal && |settled.settled| <= MAX_EXPANSIONS {
          assert RelaxAll(settled, h, top.g, Adjacent(a, top.id)) == RelaxAll(settled, h, top.g, Adjacent(b, top.id));
          SearchIgnoresBuildOrder(a, b, h, goal, RelaxAll(settled, h, top.g, Adjacent(a, top.id)));
        }
      }
    }
  }

  /** Ties break the same way every time: one set of legs, one route, whatever the build order. */
  lemma OneRoutePerGraph(a: Graph, b: Graph, h: string -> real, start: string, goal: string, x: Outcome, y: Outcome)
    requires start in a.nodes && goal in a.nodes && start != goal && a.nodes == b.nodes
    requires ParallelLegsAgree(a.edges) && ParallelLegsAgree(b.edges)
    requires forall e :: e in a.edges <==> e in b.edges
    requires Found(a, h, start, goal, x) && Found(b, h, start, goal, y)
    ensures x == y
  {
    SearchIgnoresBuildOrder(a, b, h, goal, Opening(h, start));
    if x.Solution? {
      var s := SearchFrom(a, h, goal, Opening(h, start)).s;
      ReadsBackOnce(s.cameFrom, start, goal, x.legs, y.legs);
    }
  }
}
