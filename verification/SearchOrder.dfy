/**
 The order in which the search settles nodes, and what it decides: of all the least
 routes to the goal, which one comes back.
*/
module SearchOrder {
  import opened Pathfinding
  import Strings

  // ------------------------------------------------------------ frontier order

  lemma BeforeTotal(a: Entry, b: Entry)
    ensures a == b || Before(a, b) || Before(b, a)
    ensures !(Before(a, b) && Before(b, a))
  {
    Strings.LessTotal(a.id, b.id);
  }

  lemma BeforeTransitive(a: Entry, b: Entry, c: Entry)
    requires Before(a, b) && Before(b, c)
    ensures Before(a, c)
  {
    if a.f == b.f == c.f && a.g == b.g == c.g {
      Strings.LessTransitive(a.id, b.id, c.id);
    }
  }

  /** Nothing on the frontier comes before the entry popped. */
  lemma {:induction false} LeastIsFirst(frontier: seq<Entry>, e: Entry)
    requires frontier != [] && e in frontier
    ensures e == frontier[Least(frontier)] || Before(frontier[Least(frontier)], e)
  {
    if |frontier| > 1 {
      var front, last := frontier[..|frontier| - 1], frontier[|frontier| - 1];
      var least := front[Least(front)];
      BeforeTotal(least, last);
      if e != last {
        assert e in front;
        LeastIsFirst(front, e);
        if Before(last, least) && e != least {
          BeforeTransitive(last, least, e);
        }
      }
    }
  }

  // ------------------------------------------------------- what the loop keeps

  /** Every settled node was popped before any node that is not. */
  ghost predicate Ordered(h: string -> real, s: Search) {
    forall x, y :: x in s.settled && x in s.g && y in s.g && y !in s.settled ==> Before(EntryOf(s, h, x), EntryOf(s, h, y))
  }

  /** The leg a score was read from: of the tight ones out of settled nodes, the first to be priced. */
  ghost predicate FirstWins(graph: Graph, h: string -> real, start: string, s: Search) {
    forall e :: e in graph.edges && Tight(s, e) && e.toId != start ==> ComesFirst(h, s, e)
  }

  /** A leg out of a settled node that costs no more than the score where it leads. */
  predicate Tight(s: Search, e: Edge) {
    e.fromId in s.settled && e.fromId in s.g && e.toId in s.g && s.g[e.fromId] + e.Cost() <= s.g[e.toId]
  }

  ghost predicate ComesFirst(h: string -> real, s: Search, e: Edge)
    requires e.fromId in s.g
  {
    && e.toId in s.cameFrom && s.cameFrom[e.toId].fromId in s.g
    && (s.cameFrom[e.toId].fromId == e.fromId
        || Before(EntryOf(s, h, s.cameFrom[e.toId].fromId), EntryOf(s, h, e.fromId)))
  }

  /** What relaxing does to one node's score: nothing at all, or a better one read from a leg just priced. */
  predicate KeptOrBetter(s: Search, t: Search, edges: seq<Edge>, id: string) {
    || (id in s.g && id in t.g && t.g[id] == s.g[id]
        && (id in s.cameFrom <==> id in t.cameFrom) && (id in s.cameFrom ==> t.cameFrom[id] == s.cameFrom[id]))
    || (id in t.g && id in t.cameFrom && t.cameFrom[id] in edges && id !in s.settled && (id in s.g ==> t.g[id] < s.g[id]))
    || (id !in s.g && id !in t.g)
  }

  predicate Bettered(s: Search, t: Search, id: string) {
    id in t.g && (id !in s.g || t.g[id] < s.g[id])
  }

  lemma {:induction false} RelaxAllKeepsOrBetters(s: Search, h: string -> real, currentG: real, edges: seq<Edge>, id: string)
    ensures KeptOrBetter(s, RelaxAll(s, h, currentG, edges), edges, id)
    ensures var t := RelaxAll(s, h, currentG, edges);
            Bettered(s, t, id) ==> exists e :: e in edges && e.toId == id && t.g[id] == currentG + e.Cost()
  {
    if edges != [] {
      var front, last := edges[..|edges| - 1], edges[|edges| - 1];
      assert edges == front + [last];
      RelaxAllKeepsOrBetters(s, h, currentG, front, id);
      RelaxAllSettles(s, h, currentG, front);
      var mid := RelaxAll(s, h, currentG, front);
      if Bettered(s, mid, id) {
        var e :| e in front && e.toId == id && mid.g[id] == currentG + e.Cost();
        assert e in edges;
      }
    }
  }

  /** A leg priced from the node just popped leads to an entry that comes after it. */
  lemma PricedComesLater(graph: Graph, h: string -> real, e: Edge, g: real)
    requires graph.Valid() && Consistent(graph, h) && e in graph.edges
    ensures Before(Entry(g + h(e.fromId), g, e.fromId), Entry(g + e.Cost() + h(e.toId), g + e.Cost(), e.toId))
  {
    CostAtLeastLength(e);
  }

  /** What one expansion leaves: `s` with its least entry popped and settled, and its legs priced. */
  function Expanded(graph: Graph, h: string -> real, s: Search): Search
    requires s.frontier != []
  {
    var top := s.frontier[Least(s.frontier)];
    RelaxAll(Pop(s).(settled := s.settled + {top.id}), h, top.g, Adjacent(graph, top.id))
  }

  ghost predicate Ready(graph: Graph, h: string -> real, start: string, s: Search, paths: Paths) {
    && graph.Valid() && Consistent(graph, h) && s.frontier != [] && s.frontier[Least(s.frontier)].id !in s.settled
    && Kept(graph, h, start, s, paths) && Ordered(h, s) && FirstWins(graph, h, start, s)
  }

  /** What an expansion does to one node's score. */
  ghost predicate ScoreAfter(graph: Graph, h: string -> real, s: Search, t: Search, top: Entry, id: string) {
    && KeptOrBetter(s, t, Adjacent(graph, top.id), id)
    && (id in t.settled && id in s.g ==> id in t.g && t.g[id] == s.g[id])
    && (Bettered(s, t, id) ==> Before(top, Entry(t.g[id] + h(id), t.g[id], id)))
  }

  lemma TopIsEntry(graph: Graph, h: string -> real, start: string, s: Search, paths: Paths)
    requires Ready(graph, h, start, s, paths)
    ensures var top := s.frontier[Least(s.frontier)]; top.id in s.g && top == EntryOf(s, h, top.id)
    ensures Expanded(graph, h, s).settled == s.settled + {s.frontier[Least(s.frontier)].id}
  {
    PoppedIsScore(h, s);
    var top := s.frontier[Least(s.frontier)];
    RelaxAllSettles(Pop(s).(settled := s.settled + {top.id}), h, top.g, Adjacent(graph, top.id));
  }

  lemma ExpansionOf(graph: Graph, h: string -> real, start: string, s: Search, paths: Paths, id: string)
    requires Ready(graph, h, start, s, paths)
    ensures ScoreAfter(graph, h, s, Expanded(graph, h, s), s.frontier[Least(s.frontier)], id)
  {
    var top := s.frontier[Least(s.frontier)];
    TopIsEntry(graph, h, start, s, paths);
    var settled, t := Pop(s).(settled := s.settled + {top.id}), Expanded(graph, h, s);
    RelaxAllKeepsOrBetters(settled, h, top.g, Adjacent(graph, top.id), id);
    if Bettered(s, t, id) {
      var e :| e in Adjacent(graph, top.id) && e.toId == id && t.g[id] == top.g + e.Cost();
      AdjacentMembers(graph, top.id, e);
      PricedComesLater(graph, h, e, top.g);
    }
  }

  lemma TopComesFirst(h: string -> real, s: Search, y: string)
    requires s.frontier != [] && Fringed(h, s) && y in s.g && y !in s.settled
    ensures var top := s.frontier[Least(s.frontier)]; top == EntryOf(s, h, y) || Before(top, EntryOf(s, h, y))
  {
    assert EntryOf(s, h, y) in s.frontier;
    LeastIsFirst(s.frontier, EntryOf(s, h, y));
  }

  lemma PairStaysOrdered(graph: Graph, h: string -> real, s: Search, t: Search, top: Entry, x: string, y: string)
    requires x in s.g && x in t.settled && x in t.g && y in t.g && y !in t.settled && y != top.id
    requires ScoreAfter(graph, h, s, t, top, x) && ScoreAfter(graph, h, s, t, top, y)
    requires top == EntryOf(s, h, x) || Before(EntryOf(s, h, x), top)
    requires y in s.g ==> Before(top, EntryOf(s, h, y))
    ensures Before(EntryOf(t, h, x), EntryOf(t, h, y))
  {
    assert EntryOf(t, h, x) == EntryOf(s, h, x);
    assert Before(top, EntryOf(t, h, y));
    if top != EntryOf(s, h, x) {
      BeforeTransitive(EntryOf(s, h, x), top, EntryOf(t, h, y));
    }
  }

  lemma ExpansionKeepsOrdered(graph: Graph, h: string -> real, start: string, s: Search, paths: Paths)
    requires Ready(graph, h, start, s, paths)
    ensures Ordered(h, Expanded(graph, h, s))
  {
    var top, t := s.frontier[Least(s.frontier)], Expanded(graph, h, s);
    TopIsEntry(graph, h, start, s, paths);
    forall x, y | x in t.settled && x in t.g && y in t.g && y !in t.settled ensures Before(EntryOf(t, h, x), EntryOf(t, h, y)) {
      ExpansionOf(graph, h, start, s, paths, x);
      ExpansionOf(graph, h, start, s, paths, y);
      assert x in s.g;
      if y in s.g {
        TopComesFirst(h, s, y);
      }
      PairStaysOrdered(graph, h, s, t, top, x, y);
    }
  }

  lemma LegStaysFirst(graph: Graph, h: string -> real, start: string, s: Search, t: Search, paths: Paths, top: Entry, e: Edge)
    requires e in graph.edges && e.toId != start && Scored(graph, start, s, paths) && Relaxed(graph, s) && Ordered(h, s)
    requires Tight(s, e) ==> ComesFirst(h, s, e)
    requires top.id in s.g && top.id !in s.settled && top == EntryOf(s, h, top.id) && t.settled == s.settled + {top.id} && Tight(t, e)
    requires ScoreAfter(graph, h, s, t, top, e.fromId) && ScoreAfter(graph, h, s, t, top, e.toId)
    requires forall c :: c in Adjacent(graph, top.id) ==> c.fromId == top.id
    requires forall x :: x in s.settled ==> x in t.g && x in s.g && t.g[x] == s.g[x]
    requires top.id in t.g && t.g[top.id] == s.g[top.id]
    ensures ComesFirst(h, t, e)
  {
    if e.toId in s.g && t.g[e.toId] == s.g[e.toId] {
      assert LastLeg(s.cameFrom, s.settled, paths, e.toId);
    }
  }

  lemma ExpansionKeepsFirst(graph: Graph, h: string -> real, start: string, s: Search, paths: Paths)
    requires Ready(graph, h, start, s, paths)
    ensures FirstWins(graph, h, start, Expanded(graph, h, s))
  {
    var top, t := s.frontier[Least(s.frontier)], Expanded(graph, h, s);
    TopIsEntry(graph, h, start, s, paths);
    forall x | x in s.settled || x == top.id ensures x in t.g && x in s.g && t.g[x] == s.g[x] {
      ExpansionOf(graph, h, start, s, paths, x);
    }
    forall c | c in Adjacent(graph, top.id) ensures c.fromId == top.id {
      AdjacentMembers(graph, top.id, c);
    }
    forall e | e in graph.edges && Tight(t, e) && e.toId != start ensures ComesFirst(h, t, e) {
      ExpansionOf(graph, h, start, s, paths, e.fromId);
      ExpansionOf(graph, h, start, s, paths, e.toId);
      LegStaysFirst(graph, h, start, s, t, paths, top, e);
    }
  }

  // ------------------------------------------------------------- at the goal

  lemma SettledByThen(graph: Graph, h: string -> real, start: string, s: Search, paths: Paths, e: Edge, w: seq<Edge>)
    requires Ready(graph, h, start, s, paths) && s.frontier[Least(s.frontier)].id == e.toId
    requires e in graph.edges && Walk(graph, w, start, e.fromId) && CostOf(w) + e.Cost() <= s.frontier[Least(s.frontier)].g
    ensures e.fromId in s.settled
  {
    TopIsEntry(graph, h, start, s, paths);
    CostAtLeastLength(e);
    if e.fromId !in s.settled {
      var v, rest := WalkMeetsFrontier(graph, h, start, s, paths, w, e.fromId);
      TopComesFirst(h, s, v);
    }
  }

  /** As the goal is popped, each tight leg into it comes from a settled node, and from none before the one it was read from. */
  lemma TightIntoGoal(graph: Graph, h: string -> real, start: string, s: Search, paths: Paths, e: Edge, w: seq<Edge>)
    requires Ready(graph, h, start, s, paths) && s.frontier[Least(s.frontier)].id == e.toId != start
    requires e in graph.edges && Walk(graph, w, start, e.fromId) && CostOf(w) + e.Cost() <= s.frontier[Least(s.frontier)].g
    ensures e.fromId in s.g && s.g[e.fromId] == CostOf(w) && ComesFirst(h, s, e)
  {
    TopIsEntry(graph, h, start, s, paths);
    SettledByThen(graph, h, start, s, paths, e, w);
    var x := e.fromId;
    WalkExtended(graph, paths[x], start, e);
    PoppedIsFinal(graph, h, start, s, paths, paths[x] + [e]);
  }

  /** A way into the goal that costs no more than its score: a walk, and a leg from its end. */
  ghost predicate LeastWayIn(graph: Graph, start: string, goal: string, cost: real, e: Edge, w: seq<Edge>) {
    e in graph.edges && e.toId == goal && Walk(graph, w, start, e.fromId) && CostOf(w) + e.Cost() <= cost
  }

  /** Such a way, weighed against the leg the score was read from. */
  ghost predicate Weighed(h: string -> real, s: Search, e: Edge, w: seq<Edge>) {
    e.fromId in s.g && s.g[e.fromId] == CostOf(w) && ComesFirst(h, s, e)
  }

  ghost predicate GoalFirst(graph: Graph, h: string -> real, start: string, goal: string, s: Search) {
    goal in s.g && forall e, w :: LeastWayIn(graph, start, goal, s.g[goal], e, w) ==> Weighed(h, s, e, w)
  }

  lemma GoalPopped(graph: Graph, h: string -> real, start: string, goal: string, s: Search, paths: Paths)
    requires Ready(graph, h, start, s, paths) && s.frontier[Least(s.frontier)].id == goal != start
    requires goal in s.g && s.g[goal] == s.frontier[Least(s.frontier)].g
    ensures GoalFirst(graph, h, start, goal, s)
  {
    forall e, w | LeastWayIn(graph, start, goal, s.g[goal], e, w) ensures Weighed(h, s, e, w) {
      TightIntoGoal(graph, h, start, s, paths, e, w);
    }
  }

  lemma GoalReached(graph: Graph, h: string -> real, start: string, goal: string, s: Search, paths: Paths)
    requires Ready(graph, h, start, s, paths) && s.frontier[Least(s.frontier)].id == goal != start
    ensures SearchFrom(graph, h, goal, s) == Reached(Pop(s).(settled := s.settled + {goal}))
    ensures GoalFirst(graph, h, start, goal, Pop(s).(settled := s.settled + {goal}))
  {
    TopIsEntry(graph, h, start, s, paths);
    GoalPopped(graph, h, start, goal, s, paths);
    SameScores(graph, h, start, goal, s, Pop(s).(settled := s.settled + {goal}));
  }

  lemma SameScores(graph: Graph, h: string -> real, start: string, goal: string, s: Search, t: Search)
    requires GoalFirst(graph, h, start, goal, s) && s.g == t.g && s.cameFrom == t.cameFrom
    ensures GoalFirst(graph, h, start, goal, t)
  {
    forall e, w | LeastWayIn(graph, start, goal, t.g[goal], e, w) ensures Weighed(h, t, e, w) {
      assert Weighed(h, s, e, w);
    }
  }

  /** What every state of the search keeps, with its order. */
  ghost predicate InOrder(graph: Graph, h: string -> real, start: string, s: Search, paths: Paths) {
    && graph.Valid() && Consistent(graph, h) && Kept(graph, h, start, s, paths)
    && Ordered(h, s) && FirstWins(graph, h, start, s)
  }

  lemma AgainInOrder(graph: Graph, h: string -> real, start: string, s: Search, paths: Paths)
    requires InOrder(graph, h, start, s, paths) && s.frontier != [] && s.frontier[Least(s.frontier)].id in s.settled
    ensures InOrder(graph, h, start, Pop(s), paths)
  {
    PoppedAgain(graph, h, start, s, paths);
    var t := Pop(s);
    forall x, y | x in t.settled && x in t.g && y in t.g && y !in t.settled ensures Before(EntryOf(t, h, x), EntryOf(t, h, y)) {
      assert Before(EntryOf(s, h, x), EntryOf(s, h, y));
    }
    forall e | e in graph.edges && Tight(t, e) && e.toId != start ensures ComesFirst(h, t, e) {
      assert Tight(s, e);
    }
  }

  lemma StillInOrder(graph: Graph, h: string -> real, start: string, s: Search, paths: Paths) returns (after: Paths)
    requires InOrder(graph, h, start, s, paths) && s.frontier != [] && s.frontier[Least(s.frontier)].id !in s.settled
    ensures InOrder(graph, h, start, Expanded(graph, h, s), after)
  {
    after := ExpandKeeps(graph, h, start, s, paths);
    ExpansionKeepsOrdered(graph, h, start, s, paths);
    ExpansionKeepsFirst(graph, h, start, s, paths);
  }

  lemma ExpansionGoesOn(graph: Graph, h: string -> real, start: string, goal: string, s: Search, paths: Paths)
    requires InOrder(graph, h, start, s, paths) && s.frontier != [] && s.frontier[Least(s.frontier)].id !in s.settled
    requires goal !in s.settled && s.frontier[Least(s.frontier)].id != goal
    ensures var t := Expanded(graph, h, s);
            && goal !in t.settled && t.settled <= graph.nodes.Keys && |graph.nodes.Keys - t.settled| < |graph.nodes.Keys - s.settled|
            && SearchFrom(graph, h, goal, s) ==
               if |t.settled| > MAX_EXPANSIONS then Ceiling(Pop(s).(settled := t.settled)) else SearchFrom(graph, h, goal, t)
  {
    var top, t := s.frontier[Least(s.frontier)], Expanded(graph, h, s);
    TopIsEntry(graph, h, start, s, paths);
    assert graph.nodes.Keys - s.settled == (graph.nodes.Keys - t.settled) + {top.id};
  }

  lemma PopGoesOn(graph: Graph, h: string -> real, goal: string, s: Search)
    requires s.settled <= graph.nodes.Keys && s.frontier != [] && s.frontier[Least(s.frontier)].id in s.settled
    ensures SearchFrom(graph, h, goal, s) == SearchFrom(graph, h, goal, Pop(s)) && |Pop(s).frontier| < |s.frontier|
    ensures Pop(s).settled == s.settled
  {
  }

  lemma {:induction false} SearchEndsFirst(graph: Graph, h: string -> real, start: string, goal: string, s: Search, paths: Paths)
    requires InOrder(graph, h, start, s, paths) && goal !in s.settled && start != goal
    ensures var ended := SearchFrom(graph, h, goal, s); ended.Reached? ==> GoalFirst(graph, h, start, goal, ended.s)
    decreases |graph.nodes.Keys - s.settled|, |s.frontier|
  {
    if s.frontier != [] {
      var top := s.frontier[Least(s.frontier)];
      if top.id in s.settled {
        AgainInOrder(graph, h, start, s, paths);
        PopGoesOn(graph, h, goal, s);
        SearchEndsFirst(graph, h, start, goal, Pop(s), paths);
      } else if top.id == goal {
        GoalReached(graph, h, start, goal, s, paths);
      } else {
        ExpansionGoesOn(graph, h, start, goal, s, paths);
        var after := StillInOrder(graph, h, start, s, paths);
        if |Expanded(graph, h, s).settled| <= MAX_EXPANSIONS {
          SearchEndsFirst(graph, h, start, goal, Expanded(graph, h, s), after);
        }
      }
    }
  }

  lemma OpensInOrder(graph: Graph, h: string -> real, start: string)
    requires graph.Valid() && Consistent(graph, h) && start in graph.nodes
    ensures InOrder(graph, h, start, Opening(h, start), map[start := []])
  {
    var s := Opening(h, start);
    assert s.frontier[0] == EntryOf(s, h, start);
  }

  /** A route's last leg leaves from where `e` does, or from a node popped before it. */
  predicate LeavesFirst(h: string -> real, legs: seq<Edge>, e: Edge, w: seq<Edge>) {
    legs != [] &&
    var front, last := legs[..|legs| - 1], legs[|legs| - 1];
    last.fromId == e.fromId
    || Before(Entry(CostOf(front) + h(last.fromId), CostOf(front), last.fromId), Entry(CostOf(w) + h(e.fromId), CostOf(w), e.fromId))
  }

  lemma FoundIsReached(graph: Graph, h: string -> real, start: string, goal: string, o: Outcome) returns (s: Search)
    requires graph.Valid() && Consistent(graph, h) && start in graph.nodes && goal in graph.nodes && start != goal
    requires o.Solution? && Found(graph, h, start, goal, o)
    ensures GoalFirst(graph, h, start, goal, s) && o.totalCost == s.g[goal] && ReadsBack(s.cameFrom, start, goal, o.legs)
  {
    s := SearchFrom(graph, h, goal, Opening(h, start)).s;
    OpensInOrder(graph, h, start);
    SearchEndsFirst(graph, h, start, goal, Opening(h, start), map[start := []]);
  }

  /**
   Of all the least ways into the goal the search comes back by the one whose last leg
   leaves from the node popped first: the lowest estimate, then the least ground
   covered, then the id.
  */
  lemma EarliestTightLegWins(graph: Graph, h: string -> real, start: string, goal: string, o: Outcome, e: Edge, w: seq<Edge>)
    requires graph.Valid() && Consistent(graph, h) && start in graph.nodes && goal in graph.nodes && start != goal
    requires o.Solution? && Found(graph, h, start, goal, o)
    requires Walk(graph, o.legs, start, goal) && CostOf(o.legs) == o.totalCost
    requires LeastWayIn(graph, start, goal, o.totalCost, e, w)
    ensures LeavesFirst(h, o.legs, e, w)
  {
    var s := FoundIsReached(graph, h, start, goal, o);
    LastLegWins(graph, h, start, goal, s, o.legs, e, w);
  }

  lemma LastLegWins(graph: Graph, h: string -> real, start: string, goal: string, s: Search, legs: seq<Edge>, e: Edge, w: seq<Edge>)
    requires GoalFirst(graph, h, start, goal, s) && start != goal && Walk(graph, legs, start, goal)
    requires CostOf(legs) == s.g[goal] && ReadsBack(s.cameFrom, start, goal, legs) && LeastWayIn(graph, start, goal, s.g[goal], e, w)
    ensures LeavesFirst(h, legs, e, w)
  {
    var front, last := legs[..|legs| - 1], legs[|legs| - 1];
    assert LeastWayIn(graph, start, goal, s.g[goal], last, front);
    assert Weighed(h, s, last, front) && Weighed(h, s, e, w);
  }
}
