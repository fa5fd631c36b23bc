/**
 Round the outside: how far it is from one approach to another, or to the apparatus,
 over the ring and the staging legs the builder made.
*/
module Perimeter {
  import opened Options
  import opened Pathfinding
  import opened EntryGraph

  // ------------------------------------------------ distances that may not exist

  function Nearer(a: Option<real>, b: Option<real>): Option<real> {
    if a.None? then b
    else if b.None? then a
    else Some(Min(a.value, b.value))
  }

  function Then(a: Option<real>, b: Option<real>): Option<real> {
    if a.None? || b.None? then None else Some(a.value + b.value)
  }

  predicate AtMost(a: Option<real>, b: Option<real>) {
    b.Some? ==> a.Some? && a.value <= b.value
  }

  // -------------------------------------------------------- least of a table

  /** The legs between some places, by their positions. */
  type Table = seq<seq<Option<real>>>

  predicate Square(steps: Table) {
    forall i :: 0 <= i < |steps| ==> |steps[i]| == |steps| && forall j :: 0 <= j < |steps| ==> steps[i][j].Some? ==> steps[i][j].value > 0.0
  }

  /** The least distance from one place to another passing only the first `k`. */
  function Via(steps: Table, i: nat, j: nat, k: nat): Option<real>
    requires Square(steps) && i < |steps| && j < |steps| && k <= |steps|
    decreases k
  {
    if k == 0 then if i == j then Some(0.0) else steps[i][j]
    else Nearer(Via(steps, i, j, k - 1), Then(Via(steps, i, k - 1, k - 1), Via(steps, k - 1, j, k - 1)))
  }

  lemma {:induction false} ViaNotNegative(steps: Table, i: nat, j: nat, k: nat)
    requires Square(steps) && i < |steps| && j < |steps| && k <= |steps|
    ensures Via(steps, i, j, k).Some? ==> Via(steps, i, j, k).value >= 0.0
    decreases k
  {
    if k > 0 {
      ViaNotNegative(steps, i, j, k - 1);
      ViaNotNegative(steps, i, k - 1, k - 1);
      ViaNotNegative(steps, k - 1, j, k - 1);
    }
  }

  lemma {:induction false} ViaItself(steps: Table, i: nat, k: nat)
    requires Square(steps) && i < |steps| && k <= |steps|
    ensures Via(steps, i, i, k) == Some(0.0)
    decreases k
  {
    if k > 0 {
      ViaItself(steps, i, k - 1);
      ViaNotNegative(steps, i, k - 1, k - 1);
      ViaNotNegative(steps, k - 1, i, k - 1);
    }
  }

  lemma ThroughTheNew(ij: Option<real>, im: Option<real>, mj: Option<real>, ix: Option<real>, xj: Option<real>, xm: Option<real>, mx: Option<real>)
    requires AtMost(ij, Then(im, mj)) && AtMost(ix, Then(im, mx)) && AtMost(xj, Then(xm, mj))
    requires (xm.Some? ==> xm.value >= 0.0) && (mx.Some? ==> mx.value >= 0.0)
    ensures AtMost(Nearer(ij, Then(ix, xj)), Then(Nearer(im, Then(ix, xm)), Nearer(mj, Then(mx, xj))))
  {
  }

  /** Going by a place is never shorter. */
  lemma {:induction false} ViaThrough(steps: Table, i: nat, m: nat, j: nat, k: nat)
    requires Square(steps) && i < |steps| && j < |steps| && m < k <= |steps|
    ensures AtMost(Via(steps, i, j, k), Then(Via(steps, i, m, k), Via(steps, m, j, k)))
    decreases k
  {
    var x := k - 1;
    if m == x {
      ViaItself(steps, x, x);
    } else {
      ViaThrough(steps, i, m, j, x);
      ViaThrough(steps, i, m, x, x);
      ViaThrough(steps, x, m, j, x);
      ViaNotNegative(steps, x, m, x);
      ViaNotNegative(steps, m, x, x);
      ThroughTheNew(Via(steps, i, j, x), Via(steps, i, m, x), Via(steps, m, j, x), Via(steps, i, x, x),
                    Via(steps, x, j, x), Via(steps, x, m, x), Via(steps, m, x, x));
    }
  }

  lemma {:induction false} ViaStep(steps: Table, i: nat, j: nat, k: nat)
    requires Square(steps) && i < |steps| && j < |steps| && k <= |steps|
    ensures AtMost(Via(steps, i, j, k), steps[i][j])
    decreases k
  {
    if k > 0 {
      ViaStep(steps, i, j, k - 1);
    }
  }

  /** A walk between two of the places that costs just the distance. */
  ghost predicate Runs(graph: Graph, ids: seq<string>, i: nat, j: nat, legs: seq<Edge>, d: Option<real>)
    requires i < |ids| && j < |ids|
  {
    d.Some? && Walk(graph, legs, ids[i], ids[j]) && CostOf(legs) == d.value
  }

  /** Every leg of the table is walked. */
  ghost predicate Walkable(graph: Graph, ids: seq<string>, steps: Table) {
    Square(steps) && |ids| == |steps|
    && forall i, j :: 0 <= i < |ids| && 0 <= j < |ids| && steps[i][j].Some? ==> exists legs :: Runs(graph, ids, i, j, legs, steps[i][j])
  }

  lemma RunsOn(graph: Graph, ids: seq<string>, i: nat, m: nat, j: nat, u: seq<Edge>, v: seq<Edge>, c: Option<real>, d: Option<real>)
    requires i < |ids| && j < |ids| && m < |ids| && Runs(graph, ids, i, m, u, c) && Runs(graph, ids, m, j, v, d)
    ensures Runs(graph, ids, i, j, u + v, Then(c, d))
  {
    WalkAppends(graph, u, v, ids[i], ids[m], ids[j]);
  }

  /** The distance is walked. */
  lemma {:induction false} ViaRuns(graph: Graph, ids: seq<string>, steps: Table, i: nat, j: nat, k: nat) returns (legs: seq<Edge>)
    requires Walkable(graph, ids, steps) && i < |steps| && j < |steps| && k <= |steps| && Via(steps, i, j, k).Some?
    ensures Runs(graph, ids, i, j, legs, Via(steps, i, j, k))
    decreases k
  {
    if k == 0 && i == j {
      legs := [];
    } else if k == 0 {
      legs :| Runs(graph, ids, i, j, legs, steps[i][j]);
    } else if Via(steps, i, j, k) == Via(steps, i, j, k - 1) {
      legs := ViaRuns(graph, ids, steps, i, j, k - 1);
    } else {
      var u := ViaRuns(graph, ids, steps, i, k - 1, k - 1);
      var v := ViaRuns(graph, ids, steps, k - 1, j, k - 1);
      RunsOn(graph, ids, i, k - 1, j, u, v, Via(steps, i, k - 1, k - 1), Via(steps, k - 1, j, k - 1));
      legs := u + v;
    }
  }

  // ---------------------------------------------------------------- the spots

  /** The approaches by their walls, and after them the apparatus. */
  function Spot(b: Building, i: nat): Place
    requires i <= |b.walls|
  {
    if i < |b.walls| then Approach(i) else Staging
  }

  predicate Linked(b: Building, p: Place, q: Place) {
    Joined(b, Link(p, q)) || Joined(b, Link(q, p))
  }

  /** The leg from one spot to another, if the builder made one. */
  function Step(b: Building, hypot: (real, real) -> real, i: nat, j: nat): Option<real>
    requires ValidBuilding(b) && i <= |b.walls| && j <= |b.walls|
  {
    var p, q := Spot(b, i), Spot(b, j);
    if Linked(b, p, q) && Span(b, hypot, p, q) > 0.0 then Some(Span(b, hypot, p, q)) else None
  }

  function Steps(b: Building, hypot: (real, real) -> real): (steps: Table)
    requires ValidBuilding(b)
    ensures Square(steps) && |steps| == |b.walls| + 1
    ensures forall i, j :: 0 <= i <= |b.walls| && 0 <= j <= |b.walls| ==> steps[i][j] == Step(b, hypot, i, j)
  {
    var n := |b.walls| + 1;
    seq(n, i requires 0 <= i < n && ValidBuilding(b) => seq(n, j requires 0 <= j < n && ValidBuilding(b) => Step(b, hypot, i, j)))
  }

  function SpotIds(b: Building): (ids: seq<string>)
    requires ValidBuilding(b)
    ensures |ids| == |b.walls| + 1 && forall i :: 0 <= i <= |b.walls| ==> ids[i] == Name(b, Spot(b, i))
  {
    seq(|b.walls| + 1, i requires 0 <= i <= |b.walls| && ValidBuilding(b) => Name(b, Spot(b, i)))
  }

  /** How far it is round the outside from one spot to another, if there is a way. */
  function Around(b: Building, hypot: (real, real) -> real, i: nat, j: nat): Option<real>
    requires ValidBuilding(b) && i <= |b.walls| && j <= |b.walls|
  {
    Via(Steps(b, hypot), i, j, |b.walls| + 1)
  }

  lemma AroundItself(b: Building, hypot: (real, real) -> real, i: nat)
    requires ValidBuilding(b) && i <= |b.walls|
    ensures Around(b, hypot, i, i) == Some(0.0)
  {
    ViaItself(Steps(b, hypot), i, |b.walls| + 1);
  }

  lemma AroundNotNegative(b: Building, hypot: (real, real) -> real, i: nat, j: nat)
    requires ValidBuilding(b) && i <= |b.walls| && j <= |b.walls|
    ensures Around(b, hypot, i, j).Some? ==> Around(b, hypot, i, j).value >= 0.0
  {
    ViaNotNegative(Steps(b, hypot), i, j, |b.walls| + 1);
  }

  /** One leg more is never a short cut. */
  lemma AroundThenStep(b: Building, hypot: (real, real) -> real, i: nat, m: nat, j: nat)
    requires ValidBuilding(b) && i <= |b.walls| && j <= |b.walls| && m <= |b.walls|
    ensures AtMost(Around(b, hypot, i, j), Then(Around(b, hypot, i, m), Step(b, hypot, m, j)))
  {
    var steps := Steps(b, hypot);
    ViaThrough(steps, i, m, j, |b.walls| + 1);
    ViaStep(steps, m, j, |b.walls| + 1);
  }

  lemma LinkedIsBuilt(b: Building, hypot: (real, real) -> real, p: Place, q: Place)
    requires ValidBuilding(b) && Hypotenuse(hypot) && Linked(b, p, q) && Span(b, hypot, p, q) > 0.0
    ensures LegOf(b, hypot, p, q) in GraphOf(b, hypot).edges
  {
    SpanEitherWay(b, hypot, p, q);
    LegIsBuilt(b, hypot, if Joined(b, Link(p, q)) then Link(p, q) else Link(q, p), LegOf(b, hypot, p, q));
  }

  lemma StepRuns(b: Building, hypot: (real, real) -> real, i: nat, j: nat) returns (legs: seq<Edge>)
    requires ValidBuilding(b) && Hypotenuse(hypot) && i <= |b.walls| && j <= |b.walls| && Step(b, hypot, i, j).Some?
    ensures Runs(GraphOf(b, hypot), SpotIds(b), i, j, legs, Step(b, hypot, i, j))
  {
    var e := LegOf(b, hypot, Spot(b, i), Spot(b, j));
    LinkedIsBuilt(b, hypot, Spot(b, i), Spot(b, j));
    OneLegWalks(GraphOf(b, hypot), e);
    legs := [e];
  }

  /** And it is walked. */
  lemma AroundRuns(b: Building, hypot: (real, real) -> real, i: nat, j: nat) returns (legs: seq<Edge>)
    requires ValidBuilding(b) && Hypotenuse(hypot) && i <= |b.walls| && j <= |b.walls| && Around(b, hypot, i, j).Some?
    ensures Walk(GraphOf(b, hypot), legs, Name(b, Spot(b, i)), Name(b, Spot(b, j)))
    ensures CostOf(legs) == Around(b, hypot, i, j).value
  {
    var graph: Graph, ids: seq<string>, steps: Table := GraphOf(b, hypot), SpotIds(b), Steps(b, hypot);
    forall x, y | 0 <= x < |ids| && 0 <= y < |ids| && steps[x][y].Some?
      ensures exists way :: Runs(graph, ids, x, y, way, steps[x][y])
    {
      var way := StepRuns(b, hypot, x, y);
    }
    legs := ViaRuns(graph, ids, steps, i, j, |b.walls| + 1);
  }
}
