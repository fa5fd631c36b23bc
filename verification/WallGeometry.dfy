/** The footprint as walls with outward normals, and the openings along one wall. */
module WallGeometry {

  datatype Point = Point(x: real, z: real)

  function Minus(p: Point, q: Point): Point { Point(p.x - q.x, p.z - q.z) }
  function Plus(p: Point, q: Point): Point { Point(p.x + q.x, p.z + q.z) }
  function Cross(p: Point, q: Point): real { p.x * q.z - q.x * p.z }
  function Dot(p: Point, q: Point): real { p.x * q.x + p.z * q.z }

  // ------------------------------------------------------------ the shoelace

  /** A sum of one term per step along an open path. */
  function SumAlong(term: (Point, Point) -> real, path: seq<Point>): real {
    if |path| < 2 then 0.0 else term(path[0], path[1]) + SumAlong(term, path[1..])
  }

  /** The shoelace terms along an open path. */
  function PathSum(path: seq<Point>): real {
    SumAlong(Cross, path)
  }

  function Closed(ring: seq<Point>): seq<Point>
    requires ring != []
  {
    ring + [ring[0]]
  }

  /** Twice the signed area: positive when the ring runs counter-clockwise. */
  function Shoelace(ring: seq<Point>): real
    requires ring != []
  {
    PathSum(Closed(ring))
  }

  lemma {:induction false} SumJoin(term: (Point, Point) -> real, a: seq<Point>, p: Point, b: seq<Point>)
    ensures SumAlong(term, a + [p] + b) == SumAlong(term, a + [p]) + SumAlong(term, [p] + b)
  {
    if a == [] {
      assert a + [p] + b == [p] + b;
      assert SumAlong(term, a + [p]) == 0.0;
    } else {
      assert (a + [p] + b)[1..] == a[1..] + [p] + b;
      assert (a + [p])[1..] == a[1..] + [p];
      SumJoin(term, a[1..], p, b);
      assert (a + [p] + b)[1] == (a + [p])[1];
    }
  }

  lemma SumSnoc(term: (Point, Point) -> real, path: seq<Point>, p: Point, q: Point)
    ensures SumAlong(term, path + [p] + [q]) == SumAlong(term, path + [p]) + term(p, q)
  {
    SumJoin(term, path, p, [q]);
    assert ([p] + [q])[1..] == [q];
    assert SumAlong(term, [p] + [q]) == term(p, q);
  }

  lemma NextIndex(i: nat, n: nat)
    requires i < n
    ensures (i + 1) % n == if i + 1 < n then i + 1 else 0
  {
  }

  lemma NextTerm(term: (Point, Point) -> real, ring: seq<Point>, i: nat)
    requires i < |ring|
    ensures Closed(ring)[i] == ring[i] && Closed(ring)[i + 1] == ring[(i + 1) % |ring|]
    ensures SumAlong(term, Closed(ring)[..i + 2]) ==
            SumAlong(term, Closed(ring)[..i + 1]) + term(ring[i], ring[(i + 1) % |ring|])
  {
    NextIndex(i, |ring|);
    var p, q := Closed(ring)[i], Closed(ring)[i + 1];
    assert Closed(ring)[..i + 1] == Closed(ring)[..i] + [p];
    assert Closed(ring)[..i + 2] == Closed(ring)[..i] + [p] + [q];
    SumSnoc(term, Closed(ring)[..i], p, q);
  }

  /** The loop: one term per wall, the last wall closing the ring. */
  method SignedArea(ring: seq<Point>) returns (area: real)
    requires ring != []
    ensures area == Shoelace(ring)
  {
    area := 0.0;
    for i := 0 to |ring|
      invariant area == PathSum(Closed(ring)[..i + 1])
    {
      var p, q := ring[i], ring[(i + 1) % |ring|];
      NextTerm(Cross, ring, i);
      area := area + Cross(p, q);
    }
    assert Closed(ring)[..|ring| + 1] == Closed(ring);
  }

  function Shifted(path: seq<Point>, t: Point): (r: seq<Point>)
    ensures |r| == |path|
    ensures forall i :: 0 <= i < |r| ==> r[i] == Plus(path[i], t)
  {
    seq(|path|, i requires 0 <= i < |path| => Plus(path[i], t))
  }

  lemma {:induction false} ShiftedPath(path: seq<Point>, t: Point)
    requires path != []
    ensures PathSum(Shifted(path, t)) ==
      PathSum(path) + t.z * (path[0].x - path[|path| - 1].x) + t.x * (path[|path| - 1].z - path[0].z)
  {
    if |path| > 1 {
      assert Shifted(path, t)[1..] == Shifted(path[1..], t);
      ShiftedPath(path[1..], t);
      var p, q, l := path[0], path[1], path[|path| - 1];
      assert path[1..][0] == q && path[1..][|path| - 2] == l;
      ShiftedStep(p, q, l, t, PathSum(path[1..]), PathSum(Shifted(path[1..], t)));
    }
  }

  lemma ShiftedStep(p: Point, q: Point, l: Point, t: Point, rest: real, shifted: real)
    requires shifted == rest + t.z * (q.x - l.x) + t.x * (l.z - q.z)
    ensures Cross(Plus(p, t), Plus(q, t)) + shifted == Cross(p, q) + rest + t.z * (p.x - l.x) + t.x * (l.z - p.z)
  {
    ShiftedCross(p, q, t);
    Telescope(t.z, p.x, q.x, l.x);
    Telescope(t.x, l.z, q.z, p.z);
  }

  lemma ShiftedCross(p: Point, q: Point, t: Point)
    ensures Cross(Plus(p, t), Plus(q, t)) == Cross(p, q) + t.z * (p.x - q.x) + t.x * (q.z - p.z)
  {
  }

  lemma Telescope(k: real, a: real, b: real, c: real)
    ensures k * (a - b) + k * (b - c) == k * (a - c)
  {
  }

  /** The sum does not depend on where the parcel lies. */
  lemma ShoelaceIgnoresTranslation(ring: seq<Point>, t: Point)
    requires ring != []
    ensures Shoelace(Shifted(ring, t)) == Shoelace(ring)
  {
    assert Closed(Shifted(ring, t)) == Shifted(Closed(ring), t);
    ShiftedPath(Closed(ring), t);
  }

  /** Nor on which vertex the ring is listed from. */
  lemma ShoelaceIgnoresFirstVertex(a: seq<Point>, b: seq<Point>)
    requires a != [] && b != []
    ensures Shoelace(a + b) == Shoelace(b + a)
  {
    SplitAtVertex(a, b);
    SplitAtVertex(b, a);
  }

  lemma SplitAtVertex(a: seq<Point>, b: seq<Point>)
    requires a != [] && b != []
    ensures Shoelace(a + b) == PathSum(a + [b[0]]) + PathSum(b + [a[0]])
  {
    SumJoin(Cross, a, b[0], b[1..] + [a[0]]);
    assert a + [b[0]] + (b[1..] + [a[0]]) == Closed(a + b);
    assert [b[0]] + (b[1..] + [a[0]]) == b + [a[0]];
  }

  function Reversed(path: seq<Point>): (r: seq<Point>)
    ensures |r| == |path|
    ensures forall i :: 0 <= i < |r| ==> r[i] == path[|path| - 1 - i]
  {
    seq(|path|, i requires 0 <= i < |path| => path[|path| - 1 - i])
  }

  lemma CrossTurns(p: Point, q: Point)
    ensures Cross(q, p) == -Cross(p, q)
  {
  }

  lemma {:induction false} ReversedPath(path: seq<Point>)
    ensures PathSum(Reversed(path)) == -PathSum(path)
  {
    if |path| > 1 {
      var p, q := path[0], path[1];
      ReversedPath(path[1..]);
      assert Reversed(path) == Reversed(path[2..]) + [q] + [p];
      assert Reversed(path[1..]) == Reversed(path[2..]) + [q];
      SumSnoc(Cross, Reversed(path[2..]), q, p);
      CrossTurns(p, q);
    }
  }

  /** Listing the ring the other way round turns the sign. */
  lemma ShoelaceTurnsWithTheRing(ring: seq<Point>)
    requires ring != []
    ensures Shoelace(Reversed(ring)) == -Shoelace(ring)
  {
    ReversedPath(Closed(ring));
    if |ring| == 1 {
      assert Reversed(ring) == ring;
      assert Reversed(Closed(ring)) == Closed(ring);
    } else {
      var head, rest := [ring[0]], ring[1..];
      assert Reversed(Closed(ring)) == Closed(head + Reversed(rest));
      ShoelaceIgnoresFirstVertex(head, Reversed(rest));
      assert Reversed(ring) == Reversed(rest) + head;
    }
  }

  // ---------------------------------------------------------------- the walls

  function Winding(ring: seq<Point>): real
    requires ring != []
  {
    if Shoelace(ring) >= 0.0 then 1.0 else -1.0
  }

  /** A wall's normal before it is scaled to unit length: as long as the wall. */
  function Normal(p: Point, q: Point, winding: real): Point {
    Point((q.z - p.z) * winding, -(q.x - p.x) * winding)
  }

  /** The same wall, listed either way, faces the same side exactly when the ring has area. */
  lemma NormalIgnoresDirection(ring: seq<Point>, p: Point, q: Point)
    requires ring != [] && p != q
    ensures Normal(p, q, Winding(ring)) == Normal(q, p, Winding(Reversed(ring))) <==> Shoelace(ring) != 0.0
  {
    ShoelaceTurnsWithTheRing(ring);
  }

  lemma NormalIgnoresFirstVertexAndPlace(a: seq<Point>, b: seq<Point>, t: Point, p: Point, q: Point)
    requires a != [] && b != []
    ensures Normal(p, q, Winding(a + b)) == Normal(p, q, Winding(b + a))
    ensures Normal(p, q, Winding(a + b)) == Normal(Plus(p, t), Plus(q, t), Winding(Shifted(a + b, t)))
  {
    ShoelaceIgnoresFirstVertex(a, b);
    ShoelaceIgnoresTranslation(a + b, t);
  }

  /** Every vertex lies on one side of every wall, the same side throughout. */
  predicate Convex(ring: seq<Point>, side: real)
    requires ring != []
  {
    forall i, r :: 0 <= i < |ring| && r in ring ==>
      side * Cross(Minus(Closed(ring)[i + 1], Closed(ring)[i]), Minus(r, Closed(ring)[i])) >= 0.0
  }

  lemma SeenFromAVertex(p: Point, q: Point, r: Point)
    ensures Cross(Minus(p, r), Minus(q, r)) == Cross(Minus(q, p), Minus(r, p))
  {
  }

  /** Seen from `o`, the path only ever turns to one side. */
  ghost predicate OneSided(path: seq<Point>, o: Point, side: real) {
    forall i :: 0 <= i < |path| - 1 ==> Faces(path[i], path[i + 1], o, side)
  }

  predicate Faces(p: Point, q: Point, o: Point, side: real) {
    side * Cross(Minus(p, o), Minus(q, o)) >= 0.0
  }

  lemma {:induction false} OneSidedPath(path: seq<Point>, o: Point, side: real)
    requires OneSided(path, o, side)
    ensures side * PathSum(Shifted(path, Minus(Point(0.0, 0.0), o))) >= 0.0
  {
    if |path| > 1 {
      var back := Minus(Point(0.0, 0.0), o);
      assert Shifted(path, back)[1..] == Shifted(path[1..], back);
      assert Faces(path[0], path[1], o, side);
      assert OneSided(path[1..], o, side) by {
        forall i | 0 <= i < |path[1..]| - 1 ensures Faces(path[1..][i], path[1..][i + 1], o, side) {
          assert Faces(path[i + 1], path[i + 2], o, side);
        }
      }
      OneSidedPath(path[1..], o, side);
      OneSidedStep(path[0], path[1], o, side, PathSum(Shifted(path[1..], back)));
      assert Shifted(path, back)[0] == Plus(path[0], back) && Shifted(path, back)[1] == Plus(path[1], back);
    }
  }

  lemma OneSidedStep(p: Point, q: Point, o: Point, side: real, rest: real)
    requires Faces(p, q, o, side) && side * rest >= 0.0
    ensures var back := Minus(Point(0.0, 0.0), o);
            side * (Cross(Plus(p, back), Plus(q, back)) + rest) >= 0.0
  {
    var back := Minus(Point(0.0, 0.0), o);
    assert Plus(p, back) == Minus(p, o) && Plus(q, back) == Minus(q, o);
    Distribute(side, Cross(Minus(p, o), Minus(q, o)), rest);
  }

  lemma Distribute(k: real, a: real, b: real)
    ensures k * (a + b) == k * a + k * b
  {
  }

  /** Seen from `o` every wall runs the same way round: the ring is star-shaped about it. */
  ghost predicate StarShaped(ring: seq<Point>, o: Point, side: real)
    requires ring != []
  {
    OneSided(Closed(ring), o, side)
  }

  /** The shoelace sum finds the way a star-shaped ring runs round its centre. */
  lemma StarRingsWind(ring: seq<Point>, o: Point, side: real)
    requires ring != [] && StarShaped(ring, o, side)
    ensures side * Shoelace(ring) >= 0.0
  {
    var path := Closed(ring);
    OneSidedPath(path, o, side);
    var back := Minus(Point(0.0, 0.0), o);
    assert Closed(Shifted(ring, back)) == Shifted(path, back);
    ShoelaceIgnoresTranslation(ring, back);
  }

  /** A convex ring is star-shaped about each of its vertices. */
  lemma ConvexIsStarShaped(ring: seq<Point>, side: real, r: Point)
    requires ring != [] && Convex(ring, side) && r in ring
    ensures StarShaped(ring, r, side)
  {
    var path := Closed(ring);
    forall i | 0 <= i < |path| - 1 ensures Faces(path[i], path[i + 1], r, side) {
      ConvexFaces(ring, side, i, r);
    }
  }

  lemma ConvexRingsWind(ring: seq<Point>, side: real)
    requires ring != [] && Convex(ring, side)
    ensures side * Shoelace(ring) >= 0.0
  {
    ConvexIsStarShaped(ring, side, ring[0]);
    StarRingsWind(ring, ring[0], side);
  }

  const L_SHAPE := [Point(0.0, 0.0), Point(2.0, 0.0), Point(2.0, 1.0), Point(1.0, 1.0), Point(1.0, 2.0), Point(0.0, 2.0)]

  /** An L-shaped parcel is not convex, and is star-shaped about its corner room. */
  lemma LShapeIsStarShaped()
    ensures !Convex(L_SHAPE, 1.0) && StarShaped(L_SHAPE, Point(0.5, 0.5), 1.0)
  {
    LShapeTurnsIn();
    forall i | 0 <= i < |Closed(L_SHAPE)| - 1
      ensures Faces(Closed(L_SHAPE)[i], Closed(L_SHAPE)[i + 1], Point(0.5, 0.5), 1.0)
    {
      LWallFaces(i);
    }
  }

  lemma LShapeTurnsIn()
    ensures !Convex(L_SHAPE, 1.0)
  {
    var path := Closed(L_SHAPE);
    assert path[3] == Point(1.0, 1.0) && path[4] == Point(1.0, 2.0);
    assert L_SHAPE[1] in L_SHAPE;
    assert Cross(Minus(path[4], path[3]), Minus(L_SHAPE[1], path[3])) < 0.0;
  }

  /** Seen from that room every wall runs the same way round. */
  lemma LWallFaces(i: nat)
    requires i < 6
    ensures Faces(Closed(L_SHAPE)[i], Closed(L_SHAPE)[i + 1], Point(0.5, 0.5), 1.0)
  {
    var p, q := L_SHAPE[i], L_SHAPE[if i == 5 then 0 else i + 1];
    assert Closed(L_SHAPE)[i] == p && Closed(L_SHAPE)[i + 1] == q;
    LWallTurns(p, q);
  }

  lemma LWallTurns(p: Point, q: Point)
    requires (p == L_SHAPE[0] && q == L_SHAPE[1]) || (p == L_SHAPE[1] && q == L_SHAPE[2]) || (p == L_SHAPE[2] && q == L_SHAPE[3])
             || (p == L_SHAPE[3] && q == L_SHAPE[4]) || (p == L_SHAPE[4] && q == L_SHAPE[5]) || (p == L_SHAPE[5] && q == L_SHAPE[0])
    ensures Faces(p, q, Point(0.5, 0.5), 1.0)
  {
    var a, b := Minus(p, Point(0.5, 0.5)), Minus(q, Point(0.5, 0.5));
    assert Cross(a, b) >= 0.0;
  }

  lemma ConvexFaces(ring: seq<Point>, side: real, i: nat, r: Point)
    requires ring != [] && Convex(ring, side) && i < |ring| && r in ring
    ensures Faces(Closed(ring)[i], Closed(ring)[i + 1], r, side)
  {
    SeenFromAVertex(Closed(ring)[i], Closed(ring)[i + 1], r);
  }

  /**
   The outward normal is genuinely outward: on a ring with area that is star-shaped
   about a point, an L-shaped parcel about its corner room say, listed either way,
   that point lies in front of no wall.
  */
  lemma NormalsPointAway(ring: seq<Point>, o: Point, side: real, i: nat)
    requires ring != [] && (side == 1.0 || side == -1.0) && StarShaped(ring, o, side)
    requires Shoelace(ring) != 0.0 && i < |ring|
    ensures var p, q := Closed(ring)[i], Closed(ring)[i + 1];
      Dot(Minus(o, p), Normal(p, q, Winding(ring))) <= 0.0
  {
    StarRingsWind(ring, o, side);
    assert Winding(ring) == side;
    var p, q := Closed(ring)[i], Closed(ring)[i + 1];
    assert Faces(p, q, o, side);
    SeenFromAVertex(p, q, o);
    DotIsMinusCross(p, q, o, side);
  }

  /** On a convex ring, so no vertex lies in front of any wall. */
  lemma NormalsPointOutward(ring: seq<Point>, side: real, i: nat, r: Point)
    requires ring != [] && (side == 1.0 || side == -1.0) && Convex(ring, side)
    requires Shoelace(ring) != 0.0 && i < |ring| && r in ring
    ensures var p, q := Closed(ring)[i], Closed(ring)[i + 1];
      Dot(Minus(r, p), Normal(p, q, Winding(ring))) <= 0.0
  {
    ConvexIsStarShaped(ring, side, r);
    NormalsPointAway(ring, r, side, i);
  }

  lemma DotIsMinusCross(p: Point, q: Point, r: Point, side: real)
    ensures Dot(Minus(r, p), Normal(p, q, side)) == -(side * Cross(Minus(q, p), Minus(r, p)))
  {
    var dx, dz, ux, uz := q.x - p.x, q.z - p.z, r.x - p.x, r.z - p.z;
    assert ux * (dz * side) + uz * (-dx * side) == -(side * (dx * uz - ux * dz));
  }

  /** A wall too short to draw: under five centimetres. */
  predicate Short(p: Point, q: Point) {
    Dot(Minus(q, p), Minus(q, p)) < 0.0025
  }

  datatype Edge = Edge(a: Point, b: Point, normal: Point)

  /** One edge a step of the path: those `keep` says to draw, or with `kept` false the others. */
  function Walls(path: seq<Point>, wall: (Point, Point) -> Edge, keep: (Point, Point) -> bool, kept: bool): seq<Edge> {
    if |path| < 2 then []
    else
      var p, q := path[|path| - 2], path[|path| - 1];
      var before := Walls(path[..|path| - 1], wall, keep, kept);
      if keep(p, q) == kept then before + [wall(p, q)] else before
  }

  /** A wall as it is drawn: about the footprint's centre, with its outward normal. */
  function Drawn(centre: Point, winding: real): (Point, Point) -> Edge {
    (p: Point, q: Point) => Edge(Minus(p, centre), Minus(q, centre), Normal(p, q, winding))
  }

  function LongEnough(): (Point, Point) -> bool {
    (p: Point, q: Point) => !Short(p, q)
  }

  function SumOf(edges: seq<Edge>): Point {
    if edges == [] then Point(0.0, 0.0) else Plus(SumOf(edges[..|edges| - 1]), edges[|edges| - 1].normal)
  }

  /** How far a list of walls leads, end to end. */
  function Span(edges: seq<Edge>): Point {
    if edges == [] then Point(0.0, 0.0)
    else Plus(Span(edges[..|edges| - 1]), Minus(edges[|edges| - 1].b, edges[|edges| - 1].a))
  }

  lemma SpanAdded(edges: seq<Edge>, e: Edge)
    ensures Span(edges + [e]) == Plus(Span(edges), Minus(e.b, e.a))
  {
    assert (edges + [e])[..|edges|] == edges;
  }

  lemma OneMoreWall(front: seq<Point>, q: Point, wall: (Point, Point) -> Edge, keep: (Point, Point) -> bool, kept: bool)
    requires front != []
    ensures var p, before := front[|front| - 1], Walls(front, wall, keep, kept);
            Walls(front + [q], wall, keep, kept) == if keep(p, q) == kept then before + [wall(p, q)] else before
  {
    assert (front + [q])[..|front|] == front;
  }

  lemma OneStepOn(a: Point, b: Point, p: Point, q: Point, o: Point)
    requires Plus(a, b) == Minus(p, o)
    ensures Plus(Plus(a, Minus(q, p)), b) == Minus(q, o) == Plus(a, Plus(b, Minus(q, p)))
  {
  }

  /** Two lists of walls that lead, between them, from `o` to `q`. */
  predicate LeadTo(drawn: seq<Edge>, dropped: seq<Edge>, o: Point, q: Point) {
    Plus(Span(drawn), Span(dropped)) == Minus(q, o)
  }

  lemma DrawnOneStepOn(drawn: seq<Edge>, dropped: seq<Edge>, e: Edge, p: Point, q: Point, o: Point)
    requires LeadTo(drawn, dropped, o, p) && Follows(e, p, q)
    ensures LeadTo(drawn + [e], dropped, o, q)
  {
    OneStepOn(Span(drawn), Span(dropped), p, q, o);
    SpanAdded(drawn, e);
  }

  lemma DroppedOneStepOn(drawn: seq<Edge>, dropped: seq<Edge>, e: Edge, p: Point, q: Point, o: Point)
    requires LeadTo(drawn, dropped, o, p) && Follows(e, p, q)
    ensures LeadTo(drawn, dropped + [e], o, q)
  {
    OneStepOn(Span(drawn), Span(dropped), p, q, o);
    SpanAdded(dropped, e);
  }

  predicate Follows(e: Edge, p: Point, q: Point) {
    Minus(e.b, e.a) == Minus(q, p)
  }

  /** Each wall leads from its first point to its second. */
  ghost predicate Leads(wall: (Point, Point) -> Edge) {
    forall p, q :: Follows(wall(p, q), p, q)
  }

  /** Kept and dropped walls together lead from one end of the path to the other. */
  lemma {:induction false} SpansAlongPath(path: seq<Point>, wall: (Point, Point) -> Edge, keep: (Point, Point) -> bool)
    requires path != [] && Leads(wall)
    ensures LeadTo(Walls(path, wall, keep, true), Walls(path, wall, keep, false), path[0], path[|path| - 1])
  {
    if |path| == 1 {
      NoWallsLeadNowhere(Walls(path, wall, keep, true), Walls(path, wall, keep, false), path[0], path[0]);
    } else {
      SpansAlongPath(path[..|path| - 1], wall, keep);
      assert Follows(wall(path[|path| - 2], path[|path| - 1]), path[|path| - 2], path[|path| - 1]);
      SpansOneStepOn(path, wall, keep);
    }
  }

  lemma NoWallsLeadNowhere(drawn: seq<Edge>, dropped: seq<Edge>, o: Point, q: Point)
    requires drawn == [] == dropped && o == q
    ensures LeadTo(drawn, dropped, o, q)
  {
    assert Span(drawn) == Point(0.0, 0.0) == Span(dropped);
  }

  lemma SpansOneStepOn(path: seq<Point>, wall: (Point, Point) -> Edge, keep: (Point, Point) -> bool)
    requires |path| > 1
    requires var front := path[..|path| - 1];
             LeadTo(Walls(front, wall, keep, true), Walls(front, wall, keep, false), front[0], front[|front| - 1])
    requires Follows(wall(path[|path| - 2], path[|path| - 1]), path[|path| - 2], path[|path| - 1])
    ensures LeadTo(Walls(path, wall, keep, true), Walls(path, wall, keep, false), path[0], path[|path| - 1])
  {
    var p, q := path[|path| - 2], path[|path| - 1];
    var drawn, dropped := Walls(path[..|path| - 1], wall, keep, true), Walls(path[..|path| - 1], wall, keep, false);
    if keep(p, q) {
      DrawnOneStepOn(drawn, dropped, wall(p, q), p, q, path[0]);
    } else {
      DroppedOneStepOn(drawn, dropped, wall(p, q), p, q, path[0]);
    }
  }

  /** A quarter turn, outward for the winding. */
  function Turn(v: Point, winding: real): Point {
    Point(v.z * winding, -v.x * winding)
  }

  predicate Additive(turn: Point -> Point, u: Point, v: Point) {
    turn(Plus(u, v)) == Plus(turn(u), turn(v))
  }

  predicate Turned(e: Edge, turn: Point -> Point) {
    e.normal == turn(Minus(e.b, e.a))
  }

  /** A turn of the plane that keeps sums, and each wall's normal is its direction turned. */
  ghost predicate Turns(wall: (Point, Point) -> Edge, turn: Point -> Point) {
    && turn(Point(0.0, 0.0)) == Point(0.0, 0.0)
    && (forall u, v :: Additive(turn, u, v))
    && (forall p, q :: Turned(wall(p, q), turn))
  }

  lemma {:induction false} NormalsTurnTheSpan(path: seq<Point>, wall: (Point, Point) -> Edge, turn: Point -> Point,
                                              keep: (Point, Point) -> bool, kept: bool)
    requires Turns(wall, turn)
    ensures SumOf(Walls(path, wall, keep, kept)) == turn(Span(Walls(path, wall, keep, kept)))
  {
    if |path| > 1 {
      var front, q := path[..|path| - 1], path[|path| - 1];
      NormalsTurnTheSpan(front, wall, turn, keep, kept);
      TurnStep(Walls(front, wall, keep, kept), wall, turn, front[|front| - 1], q);
    }
  }

  lemma TurnStep(before: seq<Edge>, wall: (Point, Point) -> Edge, turn: Point -> Point, p: Point, q: Point)
    requires Turns(wall, turn) && SumOf(before) == turn(Span(before))
    ensures SumOf(before + [wall(p, q)]) == turn(Span(before + [wall(p, q)]))
  {
    var e := wall(p, q);
    SpanAdded(before, e);
    assert (before + [e])[..|before|] == before;
    assert Additive(turn, Span(before), Minus(e.b, e.a)) && Turned(e, turn);
  }

  lemma DrawnLeads(centre: Point, winding: real)
    ensures Leads(Drawn(centre, winding))
  {
    forall p, q ensures Follows(Drawn(centre, winding)(p, q), p, q) {
    }
  }

  lemma DrawnTurns(centre: Point, winding: real)
    ensures Turns(Drawn(centre, winding), v => Turn(v, winding))
  {
    var turn, wall := (v: Point) => Turn(v, winding), Drawn(centre, winding);
    forall u, v ensures Additive(turn, u, v) {
      Distribute(winding, u.z, v.z);
      Distribute(winding, -u.x, -v.x);
    }
    forall p, q ensures Turned(wall(p, q), turn) {
      assert Minus(wall(p, q).b, wall(p, q).a) == Minus(q, p);
    }
  }

  /** Length-weighted normals sum to zero exactly when the dropped walls lead nowhere. */
  lemma NormalsClose(ring: seq<Point>, centre: Point)
    requires ring != []
    ensures var wall := Drawn(centre, Winding(ring));
            var dropped := Walls(Closed(ring), wall, LongEnough(), false);
            && (SumOf(Walls(Closed(ring), wall, LongEnough(), true)) == Point(0.0, 0.0) <==> Span(dropped) == Point(0.0, 0.0))
            && (dropped == [] ==> SumOf(Walls(Closed(ring), wall, LongEnough(), true)) == Point(0.0, 0.0))
  {
    var w := Winding(ring);
    var wall := Drawn(centre, w);
    var kept := Span(Walls(Closed(ring), wall, LongEnough(), true));
    DrawnLeads(centre, w);
    SpansAlongPath(Closed(ring), wall, LongEnough());
    DrawnTurns(centre, w);
    NormalsTurnTheSpan(Closed(ring), wall, v => Turn(v, w), LongEnough(), true);
    TurnIsZero(kept, w);
  }

  lemma TurnIsZero(v: Point, winding: real)
    requires winding == 1.0 || winding == -1.0
    ensures Turn(v, winding) == Point(0.0, 0.0) <==> v == Point(0.0, 0.0)
  {
  }

  function Total(path: seq<Point>): Point {
    if path == [] then Point(0.0, 0.0) else Plus(Total(path[..|path| - 1]), path[|path| - 1])
  }

  function Centre(ring: seq<Point>): Point
    requires ring != []
  {
    Point(Total(ring).x / |ring| as real, Total(ring).z / |ring| as real)
  }

  function Times(n: nat, t: Point): Point {
    if n == 0 then Point(0.0, 0.0) else Plus(Times(n - 1, t), t)
  }

  lemma Regroup(a: Point, b: Point, v: Point, t: Point)
    ensures Plus(Plus(a, b), Plus(v, t)) == Plus(Plus(a, v), Plus(b, t))
  {
  }

  lemma {:induction false} TotalShifted(path: seq<Point>, t: Point)
    ensures Total(Shifted(path, t)) == Plus(Total(path), Times(|path|, t))
  {
    if path == [] {
      assert Shifted(path, t) == [];
    } else {
      var n := |path| - 1;
      TotalShifted(path[..n], t);
      assert Shifted(path, t)[..n] == Shifted(path[..n], t);
      Regroup(Total(path[..n]), Times(n, t), path[n], t);
    }
  }

  lemma OnceMore(x: real, k: real)
    ensures x * k + x == x * (k + 1.0)
  {
  }

  lemma TimesNext(n: nat, t: Point, s: Point)
    requires s == Point(t.x * n as real, t.z * n as real)
    ensures Plus(s, t) == Point(t.x * (n + 1) as real, t.z * (n + 1) as real)
  {
    OnceMore(t.x, n as real);
    OnceMore(t.z, n as real);
  }

  lemma {:induction false} TimesScales(n: nat, t: Point)
    ensures Times(n, t) == Point(t.x * n as real, t.z * n as real)
  {
    if n == 0 {
      Nothing(t.x);
      Nothing(t.z);
    } else {
      TimesScales(n - 1, t);
      TimesNext(n - 1, t, Times(n - 1, t));
    }
  }

  lemma Nothing(x: real)
    ensures x * 0 as real == 0.0
  {
  }

  lemma Balance(x: real, k: real)
    requires k > 0.0
    ensures x + (0.0 - x / k) * k == 0.0
  {
    assert x / k * k == x;
  }

  lemma TotalOfOne(p: Point)
    ensures Total([p]) == p
  {
    assert Total([p][..0]) == Point(0.0, 0.0);
  }

  lemma TotalLast(path: seq<Point>, p: Point)
    ensures Total(path + [p]) == Plus(Total(path), p)
  {
    assert (path + [p])[..|path|] == path;
  }

  /** The total of a list is the sum of its parts', down to one point's own coordinates. */
  lemma {:induction false} TotalAdds(a: seq<Point>, b: seq<Point>)
    requires b != []
    ensures Total(a + b) == Plus(Total(a), Total(b))
  {
    var front, last := b[..|b| - 1], b[|b| - 1];
    assert b == front + [last] && a + b == (a + front) + [last];
    TotalLast(a + front, last);
    TotalLast(front, last);
    if front == [] {
      assert a + front == a;
      TotalOfOne(last);
    } else {
      TotalAdds(a, front);
      PlusThrice(Total(a), Total(front), last);
    }
  }

  lemma PlusThrice(a: Point, b: Point, c: Point)
    ensures Plus(Plus(a, b), c) == Plus(a, Plus(b, c))
  {
  }

  /** About its centre a footprint balances: the vertices sum to the origin. */
  lemma CentredBalances(ring: seq<Point>)
    requires ring != []
    ensures Total(Shifted(ring, Minus(Point(0.0, 0.0), Centre(ring)))) == Point(0.0, 0.0)
  {
    var back := Minus(Point(0.0, 0.0), Centre(ring));
    TotalShifted(ring, back);
    TimesScales(|ring|, back);
    Balance(Total(ring).x, |ring| as real);
    Balance(Total(ring).z, |ring| as real);
  }

  method CentreOf(footprint: seq<Point>) returns (centre: Point)
    requires footprint != []
    ensures centre == Centre(footprint)
  {
    var sum := Point(0.0, 0.0);
    for i := 0 to |footprint|
      invariant sum == Total(footprint[..i])
    {
      assert footprint[..i + 1][..i] == footprint[..i];
      sum := Plus(sum, footprint[i]);
    }
    assert footprint[..|footprint|] == footprint;
    centre := Point(sum.x / |footprint| as real, sum.z / |footprint| as real);
  }

  /** The three loops: the mean, the winding, then one edge per wall worth drawing. */
  method EdgesOf(footprint: seq<Point>) returns (edges: seq<Edge>, centre: Point)
    requires footprint != []
    ensures centre == Centre(footprint)
    ensures edges == Walls(Closed(footprint), Drawn(centre, Winding(footprint)), LongEnough(), true)
  {
    centre := CentreOf(footprint);
    var area := SignedArea(footprint);
    var winding := if area >= 0.0 then 1.0 else -1.0;
    edges := [];
    ghost var ring := Closed(footprint);
    for i := 0 to |footprint|
      invariant edges == Walls(ring[..i + 1], Drawn(centre, winding), LongEnough(), true)
    {
      var p, q := footprint[i], footprint[(i + 1) % |footprint|];
      NextWall(footprint, i, Drawn(centre, winding), LongEnough(), true);
      if !LongEnough()(p, q) { continue; }
      edges := edges + [Drawn(centre, winding)(p, q)];
    }
    assert ring[..|footprint| + 1] == ring;
  }

  lemma NextWall(ring: seq<Point>, i: nat, wall: (Point, Point) -> Edge, keep: (Point, Point) -> bool, kept: bool)
    requires i < |ring|
    ensures var p, q, before := ring[i], ring[(i + 1) % |ring|], Walls(Closed(ring)[..i + 1], wall, keep, kept);
            Walls(Closed(ring)[..i + 2], wall, keep, kept) == if keep(p, q) == kept then before + [wall(p, q)] else before
  {
    NextIndex(i, |ring|);
    var front := Closed(ring)[..i + 1];
    assert Closed(ring)[..i + 2] == front + [Closed(ring)[i + 1]];
    OneMoreWall(front, Closed(ring)[i + 1], wall, keep, kept);
  }

  predicate StepKept(path: seq<Point>, keep: (Point, Point) -> bool, i: nat)
    requires i + 1 < |path|
  {
    keep(path[i], path[i + 1])
  }

  /** Which steps of a path are kept, in order. */
  function StepsKept(path: seq<Point>, keep: (Point, Point) -> bool): (from: seq<nat>)
    ensures forall j :: 0 <= j < |from| ==> from[j] + 1 < |path|
    ensures forall j, k :: 0 <= j < k < |from| ==> from[j] < from[k]
  {
    if |path| < 2 then []
    else
      var n := |path| - 1;
      var before := StepsKept(path[..n], keep);
      if keep(path[n - 1], path[n]) then before + [n - 1] else before
  }

  lemma {:induction false} StepsKeptExactly(path: seq<Point>, keep: (Point, Point) -> bool, i: nat)
    requires i + 1 < |path|
    ensures i in StepsKept(path, keep) <==> StepKept(path, keep, i)
  {
    var n := |path| - 1;
    if i + 1 < n {
      StepsKeptExactly(path[..n], keep, i);
    }
  }

  lemma {:induction false} WallsAreSteps(path: seq<Point>, wall: (Point, Point) -> Edge, keep: (Point, Point) -> bool, j: nat)
    ensures |Walls(path, wall, keep, true)| == |StepsKept(path, keep)|
    ensures j < |StepsKept(path, keep)| ==>
              var i := StepsKept(path, keep)[j]; Walls(path, wall, keep, true)[j] == wall(path[i], path[i + 1])
  {
    if |path| >= 2 {
      WallsAreSteps(path[..|path| - 1], wall, keep, j);
    }
  }

  /** The wall from `p` to `q` as it is drawn: moved by the centre, its normal the wall turned to the right or to the left. */
  predicate DrawsWall(e: Edge, p: Point, q: Point, centre: Point, right: bool) {
    && e.a.x == p.x - centre.x && e.a.z == p.z - centre.z
    && e.b.x == q.x - centre.x && e.b.z == q.z - centre.z
    && (right ==> e.normal.x == q.z - p.z && e.normal.z == p.x - q.x)
    && (!right ==> e.normal.x == p.z - q.z && e.normal.z == q.x - p.x)
  }

  /** Wall `i` is five centimetres long at least. */
  predicate WorthDrawing(ring: seq<Point>, i: nat)
    requires i < |ring|
  {
    var p, q := Closed(ring)[i], Closed(ring)[i + 1];
    (q.x - p.x) * (q.x - p.x) + (q.z - p.z) * (q.z - p.z) >= 0.05 * 0.05
  }

  /** The edges are the walls worth drawing, each once, in the order the ring lists them. */
  lemma EdgesAreTheLongWalls(ring: seq<Point>, centre: Point) returns (from: seq<nat>)
    requires ring != []
    ensures |from| == |Walls(Closed(ring), Drawn(centre, Winding(ring)), LongEnough(), true)|
    ensures forall j :: 0 <= j < |from| ==> from[j] < |ring|
    ensures forall j, k :: 0 <= j < k < |from| ==> from[j] < from[k]
    ensures forall i: nat | i < |ring| :: i in from <==> WorthDrawing(ring, i)
    ensures forall j :: 0 <= j < |from| ==>
              DrawsWall(Walls(Closed(ring), Drawn(centre, Winding(ring)), LongEnough(), true)[j],
                        Closed(ring)[from[j]], Closed(ring)[from[j] + 1], centre, Shoelace(ring) >= 0.0)
  {
    from := StepsKept(Closed(ring), LongEnough());
    WallsAreSteps(Closed(ring), Drawn(centre, Winding(ring)), LongEnough(), 0);
    forall i: nat | i < |ring| ensures i in from <==> WorthDrawing(ring, i) {
      LongEnoughExactly(ring, i);
    }
    forall j: nat | j < |from|
      ensures DrawsWall(Walls(Closed(ring), Drawn(centre, Winding(ring)), LongEnough(), true)[j],
                        Closed(ring)[from[j]], Closed(ring)[from[j] + 1], centre, Shoelace(ring) >= 0.0)
    {
      EdgeDraws(ring, centre, j);
    }
  }

  lemma LongEnoughExactly(ring: seq<Point>, i: nat)
    requires i < |ring|
    ensures i in StepsKept(Closed(ring), LongEnough()) <==> WorthDrawing(ring, i)
  {
    StepsKeptExactly(Closed(ring), LongEnough(), i);
  }

  lemma EdgeDraws(ring: seq<Point>, centre: Point, j: nat)
    requires ring != [] && j < |StepsKept(Closed(ring), LongEnough())|
    ensures |Walls(Closed(ring), Drawn(centre, Winding(ring)), LongEnough(), true)| == |StepsKept(Closed(ring), LongEnough())|
    ensures var i := StepsKept(Closed(ring), LongEnough())[j];
            DrawsWall(Walls(Closed(ring), Drawn(centre, Winding(ring)), LongEnough(), true)[j],
                      Closed(ring)[i], Closed(ring)[i + 1], centre, Shoelace(ring) >= 0.0)
  {
    var i := StepsKept(Closed(ring), LongEnough())[j];
    WallsAreSteps(Closed(ring), Drawn(centre, Winding(ring)), LongEnough(), j);
    DrawnDraws(Closed(ring)[i], Closed(ring)[i + 1], centre, Winding(ring));
  }

  lemma DrawnDraws(p: Point, q: Point, centre: Point, winding: real)
    requires winding == 1.0 || winding == -1.0
    ensures DrawsWall(Drawn(centre, winding)(p, q), p, q, centre, winding == 1.0)
  {
    assert Normal(p, q, winding) == Point((q.z - p.z) * winding, -(q.x - p.x) * winding);
    if winding == 1.0 {
      assert (q.z - p.z) * winding == q.z - p.z && -(q.x - p.x) * winding == p.x - q.x;
    } else {
      assert (q.z - p.z) * winding == p.z - q.z && -(q.x - p.x) * winding == q.x - p.x;
    }
  }

  // -------------------------------------------------------------- the openings

  /** A quoin left at each end. */
  const QUOIN := 0.6

  function Usable(length: real): real { length - 2.0 * QUOIN }

  function OpeningCount(length: real, pitch: real): nat
    requires pitch > 0.0 && Usable(length) >= 0.0
  {
    var whole := (Usable(length) / pitch).Floor;
    if whole > 1 then whole else 1
  }

  function Step(length: real, pitch: real): real
    requires pitch > 0.0 && Usable(length) >= 0.0
  {
    Usable(length) / OpeningCount(length, pitch) as real
  }

  function OffsetAt(usable: real, step: real, i: nat): real {
    -usable / 2.0 + step * (i as real + 0.5)
  }

  /** Where opening `i` is centred, from the middle of the wall. */
  function Offset(length: real, pitch: real, i: nat): real
    requires pitch > 0.0 && Usable(length) >= 0.0
  {
    OffsetAt(Usable(length), Step(length, pitch), i)
  }

  method OpeningOffsets(length: real, pitch: real, itemWidth: real) returns (offsets: seq<real>)
    requires pitch > 0.0 && itemWidth > 0.0
    ensures Usable(length) < itemWidth ==> offsets == []
    ensures Usable(length) >= itemWidth ==>
              && |offsets| == OpeningCount(length, pitch)
              && forall i :: 0 <= i < |offsets| ==> offsets[i] == Offset(length, pitch, i)
  {
    var usable := length - 1.2;
    offsets := [];
    if usable < itemWidth { return; }
    var whole := (usable / pitch).Floor;
    var count := if whole > 1 then whole else 1;
    var step := usable / count as real;
    for i := 0 to count
      invariant |offsets| == i
      invariant forall k :: 0 <= k < i ==> offsets[k] == OffsetAt(usable, step, k)
    {
      offsets := offsets + [OffsetAt(usable, step, i)];
    }
  }

  lemma StepIsWideEnough(length: real, pitch: real, itemWidth: real)
    requires 0.0 < itemWidth <= pitch && itemWidth <= Usable(length)
    ensures Step(length, pitch) >= itemWidth
    ensures Step(length, pitch) * OpeningCount(length, pitch) as real == Usable(length)
  {
    var usable, n := Usable(length), OpeningCount(length, pitch) as real;
    var ratio := usable / pitch;
    assert ratio * pitch == usable;
    if n > 1.0 {
      assert n <= ratio;
      assert (ratio - n) * pitch >= 0.0;
      assert n * pitch <= usable;
      AtLeast(usable, n, pitch);
    }
  }

  /** As many openings as the pitch lets into the usable length, but always one. */
  lemma CountExactly(length: real, pitch: real, n: nat)
    requires pitch > 0.0 && length >= 1.2
    ensures OpeningCount(length, pitch) == n <==>
            n >= 1 && (n == 1 || n as real * pitch <= length - 1.2) && length - 1.2 < (n + 1) as real * pitch
  {
    var ratio := Usable(length) / pitch;
    WholeTimes(ratio, n, Usable(length), pitch);
    WholeTimes(ratio, n + 1, Usable(length), pitch);
  }

  lemma WholeTimes(ratio: real, n: nat, usable: real, pitch: real)
    requires pitch > 0.0 && ratio == usable / pitch
    ensures n <= ratio.Floor <==> n as real * pitch <= usable
  {
    assert ratio * pitch == usable;
    if n as real <= ratio {
      assert (ratio - n as real) * pitch >= 0.0;
    } else {
      assert (n as real - ratio) * pitch > 0.0;
    }
  }

  lemma AtLeast(x: real, n: real, y: real)
    requires n > 0.0 && n * y <= x
    ensures x / n >= y
  {
    var q := x / n;
    assert q * n == x;
    if q < y {
      assert (y - q) * n > 0.0;
    }
  }

  /**
   Evenly spaced, strictly increasing, mirrored about the midpoint, no two
   overlapping, and clear of the quoin at either end.
  */
  lemma OpeningsFit(length: real, pitch: real, itemWidth: real, i: nat)
    requires 0.0 < itemWidth <= pitch && itemWidth <= Usable(length)
    requires i < OpeningCount(length, pitch)
    ensures var n := OpeningCount(length, pitch);
      && Offset(length, pitch, i + 1) - Offset(length, pitch, i) == Step(length, pitch) >= itemWidth
      && Offset(length, pitch, n - 1 - i) == -Offset(length, pitch, i)
      && -length / 2.0 + QUOIN <= Offset(length, pitch, i) - itemWidth / 2.0
      && Offset(length, pitch, i) + itemWidth / 2.0 <= length / 2.0 - QUOIN
  {
    StepIsWideEnough(length, pitch, itemWidth);
    var usable, n, step := Usable(length), OpeningCount(length, pitch), Step(length, pitch);
    NextOffset(usable, step, i);
    OffsetsMirror(usable, step, n, i);
    OffsetsClear(usable, step, itemWidth, i);
    OffsetsClear(usable, step, itemWidth, n - 1 - i);
  }

  lemma NextOffset(usable: real, step: real, i: nat)
    ensures OffsetAt(usable, step, i + 1) - OffsetAt(usable, step, i) == step
  {
    Distribute(step, i as real + 0.5, 1.0);
  }

  lemma OffsetsMirror(usable: real, step: real, n: nat, i: nat)
    requires step * n as real == usable && i < n
    ensures OffsetAt(usable, step, n - 1 - i) == -OffsetAt(usable, step, i)
  {
    var left, right := i as real + 0.5, (n - 1 - i) as real + 0.5;
    assert left + right == n as real;
    Distribute(step, left, right);
  }

  lemma OffsetsClear(usable: real, step: real, itemWidth: real, i: nat)
    requires 0.0 < itemWidth <= step
    ensures OffsetAt(usable, step, i) >= -usable / 2.0 + itemWidth / 2.0
  {
    assert step * i as real >= 0.0;
    Distribute(step, i as real, 0.5);
  }

  /** Neighbours keep clear of each other exactly when the step is at least as wide as the item. */
  lemma NeighboursClearExactly(length: real, pitch: real, itemWidth: real, i: nat)
    requires pitch > 0.0 && Usable(length) >= 0.0
    ensures Offset(length, pitch, i) + itemWidth / 2.0 <= Offset(length, pitch, i + 1) - itemWidth / 2.0 <==>
            Step(length, pitch) >= itemWidth
  {
    NextOffset(Usable(length), Step(length, pitch), i);
  }

  /** A pitch narrower than the item can make the step so: an item of 0.9 m every half metre. */
  lemma NarrowPitchOverlaps()
    ensures OpeningCount(3.2, 0.5) == 4 && Step(3.2, 0.5) == 0.5
    ensures Offset(3.2, 0.5, 0) + 0.9 / 2.0 > Offset(3.2, 0.5, 1) - 0.9 / 2.0
  {
    assert Usable(3.2) == 2.0;
    NeighboursClearExactly(3.2, 0.5, 0.9, 0);
  }
}
