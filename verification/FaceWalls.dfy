/**
 Which edge of the measured footprint each fireground face is: the longest within the
 tolerance of the face's bearing. It is the only source of the walls a building has.
*/
module FaceWalls {
  import opened Options
  import opened Pathfinding
  import opened EntryGraph

  datatype Corner = Corner(x: real, y: real)

  /** A ring of corners, counter-clockwise, in metres east and north. */
  type Ring = seq<Corner>

  const FACE_BEARING_TOLERANCE_DEG := 55.0

  /** The compass bearing of a direction, clockwise from north, as the arc tangent gives it. */
  ghost predicate Compass(bearing: (real, real) -> real) {
    && (forall x, y :: 0.0 <= bearing(x, y) < 360.0)
    && (forall x, y, k :: k > 0.0 ==> SameWay(bearing, x, y, k))
    && bearing(0.0, 1.0) == 0.0 && bearing(1.0, 0.0) == 90.0 && bearing(1.0, -1.0) == 135.0
    && bearing(0.0, -1.0) == 180.0 && bearing(-1.0, 0.0) == 270.0
  }

  predicate SameWay(bearing: (real, real) -> real, x: real, y: real, k: real) {
    bearing(k * x, k * y) == bearing(x, y)
  }

  /** `(a + 90 k) % 360` */
  function FaceBearing(a: real, k: nat): real {
    var turned := a + 90.0 * k as real;
    if turned >= 360.0 then turned - 360.0 else turned
  }

  /** `abs((a - b + 180) % 360 - 180)`, for two bearings. */
  function AngularDistance(a: real, b: real): real {
    var d := a - b + 180.0;
    var wrapped := if d < 0.0 then d + 360.0 else if d >= 360.0 then d - 360.0 else d;
    if wrapped < 180.0 then 180.0 - wrapped else wrapped - 180.0
  }

  /** A face looks a quarter turn clockwise from the one before it, and the angle between two bearings is the lesser way round. */
  lemma BearingsTurn(a: real, b: real, k: nat)
    requires 0.0 <= a < 360.0 && 0.0 <= b < 360.0 && k < 4
    ensures 0.0 <= FaceBearing(a, k) < 360.0
    ensures FaceBearing(a, k) == a + 90.0 * k as real || FaceBearing(a, k) == a + 90.0 * k as real - 360.0
    ensures var apart := if a < b then b - a else a - b;
            AngularDistance(a, b) == if apart <= 180.0 then apart else 360.0 - apart
  {
  }

  // ---------------------------------------------------------------- the edges

  function End(ring: Ring, i: nat): Corner
    requires i < |ring|
  {
    ring[if i + 1 == |ring| then 0 else i + 1]
  }

  function Length(ring: Ring, hypot: (real, real) -> real, i: nat): real
    requires i < |ring|
  {
    hypot(End(ring, i).x - ring[i].x, End(ring, i).y - ring[i].y)
  }

  /** The bearing an edge faces: the edge turned a quarter turn to the right. */
  function Facing(ring: Ring, bearing: (real, real) -> real, i: nat): real
    requires i < |ring|
  {
    bearing(End(ring, i).y - ring[i].y, -(End(ring, i).x - ring[i].x))
  }

  /** Alpha's edge among the first `n`: the longest, the lower bearing on a tie. */
  function AlphaEdge(ring: Ring, hypot: (real, real) -> real, bearing: (real, real) -> real, n: nat): (best: Option<nat>)
    requires n <= |ring|
    ensures best.Some? ==> best.value < n && Length(ring, hypot, best.value) > 0.0
  {
    if n == 0 then None
    else
      var best, i := AlphaEdge(ring, hypot, bearing, n - 1), n - 1;
      if Length(ring, hypot, i) > 0.0
         && (best.None? || Length(ring, hypot, i) > Length(ring, hypot, best.value)
             || (Length(ring, hypot, i) == Length(ring, hypot, best.value) && Facing(ring, bearing, i) < Facing(ring, bearing, best.value)))
      then Some(i) else best
  }

  predicate Qualifies(ring: Ring, hypot: (real, real) -> real, bearing: (real, real) -> real, face: real, i: nat)
    requires i < |ring|
  {
    Length(ring, hypot, i) > 0.0 && AngularDistance(Facing(ring, bearing, i), face) <= FACE_BEARING_TOLERANCE_DEG
  }

  /** A face's edge among the first `n`: of those that qualify the longest, the earlier on a tie. */
  function FaceEdge(ring: Ring, hypot: (real, real) -> real, bearing: (real, real) -> real, face: real, n: nat): (best: Option<nat>)
    requires n <= |ring|
    ensures best.Some? ==> best.value < n && Qualifies(ring, hypot, bearing, face, best.value)
  {
    if n == 0 then None
    else
      var best, i := FaceEdge(ring, hypot, bearing, face, n - 1), n - 1;
      if Qualifies(ring, hypot, bearing, face, i)
         && (best.None? || Length(ring, hypot, i) > Length(ring, hypot, best.value))
      then Some(i) else best
  }

  /** A longer edge, or as long and facing no higher a bearing. */
  predicate Leads(ring: Ring, hypot: (real, real) -> real, bearing: (real, real) -> real, i: nat, j: nat)
    requires i < |ring| && j < |ring|
  {
    Length(ring, hypot, i) > Length(ring, hypot, j)
    || (Length(ring, hypot, i) == Length(ring, hypot, j) && Facing(ring, bearing, i) <= Facing(ring, bearing, j))
  }

  lemma {:induction false} AlphaLeads(ring: Ring, hypot: (real, real) -> real, bearing: (real, real) -> real, n: nat)
    requires n <= |ring|
    ensures var best := AlphaEdge(ring, hypot, bearing, n);
            forall j :: 0 <= j < n && Length(ring, hypot, j) > 0.0 ==> best.Some? && Leads(ring, hypot, bearing, best.value, j)
  {
    if n > 0 {
      AlphaLeads(ring, hypot, bearing, n - 1);
    }
  }

  /**
   There is an Alpha exactly when the ring has three corners and an edge of some length;
   its bearing is then that of an edge no other is longer than, nor as long with a lower one.
  */
  lemma AlphaExactly(ring: Ring, hypot: (real, real) -> real, bearing: (real, real) -> real)
    ensures AlphaBearing(ring, hypot, bearing).Some? <==>
            |ring| >= 3 && exists i :: 0 <= i < |ring| && Length(ring, hypot, i) > 0.0
    ensures forall alpha :: AlphaBearing(ring, hypot, bearing) == Some(alpha) <==>
              |ring| >= 3 && exists i :: 0 <= i < |ring| && Length(ring, hypot, i) > 0.0 && LeadsAll(ring, hypot, bearing, i)
                                         && alpha == Facing(ring, bearing, i)
  {
    AlphaLeads(ring, hypot, bearing, |ring|);
  }

  predicate LeadsAll(ring: Ring, hypot: (real, real) -> real, bearing: (real, real) -> real, i: nat)
    requires i < |ring|
  {
    forall j :: 0 <= j < |ring| && Length(ring, hypot, j) > 0.0 ==> Leads(ring, hypot, bearing, i, j)
  }

  /** A longer edge, or as long and earlier. */
  predicate Outranks(ring: Ring, hypot: (real, real) -> real, i: nat, j: nat)
    requires i < |ring| && j < |ring|
  {
    Length(ring, hypot, i) > Length(ring, hypot, j) || (Length(ring, hypot, i) == Length(ring, hypot, j) && i <= j)
  }

  lemma {:induction false} FaceEdgeOutranks(ring: Ring, hypot: (real, real) -> real, bearing: (real, real) -> real, face: real, n: nat)
    requires n <= |ring|
    ensures var best := FaceEdge(ring, hypot, bearing, face, n);
            forall j :: 0 <= j < n && Qualifies(ring, hypot, bearing, face, j) ==> best.Some? && Outranks(ring, hypot, best.value, j)
  {
    if n > 0 {
      FaceEdgeOutranks(ring, hypot, bearing, face, n - 1);
    }
  }

  predicate BestFor(ring: Ring, hypot: (real, real) -> real, bearing: (real, real) -> real, face: real, i: nat)
    requires i < |ring|
  {
    && Length(ring, hypot, i) > 0.0 && AngularDistance(Facing(ring, bearing, i), face) <= 55.0
    && forall j :: 0 <= j < |ring| && Length(ring, hypot, j) > 0.0 && AngularDistance(Facing(ring, bearing, j), face) <= 55.0
                   ==> Outranks(ring, hypot, i, j)
  }

  /** A face is bound to an edge exactly when that one is within the tolerance and none such is longer, or as long and earlier. */
  lemma BoundExactly(ring: Ring, hypot: (real, real) -> real, bearing: (real, real) -> real, face: real, i: nat)
    requires i < |ring|
    ensures FaceEdge(ring, hypot, bearing, face, |ring|) == Some(i) <==> BestFor(ring, hypot, bearing, face, i)
  {
    FaceEdgeOutranks(ring, hypot, bearing, face, |ring|);
    var edge := FaceEdge(ring, hypot, bearing, face, |ring|);
    assert BestFor(ring, hypot, bearing, face, i) ==>
        Qualifies(ring, hypot, bearing, face, i) && Outranks(ring, hypot, edge.value, i) && Outranks(ring, hypot, i, edge.value);
    forall j: nat | j < |ring| && edge.Some? && Length(ring, hypot, j) > 0.0 && AngularDistance(Facing(ring, bearing, j), face) <= 55.0
      ensures Outranks(ring, hypot, edge.value, j)
    {
      assert Qualifies(ring, hypot, bearing, face, j);
    }
  }

  // ---------------------------------------------------------------- the walls

  const GROUND_FACES := [Alpha, Bravo, Charlie, Delta]

  /** A face on its edge: the midpoint, and the unit normal. */
  function WallOn(ring: Ring, hypot: (real, real) -> real, i: nat, f: Face, crossing: Option<seq<real>>): Wall
    requires i < |ring| && Length(ring, hypot, i) > 0.0
  {
    var a, b, length := ring[i], End(ring, i), Length(ring, hypot, i);
    Wall(f, (a.x + b.x) / 2.0, (a.y + b.y) / 2.0, (b.y - a.y) / length, -(b.x - a.x) / length, crossing)
  }

  /** What the record says of each face: the weights on going through it, or that it is barred. */
  type Crossings = Face -> Option<seq<real>>

  /** The first `k` faces, those that match an edge. */
  function Bind(ring: Ring, hypot: (real, real) -> real, bearing: (real, real) -> real, crossing: Crossings, alpha: real, k: nat): seq<Wall>
    requires k <= 4
  {
    if k == 0 then []
    else
      var f, before := GROUND_FACES[k - 1], Bind(ring, hypot, bearing, crossing, alpha, k - 1);
      match FaceEdge(ring, hypot, bearing, FaceBearing(alpha, k - 1), |ring|)
      case None => before
      case Some(i) => before + [WallOn(ring, hypot, i, f, crossing(f))]
  }

  /** Alpha's bearing, if the ring is one: three corners, and an edge of some length. */
  function AlphaBearing(ring: Ring, hypot: (real, real) -> real, bearing: (real, real) -> real): Option<real> {
    var edge := AlphaEdge(ring, hypot, bearing, |ring|);
    if |ring| < 3 || edge.None? then None else Some(Facing(ring, bearing, edge.value))
  }

  function WallsOf(ring: Ring, hypot: (real, real) -> real, bearing: (real, real) -> real, crossing: Crossings): Option<seq<Wall>> {
    match AlphaBearing(ring, hypot, bearing)
    case None => None
    case Some(alpha) => Some(Bind(ring, hypot, bearing, crossing, alpha, 4))
  }

  /** `face_geometries`: the longest edge gives Alpha's bearing. */
  method FindAlpha(ring: Ring, hypot: (real, real) -> real, bearing: (real, real) -> real) returns (alpha: Option<real>)
    ensures alpha == AlphaBearing(ring, hypot, bearing)
  {
    if |ring| < 3 { return None; }
    var best: Option<nat> := None;
    for i := 0 to |ring|
      invariant best == AlphaEdge(ring, hypot, bearing, i)
    {
      var length := Length(ring, hypot, i);
      if length <= 0.0 { continue; }
      if best.None? || length > Length(ring, hypot, best.value)
         || (length == Length(ring, hypot, best.value) && Facing(ring, bearing, i) < Facing(ring, bearing, best.value)) {
        best := Some(i);
      }
    }
    if best.None? { return None; }
    alpha := Some(Facing(ring, bearing, best.value));
  }

  /** One face's edge: the first of the longest within the tolerance. */
  method FindEdge(ring: Ring, hypot: (real, real) -> real, bearing: (real, real) -> real, face: real) returns (best: Option<nat>)
    ensures best == FaceEdge(ring, hypot, bearing, face, |ring|)
  {
    best := None;
    for i := 0 to |ring|
      invariant best == FaceEdge(ring, hypot, bearing, face, i)
    {
      var length := Length(ring, hypot, i);
      if length <= 0.0 { continue; }
      if AngularDistance(Facing(ring, bearing, i), face) > FACE_BEARING_TOLERANCE_DEG { continue; }
      if best.None? || length > Length(ring, hypot, best.value) {
        best := Some(i);
      }
    }
  }

  /** `_walls`: each face in turn, on its edge if it has one. */
  method Walls(ring: Ring, hypot: (real, real) -> real, bearing: (real, real) -> real, crossing: Crossings)
    returns (walls: Option<seq<Wall>>)
    ensures walls == WallsOf(ring, hypot, bearing, crossing)
  {
    var alpha := FindAlpha(ring, hypot, bearing);
    if alpha.None? { return None; }
    var found: seq<Wall> := [];
    for k := 0 to 4
      invariant found == Bind(ring, hypot, bearing, crossing, alpha.value, k)
    {
      var edge := FindEdge(ring, hypot, bearing, FaceBearing(alpha.value, k));
      if edge.None? { continue; }
      found := found + [WallOn(ring, hypot, edge.value, GROUND_FACES[k], crossing(GROUND_FACES[k]))];
    }
    walls := Some(found);
  }

  // ------------------------------------------------------------- what is found

  /** The normals a building's walls can have: each within the tolerance of its face's bearing, a quarter turn from the last. */
  ghost predicate Oriented(walls: seq<Wall>, bearing: (real, real) -> real, alpha: real) {
    forall i: nat :: i < |walls| ==>
      AngularDistance(bearing(walls[i].nx, walls[i].ny), FaceBearing(alpha, Rank(walls[i].face))) <= FACE_BEARING_TOLERANCE_DEG
  }

  lemma UnitNormal(dx: real, dy: real, length: real)
    requires length > 0.0 && length * length == dx * dx + dy * dy
    ensures (dy / length) * (dy / length) + (-dx / length) * (-dx / length) == 1.0
  {
    var u, v, x := dy / length, -dx / length, -dx;
    Scale(u, dy, length);
    Scale(v, x, length);
    assert x * x == dx * dx;
    Summed(u * u, v * v, length, dy * dy, x * x);
  }

  lemma Scale(u: real, x: real, length: real)
    requires length > 0.0 && u == x / length
    ensures (u * u) * (length * length) == x * x
  {
    assert u * length == x;
    ProductSquared(u, length);
  }

  lemma Summed(a: real, b: real, length: real, p: real, q: real)
    requires length > 0.0 && a * (length * length) == p && b * (length * length) == q && p + q == length * length
    ensures a + b == 1.0
  {
    assert ((a + b - 1.0) * length) * length == 0.0;
    NoFactor((a + b - 1.0) * length, length);
    NoFactor(a + b - 1.0, length);
  }

  lemma NoFactor(x: real, y: real)
    requires y > 0.0 && x * y == 0.0
    ensures x == 0.0
  {
  }

  lemma SameBearing(ring: Ring, hypot: (real, real) -> real, bearing: (real, real) -> real, i: nat, f: Face, crossing: Option<seq<real>>)
    requires i < |ring| && Length(ring, hypot, i) > 0.0 && Compass(bearing)
    ensures var w := WallOn(ring, hypot, i, f, crossing); bearing(w.nx, w.ny) == Facing(ring, bearing, i)
  {
    var a, b, length := ring[i], End(ring, i), Length(ring, hypot, i);
    var x, y := b.y - a.y, -(b.x - a.x);
    Divided(x, length);
    Divided(y, length);
    Rescaled(bearing, x, y, 1.0 / length, x / length, y / length);
  }

  lemma Rescaled(bearing: (real, real) -> real, x: real, y: real, k: real, u: real, v: real)
    requires Compass(bearing) && k > 0.0 && k * x == u && k * y == v
    ensures bearing(u, v) == bearing(x, y)
  {
    assert SameWay(bearing, x, y, k);
  }

  lemma Divided(x: real, d: real)
    requires d > 0.0
    ensures 1.0 / d > 0.0 && (1.0 / d) * x == x / d
  {
    var k, q := 1.0 / d, x / d;
    Quotient(1.0, d);
    assert k * d == 1.0 && q * d == x;
    Reordered(k, x, d);
    Cancelled(k * x, q, d);
  }

  lemma Reordered(k: real, x: real, d: real)
    ensures (k * x) * d == x * (k * d)
  {
  }

  lemma Cancelled(x: real, y: real, d: real)
    requires d > 0.0 && x * d == y * d
    ensures x == y
  {
    assert (x - y) * d == 0.0;
  }

  lemma RankOfGround(k: nat)
    requires k < 4
    ensures Rank(GROUND_FACES[k]) == k
  {
  }

  /** A wall stands on an edge: the one its face is bound to. */
  ghost predicate StandsOn(ring: Ring, hypot: (real, real) -> real, bearing: (real, real) -> real, crossing: Crossings, alpha: real, w: Wall, i: nat) {
    && FaceEdge(ring, hypot, bearing, FaceBearing(alpha, Rank(w.face)), |ring|) == Some(i)
    && w == WallOn(ring, hypot, i, w.face, crossing(w.face))
  }

  ghost predicate Stands(ring: Ring, hypot: (real, real) -> real, bearing: (real, real) -> real, crossing: Crossings, alpha: real, w: Wall) {
    exists i :: StandsOn(ring, hypot, bearing, crossing, alpha, w, i)
  }

  predicate HasFace(walls: seq<Wall>, f: Face) {
    exists i :: 0 <= i < |walls| && walls[i].face == f
  }

  predicate InFaceOrder(walls: seq<Wall>) {
    forall i, j :: 0 <= i < j < |walls| ==> Rank(walls[i].face) < Rank(walls[j].face)
  }

  /** Every wall stands on its face's edge, and they come in fireground order. */
  lemma {:induction false} BindStands(ring: Ring, hypot: (real, real) -> real, bearing: (real, real) -> real, crossing: Crossings, alpha: real, k: nat)
    requires k <= 4
    ensures var walls := Bind(ring, hypot, bearing, crossing, alpha, k);
            && InFaceOrder(walls)
            && forall i :: 0 <= i < |walls| ==> Rank(walls[i].face) < k && Stands(ring, hypot, bearing, crossing, alpha, walls[i])
  {
    if k > 0 {
      BindStands(ring, hypot, bearing, crossing, alpha, k - 1);
      RankOfGround(k - 1);
      var f, edge := GROUND_FACES[k - 1], FaceEdge(ring, hypot, bearing, FaceBearing(alpha, k - 1), |ring|);
      if edge.Some? {
        assert StandsOn(ring, hypot, bearing, crossing, alpha, WallOn(ring, hypot, edge.value, f, crossing(f)), edge.value);
      }
    }
  }

  lemma OneFaceMore(walls: seq<Wall>, w: Wall, f: Face)
    ensures HasFace(walls + [w], f) <==> HasFace(walls, f) || w.face == f
  {
    var more := walls + [w];
    assert more[|walls|] == w;
    if HasFace(walls, f) {
      var i :| 0 <= i < |walls| && walls[i].face == f;
      assert more[i] == walls[i];
    }
  }

  /** A face has a wall exactly when some edge is within its tolerance. */
  lemma {:induction false} BindHasFace(ring: Ring, hypot: (real, real) -> real, bearing: (real, real) -> real, crossing: Crossings, alpha: real,
                                       k: nat, f: Face)
    requires k <= 4
    ensures HasFace(Bind(ring, hypot, bearing, crossing, alpha, k), f) <==>
            Rank(f) < k && FaceEdge(ring, hypot, bearing, FaceBearing(alpha, Rank(f)), |ring|).Some?
  {
    if k > 0 {
      BindHasFace(ring, hypot, bearing, crossing, alpha, k - 1, f);
      RankOfGround(k - 1);
      var g, edge := GROUND_FACES[k - 1], FaceEdge(ring, hypot, bearing, FaceBearing(alpha, k - 1), |ring|);
      if edge.Some? {
        OneFaceMore(Bind(ring, hypot, bearing, crossing, alpha, k - 1), WallOn(ring, hypot, edge.value, g, crossing(g)), f);
      }
    }
  }

  lemma FaceHasAnEdge(ring: Ring, hypot: (real, real) -> real, bearing: (real, real) -> real, face: real)
    ensures FaceEdge(ring, hypot, bearing, face, |ring|).Some? <==>
            exists i :: 0 <= i < |ring| && Length(ring, hypot, i) > 0.0 && AngularDistance(Facing(ring, bearing, i), face) <= 55.0
  {
    FaceEdgeOutranks(ring, hypot, bearing, face, |ring|);
    forall i: nat | i < |ring| && Length(ring, hypot, i) > 0.0 && AngularDistance(Facing(ring, bearing, i), face) <= 55.0
      ensures FaceEdge(ring, hypot, bearing, face, |ring|).Some?
    {
      assert Qualifies(ring, hypot, bearing, face, i);
    }
  }

  /** A wall that stands on an edge is one a building can have, and faces within the tolerance of its face. */
  lemma StandingIsSound(ring: Ring, hypot: (real, real) -> real, bearing: (real, real) -> real, crossing: Crossings, alpha: real, w: Wall)
    requires Hypotenuse(hypot) && Compass(bearing) && Stands(ring, hypot, bearing, crossing, alpha, w)
    requires w.crossing.Some? ==> AllWeights(w.crossing.value)
    ensures ValidWall(w)
    ensures AngularDistance(bearing(w.nx, w.ny), FaceBearing(alpha, Rank(w.face))) <= FACE_BEARING_TOLERANCE_DEG
  {
    var i :| StandsOn(ring, hypot, bearing, crossing, alpha, w, i);
    SameBearing(ring, hypot, bearing, i, w.face, crossing(w.face));
    NormalIsUnit(ring, hypot, i, w.face, crossing(w.face));
  }

  lemma NormalIsUnit(ring: Ring, hypot: (real, real) -> real, i: nat, f: Face, crossing: Option<seq<real>>)
    requires Hypotenuse(hypot) && i < |ring| && Length(ring, hypot, i) > 0.0
    ensures var w := WallOn(ring, hypot, i, f, crossing); w.nx * w.nx + w.ny * w.ny == 1.0
  {
    var dx, dy := End(ring, i).x - ring[i].x, End(ring, i).y - ring[i].y;
    Squared(hypot, dx, dy);
    UnitNormal(dx, dy, hypot(dx, dy));
  }

  lemma Squared(hypot: (real, real) -> real, x: real, y: real)
    requires Hypotenuse(hypot)
    ensures hypot(x, y) * hypot(x, y) == x * x + y * y
  {
  }

  /** The walls found are such as a building has, in order, and oriented as their faces are. */
  lemma WallsAreSound(ring: Ring, hypot: (real, real) -> real, bearing: (real, real) -> real, crossing: Crossings, alpha: real)
    requires Hypotenuse(hypot) && Compass(bearing) && forall f :: crossing(f).Some? ==> AllWeights(crossing(f).value)
    ensures var walls := Bind(ring, hypot, bearing, crossing, alpha, 4);
            InFaceOrder(walls) && Oriented(walls, bearing, alpha) && forall i: nat :: i < |walls| ==> ValidWall(walls[i])
  {
    BindStands(ring, hypot, bearing, crossing, alpha, 4);
    var walls := Bind(ring, hypot, bearing, crossing, alpha, 4);
    forall i: nat | i < |walls|
      ensures ValidWall(walls[i])
      ensures AngularDistance(bearing(walls[i].nx, walls[i].ny), FaceBearing(alpha, Rank(walls[i].face))) <= FACE_BEARING_TOLERANCE_DEG
    {
      var w := walls[i];
      assert Stands(ring, hypot, bearing, crossing, alpha, w);
      var e :| StandsOn(ring, hypot, bearing, crossing, alpha, w, e);
      assert w.crossing == crossing(w.face);
      StandingIsSound(ring, hypot, bearing, crossing, alpha, w);
    }
  }

  /** Faces opposite each other never share an edge: no edge is within the tolerance of both. */
  lemma OppositeFacesDiffer(ring: Ring, hypot: (real, real) -> real, bearing: (real, real) -> real, alpha: real, k: nat, i: nat)
    requires Compass(bearing) && 0.0 <= alpha < 360.0 && k < 2 && i < |ring|
    ensures !(Qualifies(ring, hypot, bearing, FaceBearing(alpha, k), i) && Qualifies(ring, hypot, bearing, FaceBearing(alpha, k + 2), i))
  {
    TooFarRound(Facing(ring, bearing, i), alpha, k);
  }

  lemma TooFarRound(a: real, alpha: real, k: nat)
    requires 0.0 <= a < 360.0 && 0.0 <= alpha < 360.0 && k < 2
    ensures AngularDistance(a, FaceBearing(alpha, k)) + AngularDistance(a, FaceBearing(alpha, k + 2)) >= 180.0
  {
  }

  /** No two edges have one midpoint. */
  predicate MidpointsApart(ring: Ring) {
    forall i, j :: 0 <= i < j < |ring| ==> !SameMidpoint(ring, i, j)
  }

  lemma OneIsBest(ring: Ring, hypot: (real, real) -> real, bearing: (real, real) -> real, crossing: Crossings, alpha: real, w: Wall, i: nat, k: nat)
    requires StandsOn(ring, hypot, bearing, crossing, alpha, w, i) && k < |ring|
    ensures BestFor(ring, hypot, bearing, FaceBearing(alpha, Rank(w.face)), k) <==> k == i
  {
    BoundExactly(ring, hypot, bearing, FaceBearing(alpha, Rank(w.face)), k);
  }

  predicate SameMidpoint(ring: Ring, i: nat, j: nat)
    requires i < |ring| && j < |ring|
  {
    ring[i].x + End(ring, i).x == ring[j].x + End(ring, j).x && ring[i].y + End(ring, i).y == ring[j].y + End(ring, j).y
  }

  /** Some edge is the best within the tolerance of both faces. */
  predicate ShareAnEdge(ring: Ring, hypot: (real, real) -> real, bearing: (real, real) -> real, f: real, g: real) {
    exists i :: 0 <= i < |ring| && BestFor(ring, hypot, bearing, f, i) && BestFor(ring, hypot, bearing, g, i)
  }

  lemma StandAlikeExactly(ring: Ring, hypot: (real, real) -> real, bearing: (real, real) -> real, crossing: Crossings, alpha: real,
                          v: Wall, w: Wall, i: nat, j: nat)
    requires MidpointsApart(ring)
    requires StandsOn(ring, hypot, bearing, crossing, alpha, v, i) && StandsOn(ring, hypot, bearing, crossing, alpha, w, j)
    ensures (v.x == w.x && v.y == w.y) <==> i == j
  {
    assert (v.x == w.x && v.y == w.y) <==> SameMidpoint(ring, i, j);
    assert i < j ==> !SameMidpoint(ring, i, j);
    assert j < i ==> !SameMidpoint(ring, j, i);
  }

  /** Two faces have one opening exactly when one edge is the best within the tolerance of both. */
  lemma OneOpeningExactly(ring: Ring, hypot: (real, real) -> real, bearing: (real, real) -> real, crossing: Crossings, alpha: real,
                          v: Wall, w: Wall)
    requires MidpointsApart(ring) && Stands(ring, hypot, bearing, crossing, alpha, v) && Stands(ring, hypot, bearing, crossing, alpha, w)
    ensures (v.x == w.x && v.y == w.y) <==>
            ShareAnEdge(ring, hypot, bearing, FaceBearing(alpha, Rank(v.face)), FaceBearing(alpha, Rank(w.face)))
  {
    var i :| StandsOn(ring, hypot, bearing, crossing, alpha, v, i);
    var j :| StandsOn(ring, hypot, bearing, crossing, alpha, w, j);
    StandAlikeExactly(ring, hypot, bearing, crossing, alpha, v, w, i, j);
    SharedExactly(ring, hypot, bearing, crossing, alpha, v, w, i, j);
  }

  lemma SharedExactly(ring: Ring, hypot: (real, real) -> real, bearing: (real, real) -> real, crossing: Crossings, alpha: real,
                      v: Wall, w: Wall, i: nat, j: nat)
    requires StandsOn(ring, hypot, bearing, crossing, alpha, v, i) && StandsOn(ring, hypot, bearing, crossing, alpha, w, j)
    ensures ShareAnEdge(ring, hypot, bearing, FaceBearing(alpha, Rank(v.face)), FaceBearing(alpha, Rank(w.face))) <==> i == j
  {
    var f, g := FaceBearing(alpha, Rank(v.face)), FaceBearing(alpha, Rank(w.face));
    OneIsBest(ring, hypot, bearing, crossing, alpha, v, i, i);
    OneIsBest(ring, hypot, bearing, crossing, alpha, w, j, i);
    if ShareAnEdge(ring, hypot, bearing, f, g) {
      var k :| 0 <= k < |ring| && BestFor(ring, hypot, bearing, f, k) && BestFor(ring, hypot, bearing, g, k);
      OneIsBest(ring, hypot, bearing, crossing, alpha, v, i, k);
      OneIsBest(ring, hypot, bearing, crossing, alpha, w, j, k);
    }
  }
}
