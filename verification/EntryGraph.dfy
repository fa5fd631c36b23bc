/**
 The navigable graph of one building: staging and an approach ring outside, a door
 and a room behind each wall a crew may go through, and the stairwell, storey by
 storey. It is the only graph the route search is given.
*/
module EntryGraph {
  import opened Options
  import opened Pathfinding
  import opened Decimals

  // -------------------------------------------------------------- the building

  datatype Face = Alpha | Bravo | Charlie | Delta

  /** One labelled wall: its midpoint, its unit outward normal, and what going through it weighs; none at all is a barrier. */
  datatype Wall = Wall(face: Face, x: real, y: real, nx: real, ny: real, crossing: Option<seq<real>>)

  /** One storey: its height, and what the record says weighs on moving in it. */
  datatype Level = Level(height: real, terms: seq<real>)

  datatype Building = Building(
    walls: seq<Wall>, levels: seq<Level>,
    coreX: real, coreY: real, standoff: real,
    axisX: real, axisY: real, room: real,
    sinPitch: real, tanPitch: real)

  function Rank(f: Face): nat {
    match f case Alpha => 0 case Bravo => 1 case Charlie => 2 case Delta => 3
  }

  predicate AllWeights(terms: seq<real>) {
    forall i :: 0 <= i < |terms| ==> terms[i] >= 0.0
  }

  const MIN_STANDOFF_M := 6.0
  const APPARATUS_SETBACK_M := 8.0
  const INTERIOR_SETBACK_M := 2.0
  const STAIR_LANDING_M := 1.12

  /** Walls come in fireground order, each face once; normals and the stair's axis are unit vectors. */
  predicate Measured(b: Building) {
    && b.standoff >= MIN_STANDOFF_M
    && (forall i, j :: 0 <= i < j < |b.walls| ==> Rank(b.walls[i].face) < Rank(b.walls[j].face))
    && (forall i :: 0 <= i < |b.walls| ==> ValidWall(b.walls[i]))
    && (forall i :: 0 <= i < |b.levels| ==> b.levels[i].height > 0.0 && AllWeights(b.levels[i].terms))
    && b.axisX * b.axisX + b.axisY * b.axisY == 1.0 && b.room >= 0.0 && b.sinPitch > 0.0 && b.tanPitch > 0.0
  }

  /** There is a wall to approach and a storey to reach: a graph is built. */
  predicate ValidBuilding(b: Building) {
    Measured(b) && b.walls != [] && b.levels != []
  }

  predicate ValidWall(w: Wall) {
    w.nx * w.nx + w.ny * w.ny == 1.0 && (w.crossing.Some? ==> AllWeights(w.crossing.value))
  }

  /** `math.hypot`: the length of a vector in the plane. */
  ghost predicate Hypotenuse(hypot: (real, real) -> real) {
    forall x, y :: hypot(x, y) >= 0.0 && hypot(x, y) * hypot(x, y) == x * x + y * y
  }

  // ------------------------------------------------------------------ places

  datatype Place = Core(level: nat) | Approach(wall: nat) | Door(wall: nat) | Interior(wall: nat) | Staging | Landing(level: nat)

  predicate Open(b: Building, w: nat) {
    w < |b.walls| && b.walls[w].crossing.Some?
  }

  /** The places the graph has: a barred wall keeps its approach, and has no door and no room. */
  predicate Exists(b: Building, p: Place) {
    match p
    case Core(i) => i < |b.levels|
    case Approach(w) => w < |b.walls|
    case Door(w) => Open(b, w)
    case Interior(w) => Open(b, w)
    case Staging => b.walls != []
    case Landing(i) => i + 1 < |b.levels|
  }

  function Label(f: Face): string {
    match f case Alpha => "ALPHA" case Bravo => "BRAVO" case Charlie => "CHARLIE" case Delta => "DELTA"
  }

  function Name(b: Building, p: Place): string
    requires Exists(b, p)
  {
    match p
    case Core(i) => "core:L" + Decimal(i)
    case Approach(w) => "approach:" + Label(b.walls[w].face)
    case Door(w) => "door:" + Label(b.walls[w].face)
    case Interior(w) => "interior:" + Label(b.walls[w].face) + ":L0"
    case Staging => "staging"
    case Landing(i) => "stair:L" + Decimal(i) + ":mid"
  }

  lemma SameTail(head: string, a: string, b: string)
    requires head + a == head + b
    ensures a == b
  {
    assert a == (head + a)[|head|..] == (head + b)[|head|..] == b;
  }

  lemma SameHead(a: string, b: string, tail: string)
    requires a + tail == b + tail
    ensures a == b
  {
    assert |a| == |b|;
    assert a == (a + tail)[..|a|] == (b + tail)[..|b|] == b;
  }

  lemma LabelsTell(f: Face, g: Face)
    requires Label(f) == Label(g)
    ensures f == g
  {
    assert Label(f)[0] == Label(g)[0];
  }

  lemma WallsTell(b: Building, v: nat, w: nat)
    requires ValidBuilding(b) && v < |b.walls| && w < |b.walls| && Label(b.walls[v].face) == Label(b.walls[w].face)
    ensures v == w
  {
    LabelsTell(b.walls[v].face, b.walls[w].face);
  }

  /** The kind of a place shows in the first letters of its name. */
  lemma KindsTell(b: Building, p: Place, q: Place)
    requires Exists(b, p) && Exists(b, q) && Name(b, p) == Name(b, q)
    ensures p.Core? <==> q.Core?
    ensures p.Approach? <==> q.Approach?
    ensures p.Door? <==> q.Door?
    ensures p.Interior? <==> q.Interior?
    ensures p.Staging? <==> q.Staging?
    ensures p.Landing? <==> q.Landing?
  {
    FirstLetter(b, p);
    FirstLetter(b, q);
  }

  lemma FirstLetter(b: Building, p: Place)
    requires Exists(b, p)
    ensures var name := Name(b, p);
            && |name| > 3
            && name[0] == (match p case Core(_) => 'c' case Approach(_) => 'a' case Door(_) => 'd' case Interior(_) => 'i'
                           case Staging => 's' case Landing(_) => 's')
            && (p.Staging? ==> name[3] == 'g') && (p.Landing? ==> name[3] == 'i')
  {
  }

  /** No two places share a name. */
  lemma NamesTell(b: Building, p: Place, q: Place)
    requires ValidBuilding(b) && Exists(b, p) && Exists(b, q) && Name(b, p) == Name(b, q)
    ensures p == q
  {
    KindsTell(b, p, q);
    match p
    case Core(i) =>
      SameTail("core:L", Decimal(i), Decimal(q.level));
      DecimalInjective(i, q.level);
    case Approach(w) =>
      SameTail("approach:", Label(b.walls[w].face), Label(b.walls[q.wall].face));
      WallsTell(b, w, q.wall);
    case Door(w) =>
      SameTail("door:", Label(b.walls[w].face), Label(b.walls[q.wall].face));
      WallsTell(b, w, q.wall);
    case Interior(w) =>
      SameHead("interior:" + Label(b.walls[w].face), "interior:" + Label(b.walls[q.wall].face), ":L0");
      SameTail("interior:", Label(b.walls[w].face), Label(b.walls[q.wall].face));
      WallsTell(b, w, q.wall);
    case Staging =>
    case Landing(i) =>
      SameHead("stair:L" + Decimal(i), "stair:L" + Decimal(q.level), ":mid");
      SameTail("stair:L", Decimal(i), Decimal(q.level));
      DecimalInjective(i, q.level);
  }

  // ---------------------------------------------------------- where they stand

  /** The floor of a storey: the heights below it, added up. */
  function Elevation(levels: seq<Level>, n: nat): real
    requires n <= |levels|
  {
    if n == 0 then 0.0 else Elevation(levels, n - 1) + levels[n - 1].height
  }

  /** Half way up a storey. */
  function Midway(levels: seq<Level>, n: nat): real
    requires n < |levels|
  {
    Elevation(levels, n) + levels[n].height / 2.0
  }

  function Min(x: real, y: real): real { if y < x then y else x }
  function Max(x: real, y: real): real { if y > x then y else x }

  /** How far behind its door a room stands. */
  function Setback(b: Building, hypot: (real, real) -> real, w: nat): real
    requires w < |b.walls|
  {
    Min(INTERIOR_SETBACK_M, Max(0.5, hypot(b.coreX - b.walls[w].x, b.coreY - b.walls[w].y) / 2.0))
  }

  /** The run of one flight, capped at the room the footprint has. */
  function FlightRun(b: Building, i: nat): real
    requires i < |b.levels| && b.tanPitch > 0.0
  {
    Min(b.levels[i].height / 2.0 / b.tanPitch + STAIR_LANDING_M / 2.0, b.room)
  }

  /** The walk up one flight, never less than the assumed pitch implies. */
  function Flight(b: Building, hypot: (real, real) -> real, i: nat): real
    requires i < |b.levels| && b.tanPitch > 0.0 && b.sinPitch > 0.0
  {
    Max(hypot(FlightRun(b, i), b.levels[i].height / 2.0), b.levels[i].height / 2.0 / b.sinPitch)
  }

  function Along(x: real, nx: real, d: real): real {
    x + nx * d
  }

  /** Off a wall along its normal, by `d`. */
  function Off(w: Wall, d: real): Node {
    Node(Along(w.x, w.nx, d), Along(w.y, w.ny, d), 0.0)
  }

  /** Off the shaft along the building's long axis, by `run`. */
  function AlongAxis(b: Building, run: real, z: real): Node {
    Node(b.coreX + b.axisX * run, b.coreY + b.axisY * run, z)
  }

  function At(b: Building, hypot: (real, real) -> real, p: Place): Node
    requires ValidBuilding(b) && Exists(b, p)
  {
    match p
    case Core(i) => Node(b.coreX, b.coreY, Elevation(b.levels, i))
    case Approach(w) => Off(b.walls[w], b.standoff)
    case Door(w) => Off(b.walls[w], 0.0)
    case Interior(w) => Off(b.walls[w], -Setback(b, hypot, w))
    // Alpha's wall comes first when there is one, so the first wall is the anchor either way.
    case Staging => Off(b.walls[0], b.standoff + APPARATUS_SETBACK_M)
    case Landing(i) =>
      AlongAxis(b, FlightRun(b, i), Midway(b.levels, i))
  }

  // -------------------------------------------------------------------- legs

  datatype Link = Link(a: Place, b: Place)

  /** The pairs of places the builder joins, in the direction it names them. */
  predicate Joined(b: Building, l: Link) {
    && Exists(b, l.a) && Exists(b, l.b)
    && match l.a
       case Approach(w) => l.b == Door(w) || (l.b.Approach? && l.b.wall == (w + 1) % |b.walls| && l.b.wall != w)
       case Door(w) => l.b == Interior(w)
       case Interior(_) => l.b == Core(0)
       case Staging => l.b.Approach?
       case Core(i) => l.b == Landing(i)
       case Landing(i) => l.b == Core(i + 1)
  }

  function Gap(p: Node, q: Node, hypot: (real, real) -> real): real {
    hypot(p.x - q.x, p.y - q.y)
  }

  /** How long a leg between two places is, whichever way it is walked. */
  function Span(b: Building, hypot: (real, real) -> real, p: Place, q: Place): real
    requires ValidBuilding(b) && Exists(b, p) && Exists(b, q)
  {
    if p.Landing? then Flight(b, hypot, p.level)
    else if q.Landing? then Flight(b, hypot, q.level)
    else if (p.Approach? && q.Door?) || (p.Door? && q.Approach?) then b.standoff
    else if p.Door? && q.Interior? then Setback(b, hypot, p.wall)
    else if p.Interior? && q.Door? then Setback(b, hypot, q.wall)
    else if p.Interior? then Gap(At(b, hypot, q), At(b, hypot, p), hypot)
    else Gap(At(b, hypot, p), At(b, hypot, q), hypot)
  }

  /** What weighs on it: the wall's own terms at its door, the record's inside. */
  function Weighs(b: Building, p: Place, q: Place): seq<real>
    requires Exists(b, p) && Exists(b, q) && b.levels != []
  {
    if p.Landing? then b.levels[p.level + 1].terms
    else if q.Landing? then b.levels[q.level + 1].terms
    else if p.Approach? && q.Door? then b.walls[q.wall].crossing.value
    else if p.Door? && q.Approach? then b.walls[p.wall].crossing.value
    else if p.Core? || q.Core? then b.levels[0].terms
    else []
  }

  function BothWays(b: Building, l: Link, length: real, terms: seq<real>): seq<Edge>
    requires Exists(b, l.a) && Exists(b, l.b)
  {
    if length <= 0.0 then []
    else [Edge(Name(b, l.a), Name(b, l.b), length, terms), Edge(Name(b, l.b), Name(b, l.a), length, terms)]
  }

  predicate AllExist(b: Building, places: seq<Place>) {
    forall i :: 0 <= i < |places| ==> Exists(b, places[i])
  }

  predicate AllJoined(b: Building, links: seq<Link>) {
    forall i :: 0 <= i < |links| ==> Joined(b, links[i])
  }

  function LegsOf(b: Building, hypot: (real, real) -> real, links: seq<Link>): seq<Edge>
    requires ValidBuilding(b) && AllJoined(b, links)
  {
    if links == [] then []
    else
      var l := links[|links| - 1];
      LegsOf(b, hypot, links[..|links| - 1]) + BothWays(b, l, Span(b, hypot, l.a, l.b), Weighs(b, l.a, l.b))
  }

  // -------------------------------------------------- the lists, as they are built

  function CorePlaces(n: nat): seq<Place> {
    if n == 0 then [] else CorePlaces(n - 1) + [Core(n - 1)]
  }

  function WallPlaces(b: Building, n: nat): seq<Place>
    requires n <= |b.walls|
  {
    if n == 0 then []
    else WallPlaces(b, n - 1) + [Approach(n - 1)] + if Open(b, n - 1) then [Door(n - 1), Interior(n - 1)] else []
  }

  function LandingPlaces(n: nat): seq<Place> {
    if n == 0 then [] else LandingPlaces(n - 1) + [Landing(n - 1)]
  }

  function Places(b: Building): seq<Place>
    requires b.levels != []
  {
    CorePlaces(|b.levels|) + WallPlaces(b, |b.walls|) + [Staging] + LandingPlaces(|b.levels| - 1)
  }

  function WallLinks(b: Building, n: nat): seq<Link>
    requires n <= |b.walls|
  {
    if n == 0 then []
    else
      var w := n - 1;
      WallLinks(b, w) + if Open(b, w) then WayIn(w) else []
  }

  function WayIn(w: nat): seq<Link> {
    [Link(Approach(w), Door(w)), Link(Door(w), Interior(w)), Link(Interior(w), Core(0))]
  }

  function RingLinks(b: Building, n: nat): seq<Link>
    requires n <= |b.walls|
  {
    if n == 0 then [] else RingLinks(b, n - 1) + Turn(b, n - 1)
  }

  /** From one approach to the next; on a building of one wall there is none to go to. */
  function Turn(b: Building, w: nat): seq<Link>
    requires w < |b.walls|
  {
    var next := (w + 1) % |b.walls|;
    if next == w then [] else [Link(Approach(w), Approach(next))]
  }

  function StagingLinks(n: nat): seq<Link> {
    if n == 0 then [] else StagingLinks(n - 1) + [Link(Staging, Approach(n - 1))]
  }

  function StairLinks(n: nat): seq<Link> {
    if n == 0 then []
    else StairLinks(n - 1) + UpOne(n - 1)
  }

  function UpOne(i: nat): seq<Link> {
    [Link(Core(i), Landing(i)), Link(Landing(i), Core(i + 1))]
  }

  function Links(b: Building): seq<Link>
    requires b.levels != []
  {
    WallLinks(b, |b.walls|) + RingLinks(b, |b.walls|) + StagingLinks(|b.walls|) + StairLinks(|b.levels| - 1)
  }

  // ---------------------------------------------------- what the lists hold

  lemma {:induction false} CoreMembers(n: nat)
    ensures forall p :: p in CorePlaces(n) <==> p.Core? && p.level < n
  {
    if n > 0 {
      CoreMembers(n - 1);
    }
  }

  lemma {:induction false} WallMembers(b: Building, n: nat)
    requires n <= |b.walls|
    ensures forall p :: p in WallPlaces(b, n) <==>
              || (p.Approach? && p.wall < n)
              || ((p.Door? || p.Interior?) && p.wall < n && Open(b, p.wall))
  {
    if n > 0 {
      WallMembers(b, n - 1);
    }
  }

  lemma {:induction false} LandingMembers(n: nat)
    ensures forall p :: p in LandingPlaces(n) <==> p.Landing? && p.level < n
  {
    if n > 0 {
      LandingMembers(n - 1);
    }
  }

  lemma PlacesExist(b: Building)
    requires ValidBuilding(b)
    ensures forall p :: p in Places(b) <==> Exists(b, p)
  {
    CoreMembers(|b.levels|);
    WallMembers(b, |b.walls|);
    LandingMembers(|b.levels| - 1);
  }

  lemma AllPlacesExist(b: Building)
    requires ValidBuilding(b)
    ensures AllExist(b, Places(b))
  {
    PlacesExist(b);
    forall i | 0 <= i < |Places(b)| ensures Exists(b, Places(b)[i]) {
      assert Places(b)[i] in Places(b);
    }
  }

  lemma {:induction false} WallLinkMembers(b: Building, n: nat)
    requires ValidBuilding(b) && n <= |b.walls|
    ensures forall l :: l in WallLinks(b, n) <==>
              Joined(b, l) && ((l.a.Approach? && l.b.Door?) || l.a.Door? || l.a.Interior?) && l.a.wall < n
  {
    if n > 0 {
      WallLinkMembers(b, n - 1);
    }
  }

  lemma NextWall(n: nat, k: nat)
    requires 0 < k <= n
    ensures k % n == if k < n then k else 0
  {
  }

  lemma {:induction false} RingLinkMembers(b: Building, n: nat)
    requires ValidBuilding(b) && n <= |b.walls|
    ensures forall l :: l in RingLinks(b, n) <==> Joined(b, l) && l.a.Approach? && l.b.Approach? && l.a.wall < n
  {
    if n > 0 {
      RingLinkMembers(b, n - 1);
      NextWall(|b.walls|, n);
    }
  }

  lemma {:induction false} StagingLinkMembers(b: Building, n: nat)
    requires ValidBuilding(b) && n <= |b.walls|
    ensures forall l :: l in StagingLinks(n) <==> Joined(b, l) && l.a.Staging? && l.b.wall < n
  {
    if n > 0 {
      StagingLinkMembers(b, n - 1);
    }
  }

  lemma {:induction false} StairLinkMembers(b: Building, n: nat)
    requires ValidBuilding(b) && n < |b.levels|
    ensures forall l :: l in StairLinks(n) <==> Joined(b, l) && (l.a.Core? || l.a.Landing?) && l.a.level < n
  {
    if n > 0 {
      StairLinkMembers(b, n - 1);
    }
  }

  lemma KindsOfLink(b: Building, l: Link)
    requires ValidBuilding(b)
    ensures Joined(b, l) <==>
      || (Joined(b, l) && ((l.a.Approach? && l.b.Door?) || l.a.Door? || l.a.Interior?) && l.a.wall < |b.walls|)
      || (Joined(b, l) && l.a.Approach? && l.b.Approach? && l.a.wall < |b.walls|)
      || (Joined(b, l) && l.a.Staging? && l.b.wall < |b.walls|)
      || (Joined(b, l) && (l.a.Core? || l.a.Landing?) && l.a.level < |b.levels| - 1)
  {
  }

  lemma InAny(u: seq<Link>, v: seq<Link>, w: seq<Link>, x: seq<Link>, l: Link)
    ensures l in u + v + w + x <==> l in u || l in v || l in w || l in x
  {
  }

  /** The builder's list holds exactly the joins. */
  lemma LinksJoin(b: Building, l: Link)
    requires ValidBuilding(b)
    ensures l in Links(b) <==> Joined(b, l)
  {
    WallLinkMembers(b, |b.walls|);
    RingLinkMembers(b, |b.walls|);
    StagingLinkMembers(b, |b.walls|);
    StairLinkMembers(b, |b.levels| - 1);
    KindsOfLink(b, l);
    InAny(WallLinks(b, |b.walls|), RingLinks(b, |b.walls|), StagingLinks(|b.walls|), StairLinks(|b.levels| - 1), l);
  }

  lemma AllLinksJoin(b: Building)
    requires ValidBuilding(b)
    ensures AllJoined(b, Links(b))
  {
    forall i | 0 <= i < |Links(b)| ensures Joined(b, Links(b)[i]) {
      LinksJoin(b, Links(b)[i]);
    }
  }

  /** Every leg walks a join one way or the other, at its span and its weights. */
  predicate IsLeg(b: Building, hypot: (real, real) -> real, l: Link, e: Edge)
    requires ValidBuilding(b)
  {
    && Joined(b, l) && Span(b, hypot, l.a, l.b) > 0.0
    && e.lengthM == Span(b, hypot, l.a, l.b) && e.weights == Weighs(b, l.a, l.b)
    && ((e.fromId == Name(b, l.a) && e.toId == Name(b, l.b)) || (e.fromId == Name(b, l.b) && e.toId == Name(b, l.a)))
  }

  lemma OneJoin(b: Building, hypot: (real, real) -> real, l: Link, e: Edge)
    requires ValidBuilding(b) && Joined(b, l)
    ensures e in BothWays(b, l, Span(b, hypot, l.a, l.b), Weighs(b, l.a, l.b)) <==> IsLeg(b, hypot, l, e)
  {
  }

  lemma {:induction false} LegMembers(b: Building, hypot: (real, real) -> real, links: seq<Link>, e: Edge)
    requires ValidBuilding(b) && AllJoined(b, links)
    ensures e in LegsOf(b, hypot, links) <==> exists l :: l in links && IsLeg(b, hypot, l, e)
  {
    if links != [] {
      var front, last := links[..|links| - 1], links[|links| - 1];
      assert links == front + [last];
      LegMembers(b, hypot, front, e);
      OneJoin(b, hypot, last, e);
    }
  }

  // --------------------------------------------------------------- the graph

  function NodesOf(b: Building, hypot: (real, real) -> real, places: seq<Place>): map<string, Node>
    requires ValidBuilding(b) && AllExist(b, places)
  {
    if places == [] then map[]
    else
      var p := places[|places| - 1];
      NodesOf(b, hypot, places[..|places| - 1])[Name(b, p) := At(b, hypot, p)]
  }

  function GraphOf(b: Building, hypot: (real, real) -> real): Graph
    requires ValidBuilding(b)
  {
    AllPlacesExist(b);
    AllLinksJoin(b);
    Graph(NodesOf(b, hypot, Places(b)), LegsOf(b, hypot, Links(b)))
  }

  lemma {:induction false} NodesTell(b: Building, hypot: (real, real) -> real, places: seq<Place>, q: Place)
    requires ValidBuilding(b) && Exists(b, q) && AllExist(b, places)
    ensures Name(b, q) in NodesOf(b, hypot, places) <==> q in places
    ensures q in places ==> NodesOf(b, hypot, places)[Name(b, q)] == At(b, hypot, q)
  {
    if places != [] {
      var front, last := places[..|places| - 1], places[|places| - 1];
      assert places == front + [last];
      NodesTell(b, hypot, front, q);
      if Name(b, q) == Name(b, last) {
        NamesTell(b, q, last);
      }
    }
  }

  lemma PlacedAt(b: Building, hypot: (real, real) -> real, p: Place)
    requires ValidBuilding(b) && Exists(b, p)
    ensures Name(b, p) in GraphOf(b, hypot).nodes && GraphOf(b, hypot).nodes[Name(b, p)] == At(b, hypot, p)
  {
    PlacesExist(b);
    AllPlacesExist(b);
    NodesTell(b, hypot, Places(b), p);
  }

  lemma LegComesFrom(b: Building, hypot: (real, real) -> real, e: Edge) returns (l: Link)
    requires ValidBuilding(b) && e in GraphOf(b, hypot).edges
    ensures IsLeg(b, hypot, l, e)
  {
    AllLinksJoin(b);
    LegMembers(b, hypot, Links(b), e);
    l :| l in Links(b) && IsLeg(b, hypot, l, e);
  }

  lemma LegIsBuilt(b: Building, hypot: (real, real) -> real, l: Link, e: Edge)
    requires ValidBuilding(b) && IsLeg(b, hypot, l, e)
    ensures e in GraphOf(b, hypot).edges
  {
    AllLinksJoin(b);
    LinksJoin(b, l);
    LegMembers(b, hypot, Links(b), e);
  }

  lemma WeightsAreSound(b: Building, l: Link)
    requires ValidBuilding(b) && Joined(b, l)
    ensures AllWeights(Weighs(b, l.a, l.b))
  {
  }

  lemma GraphIsValid(b: Building, hypot: (real, real) -> real)
    requires ValidBuilding(b)
    ensures GraphOf(b, hypot).Valid()
  {
    var graph := GraphOf(b, hypot);
    forall e | e in graph.edges ensures e.Valid() && e.fromId in graph.nodes && e.toId in graph.nodes {
      var l := LegComesFrom(b, hypot, e);
      WeightsAreSound(b, l);
      PlacedAt(b, hypot, l.a);
      PlacedAt(b, hypot, l.b);
    }
  }

  // ---------------------------------------------------------- honest lengths

  lemma RootsAgree(x: real, y: real)
    requires x >= 0.0 && y >= 0.0 && x * x == y * y
    ensures x == y
  {
    SquaresKeepOrder(x, y);
    SquaresKeepOrder(y, x);
  }

  lemma HypotIs(hypot: (real, real) -> real, x: real, y: real, length: real)
    requires Hypotenuse(hypot) && length >= 0.0 && x * x + y * y == length * length
    ensures hypot(x, y) == length
  {
    assert hypot(x, y) * hypot(x, y) == x * x + y * y;
    RootsAgree(hypot(x, y), length);
  }

  /** On one storey the straight line is the plane one. */
  lemma GapIsStraight(dist: (Node, Node) -> real, hypot: (real, real) -> real, p: Node, q: Node)
    requires StraightLine(dist) && Hypotenuse(hypot) && p.z == q.z
    ensures dist(p, q) == Gap(p, q, hypot)
  {
    var dx, dy := p.x - q.x, p.y - q.y;
    assert hypot(dx, dy) * hypot(dx, dy) == dx * dx + dy * dy;
    assert (p.z - q.z) * (p.z - q.z) == 0.0;
    assert dist(p, q) * dist(p, q) == Squares(p, q);
    RootsAgree(dist(p, q), hypot(dx, dy));
  }

  lemma AlongUnit(nx: real, ny: real, d: real)
    requires nx * nx + ny * ny == 1.0
    ensures (nx * d) * (nx * d) + (ny * d) * (ny * d) == d * d
  {
    ProductSquared(nx, d);
    ProductSquared(ny, d);
    assert (nx * nx) * (d * d) + (ny * ny) * (d * d) == (nx * nx + ny * ny) * (d * d);
  }

  /** Along a wall's normal the straight line is the distance stepped off. */
  lemma StepIsStraight(dist: (Node, Node) -> real, w: Wall, d: real, e: real)
    requires StraightLine(dist) && ValidWall(w) && d >= e
    ensures dist(Off(w, d), Off(w, e)) == d - e
    ensures dist(Off(w, e), Off(w, d)) == d - e
  {
    var p, q := Off(w, d), Off(w, e);
    StepSquares(w, d, e);
    assert dist(p, q) * dist(p, q) == Squares(p, q) && dist(q, p) * dist(q, p) == Squares(q, p);
    RootsAgree(dist(p, q), d - e);
    RootsAgree(dist(q, p), d - e);
  }

  lemma StepSquares(w: Wall, d: real, e: real)
    requires ValidWall(w)
    ensures Squares(Off(w, d), Off(w, e)) == (d - e) * (d - e) == Squares(Off(w, e), Off(w, d))
  {
    assert w.nx * d - w.nx * e == w.nx * (d - e) && w.ny * d - w.ny * e == w.ny * (d - e);
    AlongUnit(w.nx, w.ny, d - e);
    SquaredEitherWay(w.nx * (d - e));
    SquaredEitherWay(w.ny * (d - e));
  }

  lemma SquaredEitherWay(x: real)
    ensures (0.0 - x) * (0.0 - x) == x * x
  {
  }

  /** Up half a storey the straight line is the slope of the flight. */
  lemma SlopeIsStraight(dist: (Node, Node) -> real, hypot: (real, real) -> real, core: Node, landing: Node,
                        ax: real, ay: real, run: real, half: real)
    requires StraightLine(dist) && Hypotenuse(hypot) && ax * ax + ay * ay == 1.0
    requires landing.x == core.x + ax * run && landing.y == core.y + ay * run
    requires landing.z == core.z + half || core.z == landing.z + half
    ensures dist(core, landing) == hypot(run, half) == dist(landing, core)
  {
    AlongUnit(ax, ay, run);
    SquaredEitherWay(ax * run);
    SquaredEitherWay(ay * run);
    SquaredEitherWay(half);
    assert Squares(core, landing) == run * run + half * half == Squares(landing, core);
    assert dist(core, landing) * dist(core, landing) == Squares(core, landing);
    assert dist(landing, core) * dist(landing, core) == Squares(landing, core);
    assert hypot(run, half) * hypot(run, half) == run * run + half * half;
    RootsAgree(dist(core, landing), hypot(run, half));
    RootsAgree(dist(landing, core), hypot(run, half));
  }

  lemma FlightIsNoShorter(b: Building, dist: (Node, Node) -> real, hypot: (real, real) -> real, i: nat)
    requires ValidBuilding(b) && StraightLine(dist) && Hypotenuse(hypot) && i + 1 < |b.levels|
    ensures dist(At(b, hypot, Core(i)), At(b, hypot, Landing(i))) <= Flight(b, hypot, i)
    ensures dist(At(b, hypot, Landing(i)), At(b, hypot, Core(i + 1))) <= Flight(b, hypot, i)
  {
    var run, half := FlightRun(b, i), b.levels[i].height / 2.0;
    SlopeIsStraight(dist, hypot, At(b, hypot, Core(i)), At(b, hypot, Landing(i)), b.axisX, b.axisY, run, half);
    SlopeIsStraight(dist, hypot, At(b, hypot, Core(i + 1)), At(b, hypot, Landing(i)), b.axisX, b.axisY, run, half);
  }

  lemma EitherWay(dist: (Node, Node) -> real, p: Node, q: Node)
    requires StraightLine(dist)
    ensures dist(p, q) == dist(q, p)
  {
    SquaredEitherWay(p.x - q.x);
    SquaredEitherWay(p.y - q.y);
    SquaredEitherWay(p.z - q.z);
    assert dist(p, q) * dist(p, q) == Squares(p, q) == Squares(q, p) == dist(q, p) * dist(q, p);
    RootsAgree(dist(p, q), dist(q, p));
  }

  /** No join is shorter than the straight line across it. */
  lemma SpanIsHonest(b: Building, dist: (Node, Node) -> real, hypot: (real, real) -> real, l: Link)
    requires ValidBuilding(b) && StraightLine(dist) && Hypotenuse(hypot) && Joined(b, l)
    ensures dist(At(b, hypot, l.a), At(b, hypot, l.b)) <= Span(b, hypot, l.a, l.b)
  {
    match l.a
    case Approach(w) =>
      if l.b.Door? {
        StepIsStraight(dist, b.walls[w], b.standoff, 0.0);
      } else {
        GapIsStraight(dist, hypot, At(b, hypot, l.a), At(b, hypot, l.b));
      }
    case Door(w) => StepIsStraight(dist, b.walls[w], 0.0, -Setback(b, hypot, w));
    case Interior(_) =>
      GapIsStraight(dist, hypot, At(b, hypot, l.b), At(b, hypot, l.a));
      EitherWay(dist, At(b, hypot, l.a), At(b, hypot, l.b));
    case Staging => GapIsStraight(dist, hypot, At(b, hypot, l.a), At(b, hypot, l.b));
    case Core(i) => FlightIsNoShorter(b, dist, hypot, i);
    case Landing(i) => FlightIsNoShorter(b, dist, hypot, i);
  }

  /** On every graph the builder makes, no leg undercuts the straight line across it. */
  lemma LegsAreHonest(b: Building, dist: (Node, Node) -> real, hypot: (real, real) -> real)
    requires ValidBuilding(b) && StraightLine(dist) && Hypotenuse(hypot)
    ensures GraphOf(b, hypot).Valid() && NoShortcut(GraphOf(b, hypot), dist)
  {
    var graph := GraphOf(b, hypot);
    GraphIsValid(b, hypot);
    forall e | e in graph.edges ensures dist(graph.nodes[e.fromId], graph.nodes[e.toId]) <= e.Cost() {
      var l := LegComesFrom(b, hypot, e);
      PlacedAt(b, hypot, l.a);
      PlacedAt(b, hypot, l.b);
      SpanIsHonest(b, dist, hypot, l);
      EitherWay(dist, At(b, hypot, l.a), At(b, hypot, l.b));
      CostAtLeastLength(e);
    }
  }

  // ------------------------------------------------------------ both ways alike

  lemma GapEitherWay(hypot: (real, real) -> real, p: Node, q: Node)
    requires Hypotenuse(hypot)
    ensures Gap(p, q, hypot) == Gap(q, p, hypot)
  {
    SquaredEitherWay(p.x - q.x);
    SquaredEitherWay(p.y - q.y);
    assert hypot(p.x - q.x, p.y - q.y) * hypot(p.x - q.x, p.y - q.y) ==
           hypot(q.x - p.x, q.y - p.y) * hypot(q.x - p.x, q.y - p.y);
    RootsAgree(Gap(p, q, hypot), Gap(q, p, hypot));
  }

  lemma SpanEitherWay(b: Building, hypot: (real, real) -> real, p: Place, q: Place)
    requires ValidBuilding(b) && Hypotenuse(hypot) && (Joined(b, Link(p, q)) || Joined(b, Link(q, p)))
    ensures Span(b, hypot, p, q) == Span(b, hypot, q, p) && Weighs(b, p, q) == Weighs(b, q, p)
  {
    GapEitherWay(hypot, At(b, hypot, p), At(b, hypot, q));
  }

  /** The leg from one place to the next. */
  function LegOf(b: Building, hypot: (real, real) -> real, p: Place, q: Place): Edge
    requires ValidBuilding(b) && Exists(b, p) && Exists(b, q)
  {
    Edge(Name(b, p), Name(b, q), Span(b, hypot, p, q), Weighs(b, p, q))
  }

  /** A leg is settled by its two ends. */
  lemma EndsTellTheLeg(b: Building, hypot: (real, real) -> real, e: Edge) returns (p: Place, q: Place)
    requires ValidBuilding(b) && Hypotenuse(hypot) && e in GraphOf(b, hypot).edges
    ensures Exists(b, p) && Exists(b, q) && (Joined(b, Link(p, q)) || Joined(b, Link(q, p))) && Span(b, hypot, p, q) > 0.0
    ensures e == LegOf(b, hypot, p, q)
  {
    var l := LegComesFrom(b, hypot, e);
    SpanEitherWay(b, hypot, l.a, l.b);
    if e.fromId == Name(b, l.a) && e.toId == Name(b, l.b) {
      p, q := l.a, l.b;
    } else {
      p, q := l.b, l.a;
    }
  }

  /** Legs between the same two places, as a ring of two approaches lists them, are the same leg. */
  lemma ParallelLegsAgreeHere(b: Building, hypot: (real, real) -> real)
    requires ValidBuilding(b) && Hypotenuse(hypot)
    ensures ParallelLegsAgree(GraphOf(b, hypot).edges)
  {
    var edges := GraphOf(b, hypot).edges;
    forall i, j | 0 <= i < |edges| && 0 <= j < |edges| && edges[i].fromId == edges[j].fromId && edges[i].toId == edges[j].toId
      ensures edges[i] == edges[j]
    {
      var p, q := EndsTellTheLeg(b, hypot, edges[i]);
      var u, v := EndsTellTheLeg(b, hypot, edges[j]);
      NamesTell(b, p, u);
      NamesTell(b, q, v);
    }
  }

  function Turned(e: Edge): Edge {
    Edge(e.toId, e.fromId, e.lengthM, e.weights)
  }

  /** Every leg can be walked back at the same price. */
  lemma TurnedIsBuilt(b: Building, hypot: (real, real) -> real, e: Edge)
    requires ValidBuilding(b) && Hypotenuse(hypot) && e in GraphOf(b, hypot).edges
    ensures Turned(e) in GraphOf(b, hypot).edges && Turned(e).Cost() == e.Cost()
  {
    var l := LegComesFrom(b, hypot, e);
    TurnedIsLeg(b, hypot, l, e);
    LegIsBuilt(b, hypot, l, Turned(e));
    TurnedCosts(e);
  }

  lemma TurnedCosts(e: Edge)
    ensures Turned(e).Cost() == e.Cost()
  {
  }

  lemma TurnedIsLeg(b: Building, hypot: (real, real) -> real, l: Link, e: Edge)
    requires ValidBuilding(b) && IsLeg(b, hypot, l, e)
    ensures IsLeg(b, hypot, l, Turned(e))
  {
  }

  lemma {:induction false} WalkAppends(graph: Graph, v: seq<Edge>, w: seq<Edge>, a: string, m: string, z: string)
    requires Walk(graph, v, a, m) && Walk(graph, w, m, z)
    ensures Walk(graph, v + w, a, z) && CostOf(v + w) == CostOf(v) + CostOf(w)
  {
    if w == [] {
      assert v + w == v;
    } else {
      var front, last := w[..|w| - 1], w[|w| - 1];
      WalkAppends(graph, v, front, a, m, last.fromId);
      assert (v + w)[..|v + w| - 1] == v + front;
    }
  }

  lemma OneLegWalks(graph: Graph, e: Edge)
    requires e in graph.edges
    ensures Walk(graph, [e], e.fromId, e.toId) && CostOf([e]) == e.Cost()
  {
    assert [e][..0] == [];
  }

  /** A crew walks back out the way the arithmetic said in, at the same cost. */
  lemma {:induction false} WayBack(b: Building, hypot: (real, real) -> real, w: seq<Edge>, a: string, z: string) returns (back: seq<Edge>)
    requires ValidBuilding(b) && Hypotenuse(hypot) && Walk(GraphOf(b, hypot), w, a, z)
    ensures Walk(GraphOf(b, hypot), back, z, a) && CostOf(back) == CostOf(w)
  {
    var graph := GraphOf(b, hypot);
    if w == [] {
      back := [];
    } else {
      var front, last := w[..|w| - 1], w[|w| - 1];
      var rest := WayBack(b, hypot, front, a, last.fromId);
      TurnedIsBuilt(b, hypot, last);
      OneLegWalks(graph, Turned(last));
      WalkAppends(graph, [Turned(last)], rest, z, last.fromId, a);
      back := [Turned(last)] + rest;
    }
  }

  // ----------------------------------------------------------- walls and doors

  predicate Outside(p: Place) {
    p.Approach? || p.Staging?
  }

  /** The leg goes in through the door of a wall that was not barred. */
  predicate Enters(b: Building, e: Edge, w: nat) {
    Open(b, w) && e.fromId == Name(b, Approach(w)) && e.toId == Name(b, Door(w))
  }

  lemma OnlyDoorsLeadIn(b: Building, hypot: (real, real) -> real, e: Edge, p: Place, q: Place)
    requires ValidBuilding(b) && Hypotenuse(hypot) && e in GraphOf(b, hypot).edges
    requires Exists(b, p) && Exists(b, q) && e.fromId == Name(b, p) && e.toId == Name(b, q)
    requires Outside(p) && !Outside(q)
    ensures q.Door? && Enters(b, e, q.wall)
  {
    var u, v := EndsTellTheLeg(b, hypot, e);
    NamesTell(b, p, u);
    NamesTell(b, q, v);
  }

  /** Every way from outside to inside goes through the door of a wall that was not barred. */
  lemma {:induction false} EntersByAnOpenDoor(b: Building, hypot: (real, real) -> real, legs: seq<Edge>, p: Place, q: Place)
    returns (k: nat, w: nat)
    requires ValidBuilding(b) && Hypotenuse(hypot) && Exists(b, p) && Exists(b, q) && Outside(p) && !Outside(q)
    requires Walk(GraphOf(b, hypot), legs, Name(b, p), Name(b, q))
    ensures k < |legs| && Enters(b, legs[k], w)
  {
    if legs == [] {
      NamesTell(b, p, q);
    } else {
      var front, last := legs[..|legs| - 1], legs[|legs| - 1];
      var u, v := EndsTellTheLeg(b, hypot, last);
      NamesTell(b, q, v);
      if Outside(u) {
        OnlyDoorsLeadIn(b, hypot, last, u, q);
        k, w := |legs| - 1, q.wall;
      } else {
        k, w := EntersByAnOpenDoor(b, hypot, front, p, u);
      }
    }
  }

  // ------------------------------------------------------------------ stairs

  lemma SlopesAreLong(b: Building, hypot: (real, real) -> real, i: nat)
    requires ValidBuilding(b) && i < |b.levels|
    ensures Flight(b, hypot, i) > 0.0
  {
    Quotient(b.levels[i].height / 2.0, b.sinPitch);
  }

  lemma Quotient(x: real, d: real)
    requires x > 0.0 && d > 0.0
    ensures x / d > 0.0
  {
    var q := x / d;
    assert q * d == x;
    NotPositive(q, d);
  }

  lemma NotPositive(q: real, d: real)
    requires d > 0.0
    ensures q <= 0.0 ==> q * d <= 0.0
  {
  }

  // ------------------------------------------- what each step of the builder measures

  /** A join of the graph, with the length and the weights it carries. */
  predicate IsJoin(b: Building, hypot: (real, real) -> real, start: Place, end: Place, length: real, terms: seq<real>)
    requires ValidBuilding(b)
  {
    Joined(b, Link(start, end)) && length == Span(b, hypot, start, end) && terms == Weighs(b, start, end)
  }

  lemma WallStands(b: Building, hypot: (real, real) -> real, w: nat)
    requires ValidBuilding(b) && Open(b, w)
    ensures At(b, hypot, Door(w)) == Off(b.walls[w], 0.0)
    ensures At(b, hypot, Interior(w)) == Off(b.walls[w], -Setback(b, hypot, w))
  {
  }

  lemma StagingStands(b: Building, hypot: (real, real) -> real)
    requires ValidBuilding(b)
    ensures Exists(b, Staging) && At(b, hypot, Staging) == Off(b.walls[0], b.standoff + APPARATUS_SETBACK_M)
  {
  }

  lemma LandingStands(b: Building, hypot: (real, real) -> real, i: nat)
    requires ValidBuilding(b) && i + 1 < |b.levels|
    ensures At(b, hypot, Landing(i)) == AlongAxis(b, FlightRun(b, i), Midway(b.levels, i))
  {
  }

  lemma WallJoins(b: Building, hypot: (real, real) -> real, w: nat)
    requires ValidBuilding(b) && Open(b, w)
    ensures IsJoin(b, hypot, Approach(w), Door(w), b.standoff, b.walls[w].crossing.value)
    ensures IsJoin(b, hypot, Door(w), Interior(w), Setback(b, hypot, w), [])
    ensures IsJoin(b, hypot, Interior(w), Core(0),
                   Gap(Node(b.coreX, b.coreY, 0.0), Off(b.walls[w], -Setback(b, hypot, w)), hypot), b.levels[0].terms)
  {
  }

  lemma RingJoins(b: Building, hypot: (real, real) -> real, w: nat, other: nat)
    requires ValidBuilding(b) && w < |b.walls| && other == (w + 1) % |b.walls| && other != w
    ensures IsJoin(b, hypot, Approach(w), Approach(other), Gap(Off(b.walls[w], b.standoff), Off(b.walls[other], b.standoff), hypot), [])
  {
  }

  lemma StagingJoins(b: Building, hypot: (real, real) -> real, w: nat)
    requires ValidBuilding(b) && w < |b.walls|
    ensures IsJoin(b, hypot, Staging, Approach(w),
                   Gap(Off(b.walls[0], b.standoff + APPARATUS_SETBACK_M), Off(b.walls[w], b.standoff), hypot), [])
  {
  }

  lemma StairJoins(b: Building, hypot: (real, real) -> real, i: nat)
    requires ValidBuilding(b) && i + 1 < |b.levels|
    ensures IsJoin(b, hypot, Core(i), Landing(i), Flight(b, hypot, i), b.levels[i + 1].terms)
    ensures IsJoin(b, hypot, Landing(i), Core(i + 1), Flight(b, hypot, i), b.levels[i + 1].terms)
  {
  }

  lemma Appends<T>(front: seq<T>, middle: seq<T>, last: seq<T>)
    ensures front + middle + last == front + (middle + last)
  {
  }

  lemma OneThenAnother<T>(front: seq<T>, x: T, y: T)
    ensures front + [x] + [y] == front + [x, y]
  {
  }

  lemma InTurn<T>(front: seq<T>, x: T, y: T, z: T)
    ensures front + [x] + [y] + [z] == front + [x, y, z]
  {
  }

  lemma EndsEmpty<T>(s: seq<T>)
    ensures s + [] == s
  {
  }

  // ------------------------------------------------------- building and asking

  /** The nodes so far, and the places they stand for. */
  ghost predicate Placed(b: Building, hypot: (real, real) -> real, nodes: map<string, Node>, places: seq<Place>) {
    ValidBuilding(b) && AllExist(b, places) && nodes == NodesOf(b, hypot, places)
  }

  /** The legs so far, and the joins they walk. */
  ghost predicate Drawn(b: Building, hypot: (real, real) -> real, edges: seq<Edge>, links: seq<Link>) {
    ValidBuilding(b) && AllJoined(b, links) && edges == LegsOf(b, hypot, links)
  }

  method Register(b: Building, hypot: (real, real) -> real, nodes: map<string, Node>, p: Place, node: Node, ghost places: seq<Place>)
    returns (nodes': map<string, Node>)
    requires Placed(b, hypot, nodes, places) && Exists(b, p) && node == At(b, hypot, p)
    ensures Placed(b, hypot, nodes', places + [p])
  {
    assert (places + [p])[..|places|] == places;
    nodes' := nodes[Name(b, p) := node];
  }

  /** Both directions, unless the two places stand at one spot. */
  method AddPair(b: Building, hypot: (real, real) -> real, edges: seq<Edge>, start: Place, end: Place, length: real, terms: seq<real>,
                 ghost links: seq<Link>) returns (edges': seq<Edge>)
    requires Drawn(b, hypot, edges, links) && IsJoin(b, hypot, start, end, length, terms)
    ensures Drawn(b, hypot, edges', links + [Link(start, end)])
  {
    assert (links + [Link(start, end)])[..|links|] == links;
    if length <= 0.0 { return edges; }
    edges' := edges + [Edge(Name(b, start), Name(b, end), length, terms), Edge(Name(b, end), Name(b, start), length, terms)];
  }

  /** One core a storey, each on the floor the heights below add up to. */
  method AddCores(b: Building, hypot: (real, real) -> real) returns (nodes: map<string, Node>)
    requires ValidBuilding(b)
    ensures Placed(b, hypot, nodes, CorePlaces(|b.levels|))
  {
    nodes := map[];
    var running := 0.0;
    for i := 0 to |b.levels|
      invariant running == Elevation(b.levels, i)
      invariant Placed(b, hypot, nodes, CorePlaces(i))
    {
      nodes := Register(b, hypot, nodes, Core(i), Node(b.coreX, b.coreY, running), CorePlaces(i));
      running := running + b.levels[i].height;
    }
  }

  /** The door in a wall that is not barred, and the first room behind it. */
  method AddDoor(b: Building, hypot: (real, real) -> real, w: nat, nodes: map<string, Node>, ghost places: seq<Place>)
    returns (nodes': map<string, Node>)
    requires Placed(b, hypot, nodes, places) && Open(b, w)
    ensures Placed(b, hypot, nodes', places + [Door(w), Interior(w)])
  {
    WallStands(b, hypot, w);
    nodes' := Register(b, hypot, nodes, Door(w), Off(b.walls[w], 0.0), places);
    nodes' := Register(b, hypot, nodes', Interior(w), Off(b.walls[w], -Setback(b, hypot, w)), places + [Door(w)]);
    OneThenAnother(places, Door(w), Interior(w));
  }

  /** The way in: from the approach through the door and the room to the core. */
  method AddWayIn(b: Building, hypot: (real, real) -> real, w: nat, edges: seq<Edge>, ghost links: seq<Link>)
    returns (edges': seq<Edge>)
    requires Drawn(b, hypot, edges, links) && Open(b, w)
    ensures Drawn(b, hypot, edges', links + WayIn(w))
  {
    WallJoins(b, hypot, w);
    var wall, setback := b.walls[w], Setback(b, hypot, w);
    var room := Off(wall, -setback);
    edges' := AddPair(b, hypot, edges, Approach(w), Door(w), b.standoff, wall.crossing.value, links);
    edges' := AddPair(b, hypot, edges', Door(w), Interior(w), setback, [], links + [Link(Approach(w), Door(w))]);
    edges' := AddPair(b, hypot, edges', Interior(w), Core(0), hypot(b.coreX - room.x, b.coreY - room.y), b.levels[0].terms,
                      links + [Link(Approach(w), Door(w))] + [Link(Door(w), Interior(w))]);
    InTurn(links, Link(Approach(w), Door(w)), Link(Door(w), Interior(w)), Link(Interior(w), Core(0)));
  }

  /** The walls in fireground order: an approach off each, and the way in unless it is barred. */
  method AddWalls(b: Building, hypot: (real, real) -> real, nodes: map<string, Node>, ghost places: seq<Place>)
    returns (nodes': map<string, Node>, edges: seq<Edge>)
    requires Placed(b, hypot, nodes, places)
    ensures Placed(b, hypot, nodes', places + WallPlaces(b, |b.walls|))
    ensures Drawn(b, hypot, edges, WallLinks(b, |b.walls|))
  {
    nodes', edges := nodes, [];
    EndsEmpty(places);
    for w := 0 to |b.walls|
      invariant Placed(b, hypot, nodes', places + WallPlaces(b, w))
      invariant Drawn(b, hypot, edges, WallLinks(b, w))
    {
      nodes' := Register(b, hypot, nodes', Approach(w), Off(b.walls[w], b.standoff), places + WallPlaces(b, w));
      OneMoreWall(b, w, places);
      if b.walls[w].crossing.None? { continue; }
      nodes' := AddDoor(b, hypot, w, nodes', places + WallPlaces(b, w) + [Approach(w)]);
      edges := AddWayIn(b, hypot, w, edges, WallLinks(b, w));
    }
  }

  lemma OneMoreWall(b: Building, w: nat, places: seq<Place>)
    requires w < |b.walls|
    ensures Open(b, w) ==>
              && places + WallPlaces(b, w) + [Approach(w)] + [Door(w), Interior(w)] == places + WallPlaces(b, w + 1)
              && WallLinks(b, w) + WayIn(w) == WallLinks(b, w + 1)
    ensures !Open(b, w) ==>
              && places + WallPlaces(b, w) + [Approach(w)] == places + WallPlaces(b, w + 1)
              && WallLinks(b, w) == WallLinks(b, w + 1)
  {
  }

  /** The perimeter: each approach to the next, round to the first. */
  method AddRing(b: Building, hypot: (real, real) -> real, edges: seq<Edge>, ghost links: seq<Link>) returns (edges': seq<Edge>)
    requires Drawn(b, hypot, edges, links)
    ensures Drawn(b, hypot, edges', links + RingLinks(b, |b.walls|))
  {
    edges' := edges;
    EndsEmpty(links);
    for w := 0 to |b.walls|
      invariant Drawn(b, hypot, edges', links + RingLinks(b, w))
    {
      edges' := AddTurn(b, hypot, w, edges', links + RingLinks(b, w));
      Appends(links, RingLinks(b, w), Turn(b, w));
    }
  }

  method AddTurn(b: Building, hypot: (real, real) -> real, w: nat, edges: seq<Edge>, ghost links: seq<Link>)
    returns (edges': seq<Edge>)
    requires Drawn(b, hypot, edges, links) && w < |b.walls|
    ensures Drawn(b, hypot, edges', links + Turn(b, w))
  {
    var other := (w + 1) % |b.walls|;
    if other == w {
      EndsEmpty(links);
      return edges;
    }
    RingJoins(b, hypot, w, other);
    var first, second := Off(b.walls[w], b.standoff), Off(b.walls[other], b.standoff);
    edges' := AddPair(b, hypot, edges, Approach(w), Approach(other), hypot(first.x - second.x, first.y - second.y), [], links);
  }

  /** Staging beyond the first approach, and a leg from it to every one. */
  method AddStaging(b: Building, hypot: (real, real) -> real, edges: seq<Edge>, ghost links: seq<Link>) returns (edges': seq<Edge>)
    requires Drawn(b, hypot, edges, links)
    ensures Drawn(b, hypot, edges', links + StagingLinks(|b.walls|))
  {
    edges' := edges;
    EndsEmpty(links);
    var staging := Off(b.walls[0], b.standoff + APPARATUS_SETBACK_M);
    for w := 0 to |b.walls|
      invariant Drawn(b, hypot, edges', links + StagingLinks(w))
    {
      var approach := Off(b.walls[w], b.standoff);
      StagingJoins(b, hypot, w);
      edges' := AddPair(b, hypot, edges', Staging, Approach(w), hypot(staging.x - approach.x, staging.y - approach.y), [],
                        links + StagingLinks(w));
      Appends(links, StagingLinks(w), [Link(Staging, Approach(w))]);
    }
  }

  /** A landing between each storey and the next, and the two flights that turn on it. */
  method AddStairs(b: Building, hypot: (real, real) -> real, nodes: map<string, Node>, edges: seq<Edge>,
                   ghost places: seq<Place>, ghost links: seq<Link>)
    returns (nodes': map<string, Node>, edges': seq<Edge>)
    requires Placed(b, hypot, nodes, places) && Drawn(b, hypot, edges, links)
    ensures Placed(b, hypot, nodes', places + LandingPlaces(|b.levels| - 1))
    ensures Drawn(b, hypot, edges', links + StairLinks(|b.levels| - 1))
  {
    nodes', edges' := nodes, edges;
    var elevation := 0.0;
    EndsEmpty(places);
    EndsEmpty(links);
    for i := 0 to |b.levels| - 1
      invariant elevation == Elevation(b.levels, i)
      invariant Placed(b, hypot, nodes', places + LandingPlaces(i))
      invariant Drawn(b, hypot, edges', links + StairLinks(i))
    {
      nodes' := AddLanding(b, hypot, i, elevation, nodes', places + LandingPlaces(i));
      Appends(places, LandingPlaces(i), [Landing(i)]);
      edges' := AddFlights(b, hypot, i, edges', links + StairLinks(i));
      Appends(links, StairLinks(i), UpOne(i));
      elevation := elevation + b.levels[i].height;
    }
  }

  method AddLanding(b: Building, hypot: (real, real) -> real, i: nat, elevation: real, nodes: map<string, Node>, ghost places: seq<Place>)
    returns (nodes': map<string, Node>)
    requires Placed(b, hypot, nodes, places) && i + 1 < |b.levels| && elevation == Elevation(b.levels, i)
    ensures Placed(b, hypot, nodes', places + [Landing(i)])
  {
    LandingStands(b, hypot, i);
    var half := elevation + b.levels[i].height / 2.0;
    assert half == Midway(b.levels, i);
    nodes' := Register(b, hypot, nodes, Landing(i), AlongAxis(b, FlightRun(b, i), half), places);
  }

  method AddFlights(b: Building, hypot: (real, real) -> real, i: nat, edges: seq<Edge>, ghost links: seq<Link>)
    returns (edges': seq<Edge>)
    requires Drawn(b, hypot, edges, links) && i + 1 < |b.levels|
    ensures Drawn(b, hypot, edges', links + UpOne(i))
  {
    StairJoins(b, hypot, i);
    var flight, terms := Flight(b, hypot, i), b.levels[i + 1].terms;
    edges' := AddPair(b, hypot, edges, Core(i), Landing(i), flight, terms, links);
    edges' := AddPair(b, hypot, edges', Landing(i), Core(i + 1), flight, terms, links + [Link(Core(i), Landing(i))]);
    OneThenAnother(links, Link(Core(i), Landing(i)), Link(Landing(i), Core(i + 1)));
  }

  /** `build_graph`: storeys, walls, the ring, staging and the stairs; nothing at all without a wall or a storey. */
  method BuildGraph(b: Building, hypot: (real, real) -> real) returns (graph: Graph)
    requires Measured(b)
    ensures graph == if ValidBuilding(b) then GraphOf(b, hypot) else Graph(map[], [])
    ensures graph.nodes == map[] <==> !ValidBuilding(b)
  {
    if b.walls == [] || b.levels == [] { return Graph(map[], []); }
    graph := BuildAll(b, hypot);
    PlacedAt(b, hypot, Staging);
  }

  method BuildAll(b: Building, hypot: (real, real) -> real) returns (graph: Graph)
    requires ValidBuilding(b)
    ensures graph == GraphOf(b, hypot)
  {
    var nodes := AddCores(b, hypot);
    ghost var places, links := CorePlaces(|b.levels|) + WallPlaces(b, |b.walls|), WallLinks(b, |b.walls|);
    var edges;
    nodes, edges := AddWalls(b, hypot, nodes, CorePlaces(|b.levels|));
    edges := AddRing(b, hypot, edges, links);
    StagingStands(b, hypot);
    nodes := Register(b, hypot, nodes, Staging, Off(b.walls[0], b.standoff + APPARATUS_SETBACK_M), places);
    edges := AddStaging(b, hypot, edges, links + RingLinks(b, |b.walls|));
    nodes, edges := AddStairs(b, hypot, nodes, edges, places + [Staging],
                              links + RingLinks(b, |b.walls|) + StagingLinks(|b.walls|));
    graph := Graph(nodes, edges);
  }

  /** Between any two places the way there and the way back cost the same, when both are found. */
  lemma ThereAndBackCostTheSame(b: Building, hypot: (real, real) -> real, p: Place, q: Place, there: Outcome, back: Outcome)
    requires ValidBuilding(b) && Hypotenuse(hypot) && Exists(b, p) && Exists(b, q)
    requires there.Solution? && Answers(GraphOf(b, hypot), Name(b, p), Name(b, q), there)
    requires back.Solution? && Answers(GraphOf(b, hypot), Name(b, q), Name(b, p), back)
    requires Cheapest(GraphOf(b, hypot), Name(b, p), Name(b, q), there) && Cheapest(GraphOf(b, hypot), Name(b, q), Name(b, p), back)
    ensures there.totalCost == back.totalCost
  {
    var v := WayBack(b, hypot, there.legs, Name(b, p), Name(b, q));
    var w := WayBack(b, hypot, back.legs, Name(b, q), Name(b, p));
  }
}
