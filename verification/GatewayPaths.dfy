/** The console gateway's allowlist: which backend paths may be asked for, and by which method. */
module GatewayPaths {
  import opened Options
  import opened Strings

  // ------------------------------------------------------- anchored patterns

  /** What the route patterns are built from. `Digits(k)` is `\d{1,k}`. */
  datatype Piece = Lit(text: string) | Id | OneOf(choices: seq<string>) | Digits(most: nat)

  predicate IsDigit(c: char) {
    '0' <= c <= '9'
  }

  predicate IsAlnum(c: char) {
    'A' <= c <= 'Z' || 'a' <= c <= 'z' || IsDigit(c)
  }

  predicate IsIdChar(c: char) {
    IsAlnum(c) || c == '.' || c == '_' || c == '-'
  }

  /** `x` is one whole match of the piece. */
  predicate Fits(p: Piece, x: string) {
    match p
    case Lit(text) => x == text
    case Id => 1 <= |x| <= 128 && IsAlnum(x[0]) && forall i :: 1 <= i < |x| ==> IsIdChar(x[i])
    case OneOf(choices) => x in choices
    case Digits(most) => 1 <= |x| <= most && forall i :: 0 <= i < |x| ==> IsDigit(x[i])
  }

  /** `^p0 p1 ... pn$`: the whole string is cut, somewhere, into one match of each piece. */
  predicate Test(regex: seq<Piece>, s: string) {
    if regex == [] then s == []
    else exists k :: 0 <= k <= |s| && Fits(regex[0], s[..k]) && Test(regex[1..], s[k..])
  }

  /** A route template, one piece a segment, as the pattern source writes it out. */
  function Pattern(template: seq<Piece>): (regex: seq<Piece>) {
    if template == [] then [] else [Lit("/"), template[0]] + Pattern(template[1..])
  }

  function PathOf(segments: seq<string>): string {
    "/" + Join(segments, '/')
  }

  /** The pieces of a template match whole segments only. */
  predicate Plain(template: seq<Piece>) {
    forall i :: 0 <= i < |template| ==> PlainPiece(template[i])
  }

  predicate PlainPiece(p: Piece) {
    match p
    case Lit(text) => '/' !in text
    case OneOf(choices) => AllFree(choices, '/')
    case _ => true
  }

  /** The segments fit the template position by position. */
  predicate Positional(template: seq<Piece>, segments: seq<string>) {
    |template| == |segments| && forall i :: 0 <= i < |template| ==> Fits(template[i], segments[i])
  }

  lemma FitsHasNoSlash(template: seq<Piece>, x: string)
    requires template != [] && Plain(template) && Fits(template[0], x)
    ensures '/' !in x
  {
  }

  lemma TestOfPattern(template: seq<Piece>, s: string)
    requires template != []
    ensures Test(Pattern(template), s) <==> s != [] && s[0] == '/' && TestRest(template, s[1..])
  {
    var regex := Pattern(template);
    assert regex[1..] == [template[0]] + Pattern(template[1..]);
    if Test(regex, s) {
      var k :| 0 <= k <= |s| && Fits(regex[0], s[..k]) && Test(regex[1..], s[k..]);
      assert s[..k] == "/";
      assert s[k..] == s[1..];
    }
    if s != [] && s[0] == '/' && TestRest(template, s[1..]) {
      assert s[..1] == "/";
      assert Fits(regex[0], s[..1]) && Test(regex[1..], s[1..]);
    }
  }

  predicate TestRest(template: seq<Piece>, s: string)
    requires template != []
  {
    Test([template[0]] + Pattern(template[1..]), s)
  }

  lemma TestRestSplits(template: seq<Piece>, s: string)
    requires template != []
    ensures TestRest(template, s) <==>
            exists k :: 0 <= k <= |s| && Fits(template[0], s[..k]) && Test(Pattern(template[1..]), s[k..])
  {
    var regex := [template[0]] + Pattern(template[1..]);
    assert regex[1..] == Pattern(template[1..]);
  }

  /** The pattern without its first slash, on the joined segments. */
  lemma {:induction false} RestIsPositional(template: seq<Piece>, segments: seq<string>)
    requires template != [] && segments != [] && Plain(template) && AllFree(segments, '/')
    ensures TestRest(template, Join(segments, '/')) <==> Positional(template, segments)
    decreases |template|
  {
    var s := Join(segments, '/');
    TestRestSplits(template, s);
    if TestRest(template, s) {
      var k :| 0 <= k <= |s| && Fits(template[0], s[..k]) && Test(Pattern(template[1..]), s[k..]);
      FitsHasNoSlash(template, s[..k]);
      CutIsAtTheSegment(template, segments, k);
    }
    if Positional(template, segments) {
      var k := |segments[0]|;
      assert s[..k] == segments[0];
      PositionalByHead(template, segments);
      if |segments| == 1 {
        assert s[k..] == [];
      } else {
        RestIsPositional(template[1..], segments[1..]);
        assert s[k..][1..] == Join(segments[1..], '/');
        TestOfPattern(template[1..], s[k..]);
      }
      assert Fits(template[0], s[..k]) && Test(Pattern(template[1..]), s[k..]);
    }
  }

  lemma CutAtSlash(s: string, head: string, rest: string, k: nat)
    requires s == head + ['/'] + rest && '/' !in head
    requires k < |s| && s[k] == '/' && '/' !in s[..k]
    ensures s[..k] == head && s[k..][1..] == rest
  {
    assert s == s[..k] + ['/'] + s[k..][1..];
    HeadIsUnique(s[..k], head, s[k..][1..], rest, '/');
  }

  lemma PositionalByHead(template: seq<Piece>, segments: seq<string>)
    requires template != [] && segments != []
    ensures Positional(template, segments) <==>
            Fits(template[0], segments[0]) && Positional(template[1..], segments[1..])
  {
    if Positional(template[1..], segments[1..]) {
      assert forall i :: 1 <= i < |template| ==>
          template[i] == template[1..][i - 1] && segments[i] == segments[1..][i - 1];
    }
  }

  lemma SlashMeansSeveral(segments: seq<string>)
    requires segments != [] && AllFree(segments, '/')
    ensures '/' in Join(segments, '/') <==> |segments| > 1
  {
    if |segments| > 1 {
      assert Join(segments, '/')[|segments[0]|] == '/';
    }
  }

  lemma {:induction false} CutIsAtTheSegment(template: seq<Piece>, segments: seq<string>, k: nat)
    requires template != [] && segments != [] && Plain(template) && AllFree(segments, '/')
    requires k <= |Join(segments, '/')|
    requires Fits(template[0], Join(segments, '/')[..k]) && '/' !in Join(segments, '/')[..k]
    requires Test(Pattern(template[1..]), Join(segments, '/')[k..])
    ensures Positional(template, segments)
    decreases |template|, 0
  {
    var s := Join(segments, '/');
    SlashMeansSeveral(segments);
    if |template| == 1 {
      assert s == s[..k];
    } else {
      TestOfPattern(template[1..], s[k..]);
      assert s[k] == '/';
      CutAtSlash(s, segments[0], Join(segments[1..], '/'), k);
      RestIsPositional(template[1..], segments[1..]);
      PositionalByHead(template, segments);
    }
  }

  /**
   The anchored pattern accepts a joined path exactly when the segments fit the template one for
   one: the slashes leave a match no freedom in where to cut.
  */
  lemma {:induction false} MatchIsPositional(template: seq<Piece>, segments: seq<string>)
    requires template != [] && segments != [] && Plain(template) && AllFree(segments, '/')
    ensures Test(Pattern(template), PathOf(segments)) <==> Positional(template, segments)
  {
    TestOfPattern(template, PathOf(segments));
    assert PathOf(segments)[1..] == Join(segments, '/');
    RestIsPositional(template, segments);
  }

  // ------------------------------------------------------------ safe segments

  predicate IsSafeChar(c: char) {
    IsAlnum(c) || c == '.' || c == '_' || c == '~' || c == '-'
  }

  predicate NoDotRun(s: string) {
    forall i :: 0 <= i < |s| - 1 ==> !(s[i] == '.' && s[i + 1] == '.')
  }

  predicate IsSafeSegment(segment: string) {
    && 1 <= |segment| <= 128
    && (forall i :: 0 <= i < |segment| ==> IsSafeChar(segment[i]))
    && !(forall i :: 0 <= i < |segment| ==> segment[i] == '.')
    && NoDotRun(segment)
  }

  predicate AllSafe(segments: seq<string>) {
    forall i :: 0 <= i < |segments| ==> IsSafeSegment(segments[i])
  }

  lemma SafeIsSlashFree(segments: seq<string>)
    requires AllSafe(segments)
    ensures AllFree(segments, '/')
  {
    forall i | 0 <= i < |segments| ensures '/' !in segments[i] {
      assert IsSafeSegment(segments[i]);
    }
  }

  /** Joining safe segments makes a path of safe characters and slashes with no run of dots. */
  lemma {:induction false} JoinedIsClean(segments: seq<string>)
    requires AllSafe(segments)
    ensures forall c :: c in Join(segments, '/') ==> c == '/' || IsSafeChar(c)
    ensures NoDotRun(Join(segments, '/'))
  {
    if segments != [] {
      assert IsSafeSegment(segments[0]);
      if |segments| > 1 {
        JoinedIsClean(segments[1..]);
      }
    }
  }

  // -------------------------------------------------------------- the gateway

  datatype Method = GET | POST

  const MAX_PATH_SEGMENTS := 8
  const INTERNAL_PREFIX := "/api/v1/internal/"
  const INTERNAL_READ_ONLY := {"/api/v1/internal/audit/events", "/api/v1/internal/audit/decisions"}
  const REPLAY := [Lit("api"), Lit("v1"), Lit("internal"), Lit("audit"), Lit("incidents"), Id, Lit("replay")]

  /** The two tables, whatever they hold. */
  datatype Allowlist = Allowlist(exact: Method -> set<string>, patterns: Method -> seq<seq<Piece>>)

  predicate InternalReadAllowed(path: string, how: Method) {
    how == GET && (path in INTERNAL_READ_ONLY || Test(Pattern(REPLAY), path))
  }

  function GatewayTargetPath(allow: Allowlist, segments: seq<string>, how: Method): Option<string> {
    if segments == [] || |segments| > MAX_PATH_SEGMENTS || !AllSafe(segments) then None
    else
      var path := PathOf(segments);
      if INTERNAL_PREFIX <= path && !InternalReadAllowed(path, how) then None
      else if path in allow.exact(how) then Some(path)
      else if exists i :: 0 <= i < |allow.patterns(how)| && Test(allow.patterns(how)[i], path) then Some(path)
      else None
  }

  /** Different slash-free segment lists never join to the same path. */
  lemma PathIsUnique(a: seq<string>, b: seq<string>)
    requires a != [] && b != [] && AllFree(a, '/') && AllFree(b, '/') && PathOf(a) == PathOf(b)
    ensures a == b
  {
    assert Join(a, '/') == PathOf(a)[1..] == PathOf(b)[1..] == Join(b, '/');
    SplitOfJoin(a, '/');
    SplitOfJoin(b, '/');
  }

  /**
   For every pair of tables: what comes back is the asked-for segments and nothing else. It
   splits back into them, it holds no query, port, escape or backslash, and no run of dots.
  */
  lemma ForwardedIsWhatWasAsked(allow: Allowlist, segments: seq<string>, how: Method)
    requires GatewayTargetPath(allow, segments, how).Some?
    ensures var path := GatewayTargetPath(allow, segments, how).value;
            && path[..1] == "/" && Split(path[1..], '/') == segments
            && NoDotRun(path)
            && forall c :: c in path ==> c == '/' || IsSafeChar(c)
  {
    var path := GatewayTargetPath(allow, segments, how).value;
    SafeIsSlashFree(segments);
    SplitOfJoin(segments, '/');
    JoinedIsClean(segments);
    assert path == ['/'] + Join(segments, '/') && path[1..] == Join(segments, '/');
  }

  // ------------------------------------------------- the internal namespace

  lemma PrefixAtSlash(a: string, x: string, b: string, y: string)
    requires '/' !in a && '/' !in b
    ensures a + ['/'] + x <= b + ['/'] + y <==> a == b && x <= y
  {
    var h, s := a + ['/'] + x, b + ['/'] + y;
    if h <= s {
      assert s == a + ['/'] + s[|a| + 1..];
      HeadIsUnique(a, b, s[|a| + 1..], y, '/');
      assert x == h[|a| + 1..] <= s[|a| + 1..];
    }
    if a == b && x <= y {
      assert s == h + y[|x|..];
    }
  }

  /** A joined path starts with a run of whole segments exactly when its segments do. */
  lemma {:induction false} PrefixBySegments(head: seq<string>, segments: seq<string>)
    requires head != [] && segments != [] && AllFree(head, '/') && AllFree(segments, '/')
    ensures Join(head, '/') + "/" <= Join(segments, '/') <==> |segments| > |head| && segments[..|head|] == head
  {
    var h, s := Join(head, '/') + "/", Join(segments, '/');
    var rest := if |head| == 1 then [] else Join(head[1..], '/') + "/";
    assert h == head[0] + ['/'] + rest;
    SlashMeansSeveral(segments);
    if h <= s {
      assert s[|head[0]|] == '/';
    }
    if |segments| > 1 {
      PrefixAtSlash(head[0], rest, segments[0], Join(segments[1..], '/'));
      if |head| > 1 {
        PrefixBySegments(head[1..], segments[1..]);
      }
      assert head == [head[0]] + head[1..];
      if |segments| > |head| {
        assert segments[..|head|] == [segments[0]] + segments[1..][..|head| - 1];
      }
    }
  }

  const INTERNAL := ["api", "v1", "internal"]

  lemma InternalJoined()
    ensures INTERNAL_PREFIX == "/" + (Join(INTERNAL, '/') + "/")
  {
    assert INTERNAL[1..][1..] == ["internal"];
    assert INTERNAL[1..] == ["v1", "internal"];
    assert Join(INTERNAL[1..], '/') == "v1/internal";
  }

  lemma SamePrefix(c: char, a: string, b: string)
    ensures [c] + a <= [c] + b <==> a <= b
  {
    assert ([c] + a)[1..] == a && ([c] + b)[1..] == b;
    if a <= b {
      assert [c] + b == ([c] + a) + b[|a|..];
    }
    if [c] + a <= [c] + b {
      assert b[..|a|] == ([c] + b)[..|a| + 1][1..];
    }
  }

  lemma InternalBySegments(segments: seq<string>)
    requires segments != [] && AllFree(segments, '/')
    ensures INTERNAL_PREFIX <= PathOf(segments) <==> |segments| > 3 && segments[..3] == INTERNAL
  {
    InternalJoined();
    PrefixBySegments(INTERNAL, segments);
    SamePrefix('/', Join(INTERNAL, '/') + "/", Join(segments, '/'));
  }

  /** The three audit views, by their segments. */
  predicate IsAuditView(segments: seq<string>) {
    || segments == INTERNAL + ["audit", "events"]
    || segments == INTERNAL + ["audit", "decisions"]
    || Positional(REPLAY, segments)
  }

  lemma PathStep(first: string, rest: seq<string>, path: string)
    requires rest != [] && PathOf(rest) == path
    ensures PathOf([first] + rest) == "/" + first + path
  {
    JoinPush(first, rest, '/');
    assert "/" + (first + ['/'] + Join(rest, '/')) == "/" + first + ("/" + Join(rest, '/'));
  }

  lemma AuditViewPath(view: string)
    ensures PathOf(INTERNAL + ["audit", view]) == "/api/v1/internal/audit" + ("/" + view)
  {
    var path := "/" + view;
    InternalAuditPath(view);
    PathStep("v1", ["internal", "audit", view], "/internal/audit" + path);
    assert "/v1" + ("/internal/audit" + path) == "/v1/internal/audit" + path;
    assert ["v1"] + ["internal", "audit", view] == ["v1", "internal", "audit", view];
    PathStep("api", ["v1", "internal", "audit", view], "/v1/internal/audit" + path);
    assert "/api" + ("/v1/internal/audit" + path) == "/api/v1/internal/audit" + path;
    assert ["api"] + ["v1", "internal", "audit", view] == INTERNAL + ["audit", view];
  }

  lemma InternalAuditPath(view: string)
    ensures PathOf(["internal", "audit", view]) == "/internal/audit" + ("/" + view)
  {
    var path := "/" + view;
    PathStep("audit", [view], path);
    assert ["audit"] + [view] == ["audit", view];
    PathStep("internal", ["audit", view], "/audit" + path);
    assert "/internal" + ("/audit" + path) == "/internal/audit" + path;
    assert ["internal"] + ["audit", view] == ["internal", "audit", view];
  }

  lemma AuditViewPaths()
    ensures PathOf(INTERNAL + ["audit", "events"]) == "/api/v1/internal/audit/events"
    ensures PathOf(INTERNAL + ["audit", "decisions"]) == "/api/v1/internal/audit/decisions"
  {
    AuditViewPath("events");
    AuditViewPath("decisions");
    assert "/api/v1/internal/audit" + ("/" + "events") == "/api/v1/internal/audit/events";
    assert "/api/v1/internal/audit" + ("/" + "decisions") == "/api/v1/internal/audit/decisions";
  }

  /** The gate's own test, by segments. */
  lemma GateBySegments(segments: seq<string>, how: Method)
    requires segments != [] && AllFree(segments, '/')
    ensures InternalReadAllowed(PathOf(segments), how) <==> how == GET && IsAuditView(segments)
  {
    ReplayIsPlain();
    MatchIsPositional(REPLAY, segments);
    AuditViewsBySegments(segments);
  }

  lemma AuditSegmentsAreFree()
    ensures AllFree(INTERNAL + ["audit", "events"], '/') && AllFree(INTERNAL + ["audit", "decisions"], '/')
  {
  }

  lemma AuditViewsBySegments(segments: seq<string>)
    requires segments != [] && AllFree(segments, '/')
    ensures PathOf(segments) in INTERNAL_READ_ONLY <==>
            segments == INTERNAL + ["audit", "events"] || segments == INTERNAL + ["audit", "decisions"]
  {
    AuditViewPaths();
    AuditSegmentsAreFree();
    if PathOf(segments) == PathOf(INTERNAL + ["audit", "events"]) {
      PathIsUnique(segments, INTERNAL + ["audit", "events"]);
    }
    if PathOf(segments) == PathOf(INTERNAL + ["audit", "decisions"]) {
      PathIsUnique(segments, INTERNAL + ["audit", "decisions"]);
    }
  }

  predicate Listed(allow: Allowlist, path: string, how: Method) {
    || path in allow.exact(how)
    || exists i :: 0 <= i < |allow.patterns(how)| && Test(allow.patterns(how)[i], path)
  }

  /**
   Whatever the tables are changed to, the internal namespace opens only to a GET of one of the
   three audit views, and then only if the tables list it.
  */
  lemma InternalOnlyForReads(allow: Allowlist, segments: seq<string>, how: Method)
    requires |segments| > 3 && segments[..3] == INTERNAL
    ensures GatewayTargetPath(allow, segments, how).Some? <==>
            && |segments| <= MAX_PATH_SEGMENTS && AllSafe(segments)
            && how == GET && IsAuditView(segments)
            && Listed(allow, PathOf(segments), how)
  {
    if AllSafe(segments) {
      SafeIsSlashFree(segments);
      InternalBySegments(segments);
      GateBySegments(segments, how);
    }
  }

  // ------------------------------------------------------- the console's own

  function District(rest: seq<Piece>): seq<Piece> {
    [Lit("api"), Lit("v1"), Lit("districts"), Id] + rest
  }

  function Incident(rest: seq<Piece>): seq<Piece> {
    [Lit("api"), Lit("v1"), Lit("incidents"), Id] + rest
  }

  function Building(rest: seq<Piece>): seq<Piece> {
    [Lit("api"), Lit("v1"), Lit("buildings"), Id] + rest
  }

  const BASEMAP := OneOf(["basemap", "basemap?style=terrain", "basemap?style=satellite"])

  function Templates(how: Method): seq<seq<Piece>> {
    match how
    case GET => [
      District([Lit("stats")]),
      District([Lit("queue")]),
      District([Lit("fire-activity")]),
      District([Lit("slow-loop"), Lit("diagnostics")]),
      Building([]),
      Building([Lit("timeline")]),
      Building([Lit("geometry")]),
      Building([Lit("imagery")]),
      District([Lit("fire-activity"), BASEMAP]),
      [Lit("api"), Lit("v1"), Lit("terrain"), OneOf(["elevation", "imagery"]), Digits(2), Digits(7), Digits(7)],
      Incident([Lit("stream")]),
      Incident([Lit("brief"), Lit("stream-enriched")]),
      Incident([Lit("log")]),
      Incident([Lit("entry-packages")]),
      Incident([Lit("entry-packages"), Lit("diagnostics")]),
      Incident([Lit("entry-packages"), Id]),
      Incident([Lit("entry-packages"), Id, Lit("pdf")]),
      Incident([Lit("log"), Lit("stream")]),
      REPLAY]
    case POST => [
      District([Lit("poll")]),
      Incident([Lit("brief"), Lit("enrich")]),
      Incident([Lit("intake")]),
      Incident([Lit("resolutions")]),
      Incident([Lit("resources")]),
      Incident([Lit("thermal")]),
      Incident([Lit("drone-sweep")]),
      Incident([Lit("close")]),
      Incident([Lit("approvals"), Id]),
      Incident([Lit("entry-packages")]),
      Incident([Lit("entry-packages"), Id, Lit("approvals"), OneOf(["entry-path", "crew-brief"])]),
      Incident([Lit("entry-packages"), Id, Lit("dispatch")]),
      [Lit("api"), Lit("v1"), Lit("conflicts"), Id, Lit("referral")],
      [Lit("api"), Lit("v1"), Lit("referrals"), Id, Lit("approve")]]
  }

  /** The exact paths, each written as the segments it joins. */
  function ExactSegments(how: Method): seq<seq<string>> {
    match how
    case GET => [
      ["healthz"], ["readyz"],
      ["api", "v1", "system", "status"],
      ["api", "v1", "registry", "agents"],
      ["api", "v1", "registry", "subscriptions"],
      INTERNAL + ["audit", "events"],
      INTERNAL + ["audit", "decisions"]]
    case POST => [["api", "v1", "incidents"]]
  }

  function ConsoleExact(how: Method): set<string> {
    set i | 0 <= i < |ExactSegments(how)| :: PathOf(ExactSegments(how)[i])
  }

  function ConsolePatterns(how: Method): seq<seq<Piece>> {
    var templates := Templates(how);
    seq(|templates|, i requires 0 <= i < |templates| => Pattern(templates[i]))
  }

  const CONSOLE := Allowlist(ConsoleExact, ConsolePatterns)

  /** The request is one of the console's own routes, segment by segment. */
  predicate IsRoute(segments: seq<string>, how: Method) {
    || segments in ExactSegments(how)
    || exists i :: 0 <= i < |Templates(how)| && Positional(Templates(how)[i], segments)
  }

  lemma UnderIsPlain(rest: seq<Piece>)
    requires Plain(rest)
    ensures Plain(District(rest)) && Plain(Incident(rest)) && Plain(Building(rest))
  {
  }

  lemma DistrictsArePlain()
    ensures Plain(District([Lit("stats")])) && Plain(District([Lit("queue")])) && Plain(District([Lit("fire-activity")]))
    ensures Plain(District([Lit("slow-loop"), Lit("diagnostics")])) && Plain(District([Lit("poll")]))
  {
    UnderIsPlain([Lit("stats")]);
    UnderIsPlain([Lit("queue")]);
    UnderIsPlain([Lit("fire-activity")]);
    UnderIsPlain([Lit("slow-loop"), Lit("diagnostics")]);
    UnderIsPlain([Lit("poll")]);
  }

  lemma BasemapAndTerrainArePlain()
    ensures Plain(District([Lit("fire-activity"), BASEMAP]))
    ensures Plain([Lit("api"), Lit("v1"), Lit("terrain"), OneOf(["elevation", "imagery"]), Digits(2), Digits(7), Digits(7)])
  {
    assert PlainPiece(BASEMAP);
    UnderIsPlain([Lit("fire-activity"), BASEMAP]);
  }

  lemma BuildingsArePlain()
    ensures Plain(Building([])) && Plain(Building([Lit("timeline")]))
    ensures Plain(Building([Lit("geometry")])) && Plain(Building([Lit("imagery")]))
  {
    UnderIsPlain([]);
    UnderIsPlain([Lit("timeline")]);
    UnderIsPlain([Lit("geometry")]);
    UnderIsPlain([Lit("imagery")]);
  }

  lemma IncidentReadsArePlain()
    ensures Plain(Incident([Lit("stream")])) && Plain(Incident([Lit("brief"), Lit("stream-enriched")]))
    ensures Plain(Incident([Lit("log")])) && Plain(Incident([Lit("log"), Lit("stream")]))
  {
    UnderIsPlain([Lit("stream")]);
    UnderIsPlain([Lit("brief"), Lit("stream-enriched")]);
    UnderIsPlain([Lit("log")]);
    UnderIsPlain([Lit("log"), Lit("stream")]);
  }

  lemma PackagesArePlain()
    ensures Plain(Incident([Lit("entry-packages")])) && Plain(Incident([Lit("entry-packages"), Lit("diagnostics")]))
    ensures Plain(Incident([Lit("entry-packages"), Id])) && Plain(Incident([Lit("entry-packages"), Id, Lit("pdf")]))
  {
    UnderIsPlain([Lit("entry-packages")]);
    UnderIsPlain([Lit("entry-packages"), Lit("diagnostics")]);
    UnderIsPlain([Lit("entry-packages"), Id]);
    UnderIsPlain([Lit("entry-packages"), Id, Lit("pdf")]);
  }

  lemma PackageWritesArePlain()
    ensures Plain(Incident([Lit("entry-packages"), Id, Lit("approvals"), OneOf(["entry-path", "crew-brief"])]))
    ensures Plain(Incident([Lit("entry-packages"), Id, Lit("dispatch")]))
  {
    UnderIsPlain([Lit("entry-packages"), Id, Lit("approvals"), OneOf(["entry-path", "crew-brief"])]);
    UnderIsPlain([Lit("entry-packages"), Id, Lit("dispatch")]);
  }

  lemma IncidentWritesArePlain()
    ensures Plain(Incident([Lit("brief"), Lit("enrich")])) && Plain(Incident([Lit("intake")]))
    ensures Plain(Incident([Lit("resolutions")])) && Plain(Incident([Lit("resources")]))
  {
    UnderIsPlain([Lit("brief"), Lit("enrich")]);
    UnderIsPlain([Lit("intake")]);
    UnderIsPlain([Lit("resolutions")]);
    UnderIsPlain([Lit("resources")]);
  }

  lemma MoreIncidentWritesArePlain()
    ensures Plain(Incident([Lit("thermal")])) && Plain(Incident([Lit("drone-sweep")]))
    ensures Plain(Incident([Lit("close")])) && Plain(Incident([Lit("approvals"), Id]))
  {
    UnderIsPlain([Lit("thermal")]);
    UnderIsPlain([Lit("drone-sweep")]);
    UnderIsPlain([Lit("close")]);
    UnderIsPlain([Lit("approvals"), Id]);
  }

  lemma ReplayIsPlain()
    ensures Plain(REPLAY)
  {
  }

  lemma ReferralsArePlain()
    ensures Plain([Lit("api"), Lit("v1"), Lit("conflicts"), Id, Lit("referral")])
    ensures Plain([Lit("api"), Lit("v1"), Lit("referrals"), Id, Lit("approve")])
  {
  }

  lemma TemplatesArePlain(how: Method, i: nat)
    requires i < |Templates(how)|
    ensures Plain(Templates(how)[i])
  {
    DistrictsArePlain();
    PackagesArePlain();
    match how
    case GET =>
      BasemapAndTerrainArePlain();
      BuildingsArePlain();
      IncidentReadsArePlain();
      ReplayIsPlain();
    case POST =>
      PackageWritesArePlain();
      IncidentWritesArePlain();
      MoreIncidentWritesArePlain();
      ReferralsArePlain();
  }

  lemma TemplatesAreShort(how: Method)
    ensures forall i :: 0 <= i < |Templates(how)| ==> 4 <= |Templates(how)[i]| <= MAX_PATH_SEGMENTS
    ensures forall i :: 0 <= i < |Templates(how)| ==> Templates(how)[i][2].Lit?
    ensures forall i :: 0 <= i < |Templates(how)| && Templates(how)[i][2].text == "internal" ==>
              how == GET && Templates(how)[i] == REPLAY
  {
    LengthsAreShort(how);
    InternalIsReplay(how);
  }

  lemma LengthsAreShort(how: Method)
    ensures forall i :: 0 <= i < |Templates(how)| ==> 4 <= |Templates(how)[i]| <= MAX_PATH_SEGMENTS
  {
  }

  lemma InternalIsReplay(how: Method)
    ensures forall i :: 0 <= i < |Templates(how)| ==> |Templates(how)[i]| > 2 && Templates(how)[i][2].Lit?
    ensures forall i :: 0 <= i < |Templates(how)| && Templates(how)[i][2].text == "internal" ==>
              how == GET && Templates(how)[i] == REPLAY
  {
  }

  lemma ExactSegmentsArePlain(how: Method)
    ensures forall i :: 0 <= i < |ExactSegments(how)| ==>
              ExactSegments(how)[i] != [] && AllFree(ExactSegments(how)[i], '/')
  {
  }

  lemma ConsoleLists(segments: seq<string>, how: Method)
    requires segments != [] && AllFree(segments, '/')
    ensures Listed(CONSOLE, PathOf(segments), how) <==> IsRoute(segments, how)
  {
    assert |CONSOLE.patterns(how)| == |Templates(how)|;
    ExactSegmentsArePlain(how);
    forall i | 0 <= i < |ExactSegments(how)| && PathOf(ExactSegments(how)[i]) == PathOf(segments)
      ensures segments in ExactSegments(how)
    {
      PathIsUnique(ExactSegments(how)[i], segments);
    }
    forall i | 0 <= i < |Templates(how)|
      ensures Test(CONSOLE.patterns(how)[i], PathOf(segments)) <==> Positional(Templates(how)[i], segments)
    {
      TemplatesArePlain(how, i);
      TemplatesAreShort(how);
      MatchIsPositional(Templates(how)[i], segments);
      assert CONSOLE.patterns(how)[i] == Pattern(Templates(how)[i]);
    }
  }

  /** Every internal route the console lists is already an audit view read by GET. */
  lemma InternalRoutesAreViews(segments: seq<string>, how: Method)
    requires |segments| > 3 && segments[..3] == INTERNAL && IsRoute(segments, how)
    ensures how == GET && IsAuditView(segments)
  {
    assert segments[2] == INTERNAL[2];
    TemplatesAreShort(how);
  }

  /**
   The console's gateway, exactly: at most eight safe segments that fit one of its routes. The
   internal gate, which stands whatever the tables become, refuses none of the present ones.
  */
  lemma ForwardedExactly(segments: seq<string>, how: Method)
    ensures GatewayTargetPath(CONSOLE, segments, how).Some? <==> AllSafe(segments) && IsRoute(segments, how)
  {
    TargetExactly(CONSOLE, segments, how);
    if IsRoute(segments, how) {
      RoutesAreShort(segments, how);
    }
    if segments != [] && AllSafe(segments) {
      SafeIsSlashFree(segments);
      ConsoleLists(segments, how);
      if IsRoute(segments, how) {
        RoutesPassTheGate(segments, how);
      }
    }
  }

  lemma TargetExactly(allow: Allowlist, segments: seq<string>, how: Method)
    ensures GatewayTargetPath(allow, segments, how).Some? <==>
            && 0 < |segments| <= MAX_PATH_SEGMENTS && AllSafe(segments)
            && (INTERNAL_PREFIX <= PathOf(segments) ==> InternalReadAllowed(PathOf(segments), how))
            && Listed(allow, PathOf(segments), how)
  {
  }

  lemma RoutesAreShort(segments: seq<string>, how: Method)
    requires IsRoute(segments, how)
    ensures 0 < |segments| <= MAX_PATH_SEGMENTS
  {
    TemplatesAreShort(how);
  }

  const APPROVAL := ["api", "v1", "incidents", "i", "entry-packages", "p", "approvals", "entry-path"]

  /** A route as long as the limit, with no segment to spare. */
  lemma ApprovalsRouteIsTheLimit()
    ensures |APPROVAL| == MAX_PATH_SEGMENTS && GatewayTargetPath(CONSOLE, APPROVAL, POST).Some?
  {
    ApprovalIsARoute();
    ApprovalIsSafe();
    ForwardedExactly(APPROVAL, POST);
  }

  lemma ApprovalIsARoute()
    ensures IsRoute(APPROVAL, POST)
  {
    var template := Incident([Lit("entry-packages"), Id, Lit("approvals"), OneOf(["entry-path", "crew-brief"])]);
    assert Templates(POST)[10] == template;
    assert Positional(template, APPROVAL);
  }

  lemma ApprovalIsSafe()
    ensures AllSafe(APPROVAL)
  {
    forall i | 0 <= i < |APPROVAL| ensures IsSafeSegment(APPROVAL[i]) {
      PlainWordIsSafe(APPROVAL[i]);
    }
  }

  /** A map tile is read by its zoom and its two coordinates, one digit each where one is enough. */
  lemma TilesAreForwarded(zoom: string, x: string, y: string)
    requires 1 <= |zoom| <= 2 && 1 <= |x| <= 7 && 1 <= |y| <= 7
    requires forall i :: 0 <= i < |zoom| ==> '0' <= zoom[i] <= '9'
    requires forall i :: 0 <= i < |x| ==> '0' <= x[i] <= '9'
    requires forall i :: 0 <= i < |y| ==> '0' <= y[i] <= '9'
    ensures GatewayTargetPath(CONSOLE, ["api", "v1", "terrain", "imagery", zoom, x, y], GET).Some?
  {
    var tile := ["api", "v1", "terrain", "imagery", zoom, x, y];
    var template := [Lit("api"), Lit("v1"), Lit("terrain"), OneOf(["elevation", "imagery"]), Digits(2), Digits(7), Digits(7)];
    assert Templates(GET)[9] == template;
    assert Positional(template, tile);
    forall i | 0 <= i < |tile| ensures IsSafeSegment(tile[i]) {
      PlainWordIsSafe(tile[i]);
    }
    ForwardedExactly(tile, GET);
  }

  lemma PlainWordIsSafe(word: string)
    requires 1 <= |word| <= 128 && forall i :: 0 <= i < |word| ==> IsAlnum(word[i]) || word[i] == '-'
    ensures IsSafeSegment(word)
  {
    assert word[0] != '.';
  }

  lemma RoutesPassTheGate(segments: seq<string>, how: Method)
    requires segments != [] && AllFree(segments, '/') && IsRoute(segments, how)
    ensures INTERNAL_PREFIX <= PathOf(segments) ==> InternalReadAllowed(PathOf(segments), how)
  {
    InternalBySegments(segments);
    if |segments| > 3 && segments[..3] == INTERNAL {
      InternalRoutesAreViews(segments, how);
      GateBySegments(segments, how);
    }
  }

  // ----------------------------------------------------------- one method only

  /** Enough of a route's third, fifth and last segments to tell any two routes apart. */
  predicate ReadShape(s: seq<string>) {
    || |s| < 3 || |s| == 4
    || (|s| >= 5 && s[2] != [] && (s[2][0] in "bt" || (s[2][0] == 'i' && |s[2]| == 8)))
    || (|s| >= 5 && s[2] != [] && s[2][0] == 'd' && |s[4]| > 4)
    || (|s| >= 5 && s[2] != [] && s[2][0] == 'i' && |s[2]| == 9 && IncidentRead(s))
  }

  predicate IncidentRead(s: seq<string>)
    requires |s| >= 5
  {
    || (|s| == 5 && (|s[4]| == 3 || (|s[4]| == 6 && s[4][0] == 's') || Positional(Incident([Lit("entry-packages")]), s)))
    || (|s| == 6 && (|s[4]| == 3 || |s[4]| == 14 || (|s[4]| == 5 && |s[5]| == 15)))
    || (|s| == 7 && |s[6]| == 3)
  }

  predicate WriteShape(s: seq<string>) {
    || |s| == 3
    || (|s| >= 5 && s[2] != [] && s[2][0] in "cr")
    || (|s| >= 5 && s[2] != [] && s[2][0] == 'd' && |s[4]| == 4)
    || (|s| >= 5 && s[2] != [] && s[2][0] == 'i' && |s[2]| == 9 && IncidentWrite(s))
  }

  predicate IncidentWrite(s: seq<string>)
    requires |s| >= 5
  {
    || (|s| == 5 && |s[4]| != 3 && (|s[4]| == 6 ==> s[4][0] == 'i'))
    || (|s| == 6 && (|s[4]| == 9 || (|s[4]| == 5 && |s[5]| == 6)))
    || (|s| == 7 && |s[6]| == 8)
    || |s| == 8
  }

  lemma ReadsHaveShape(s: seq<string>)
    requires IsRoute(s, GET)
    ensures ReadShape(s)
  {
  }

  lemma WritesHaveShape(s: seq<string>)
    requires IsRoute(s, POST)
    ensures WriteShape(s)
  {
  }

  lemma ShapesMeet(s: seq<string>)
    requires ReadShape(s) && WriteShape(s)
    ensures Positional(Incident([Lit("entry-packages")]), s)
  {
    assert forall c :: c in "bt" ==> c == 'b' || c == 't';
    assert forall c :: c in "cr" ==> c == 'c' || c == 'r';
  }

  /**
   Being listed for one method says nothing about the other: the only path the console may both
   read and write is an incident's entry-package collection.
  */
  lemma SharedByBothMethods(segments: seq<string>)
    ensures IsRoute(segments, GET) && IsRoute(segments, POST) <==>
            Positional(Incident([Lit("entry-packages")]), segments)
  {
    if IsRoute(segments, GET) && IsRoute(segments, POST) {
      ReadsHaveShape(segments);
      WritesHaveShape(segments);
      ShapesMeet(segments);
    }
    if Positional(Incident([Lit("entry-packages")]), segments) {
      assert Templates(GET)[13] == Templates(POST)[9] == Incident([Lit("entry-packages")]);
    }
  }
}
