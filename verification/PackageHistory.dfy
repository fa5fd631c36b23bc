/**
 The entry package as the backend keeps it: one append-only incident log, one
 whole document per state change, and the last document naming a package is the
 package. The console's replica is fed from here.
*/
module PackageHistory {
  import opened Options

  datatype Half = EntryPath | CrewBrief

  /** Who acted, and when: what an approval or a send writes onto the document. */
  datatype Mark = Mark(who: string, at: int)

  datatype Status = AwaitingApproval | ReadyToSend | Sent

  /** `documents` stands for the assessment, path and brief, composed once. */
  datatype Package = Package(
    id: string,
    documents: int,
    path: Option<Mark>,
    brief: Option<Mark>,
    sent: Option<Mark>)
  {
    predicate Signed(half: Half) {
      match half
      case EntryPath => path.Some?
      case CrewBrief => brief.Some?
    }

    function Outstanding(): seq<Half> {
      (if path.Some? then [] else [EntryPath]) + (if brief.Some? then [] else [CrewBrief])
    }

    function Status(): Status {
      if sent.Some? then Sent else if path.Some? && brief.Some? then ReadyToSend else AwaitingApproval
    }

    function WithApproval(half: Half, mark: Mark): Package {
      match half
      case EntryPath => this.(path := Some(mark))
      case CrewBrief => this.(brief := Some(mark))
    }

    /** Both halves come before the send. */
    predicate SignedBeforeSent() {
      sent.Some? ==> path.Some? && brief.Some?
    }
  }

  /** The console's integer reading: a send outranks any pair of halves. */
  function Progress(p: Package): nat {
    (if p.sent.Some? then 4 else 0) + (2 - |p.Outstanding()|)
  }

  type Log = seq<Package>

  // ------------------------------------------------------------ reading it

  /** The last entry naming `id`: what reading one package returns. */
  function Latest(log: Log, id: string): (r: Option<Package>)
    ensures r.Some? ==> r.value in log && r.value.id == id
    ensures r.None? <==> forall p :: p in log ==> p.id != id
  {
    if log == [] then None
    else
      var last := log[|log| - 1];
      assert log == log[..|log| - 1] + [last];
      if last.id == id then Some(last) else Latest(log[..|log| - 1], id)
  }

  /** Package ids in the order the log first named them. */
  function Order(log: Log): seq<string> {
    if log == [] then []
    else
      var before := Order(log[..|log| - 1]);
      var id := log[|log| - 1].id;
      if id in before then before else before + [id]
  }

  lemma {:induction false} OrderMembers(log: Log)
    ensures forall id :: id in Order(log) <==> Latest(log, id).Some?
    ensures forall i, j :: 0 <= i < j < |Order(log)| ==> Order(log)[i] != Order(log)[j]
  {
    if log != [] {
      OrderMembers(log[..|log| - 1]);
    }
  }

  /** The latest state of every package, first-seen order. */
  function Listed(log: Log): (r: seq<Package>)
    ensures |r| == |Order(log)|
    ensures forall i :: 0 <= i < |r| ==> Latest(log, Order(log)[i]) == Some(r[i])
  {
    OrderMembers(log);
    seq(|Order(log)|, i requires 0 <= i < |Order(log)| => Latest(log, Order(log)[i]).value)
  }

  /** The backend's own listing: one walk keeping a latest map and an order list. */
  method ListPackages(log: Log) returns (listed: seq<Package>)
    ensures listed == Listed(log)
  {
    var latest: map<string, Package> := map[];
    var order: seq<string> := [];
    for n := 0 to |log|
      invariant order == Order(log[..n])
      invariant forall id :: id in latest <==> id in order
      invariant forall id :: id in latest ==> Latest(log[..n], id) == Some(latest[id])
    {
      assert log[..n + 1][..n] == log[..n];
      OrderMembers(log[..n]);
      if log[n].id !in latest {
        order := order + [log[n].id];
      }
      latest := latest[log[n].id := log[n]];
    }
    assert log[..|log|] == log;
    listed := seq(|order|, i requires 0 <= i < |order| => latest[order[i]]);
  }

  lemma {:induction false} LatestExtended(log: Log, more: Log, id: string)
    ensures Latest(log + more, id) == (if Latest(more, id).Some? then Latest(more, id) else Latest(log, id))
  {
    if more == [] {
      assert log + more == log;
    } else {
      assert (log + more)[..|log + more| - 1] == log + more[..|more| - 1];
      LatestExtended(log, more[..|more| - 1], id);
    }
  }

  // ------------------------------------------------------------ writing it

  datatype Write =
    | Compose(id: string, documents: int)
    | Approve(id: string, half: Half, mark: Mark)
    | Dispatch(id: string, mark: Mark, permitted: bool)

  /** Every way a request can end. `Kept` is the dispatch of a package already sent. */
  datatype Outcome =
    | Appended(doc: Package)
    | Kept(doc: Package)
    | NotFound
    | HalvesOutstanding(halves: seq<Half>)
    | NotPermitted

  /** What a request decides, from the log it read. */
  function Decide(read: Log, w: Write): Outcome {
    match w
    case Compose(id, documents) => Appended(Package(id, documents, None, None, None))
    case Approve(id, half, mark) =>
      (match Latest(read, id)
       case None => NotFound
       case Some(p) => Appended(p.WithApproval(half, mark)))
    case Dispatch(id, mark, permitted) =>
      match Latest(read, id)
      case None => NotFound
      case Some(p) =>
        if p.Status() == Sent then Kept(p)
        else if p.Outstanding() != [] then HalvesOutstanding(p.Outstanding())
        else if !permitted then NotPermitted
        else Appended(p.(sent := Some(mark)))
  }

  // ------------------------------------------------- what a request may change

  /** A composition carries what it was given, and nothing is signed or sent. */
  lemma ComposingSignsNothing(read: Log, id: string, documents: int)
    ensures Decide(read, Compose(id, documents)).Appended?
    ensures var doc := Decide(read, Compose(id, documents)).doc;
            doc.id == id && doc.documents == documents && doc.path.None? && doc.brief.None? && doc.sent.None?
  {
  }

  /** An approval is appended exactly when the package is known, and sets its own half of the document it read and nothing else. */
  lemma ApprovingSetsOneHalf(read: Log, id: string, half: Half, mark: Mark)
    ensures Decide(read, Approve(id, half, mark)) == NotFound <==> Latest(read, id).None?
    ensures Latest(read, id).Some? ==> Decide(read, Approve(id, half, mark)).Appended?
    ensures Latest(read, id).Some? ==>
              var doc, base := Decide(read, Approve(id, half, mark)).doc, Latest(read, id).value;
              && doc.id == base.id && doc.documents == base.documents && doc.sent == base.sent
              && doc.path == (if half == EntryPath then Some(mark) else base.path)
              && doc.brief == (if half == CrewBrief then Some(mark) else base.brief)
  {
  }

  /**
   A dispatch is appended exactly when the package is known, unsent, signed twice and
   permitted, and sets nothing but who sent the document it read; an already sent one
   is kept, and each refusal names its own reason.
  */
  lemma SendingSetsOnlySent(read: Log, id: string, mark: Mark, permitted: bool)
    ensures var o, base := Decide(read, Dispatch(id, mark, permitted)), Latest(read, id);
            && (o == NotFound <==> base.None?)
            && (o.Appended? <==> base.Some? && base.value.sent.None? && base.value.path.Some? && base.value.brief.Some? && permitted)
            && (o.Appended? ==> o.doc.id == base.value.id && o.doc.documents == base.value.documents
                                && o.doc.path == base.value.path && o.doc.brief == base.value.brief && o.doc.sent == Some(mark))
            && (o.Kept? <==> base.Some? && base.value.sent.Some?)
            && (o.Kept? ==> o.doc == base.value)
            && (o.HalvesOutstanding? <==> base.Some? && base.value.sent.None? && !(base.value.path.Some? && base.value.brief.Some?))
            && (o.HalvesOutstanding? ==> forall half :: half in o.halves <==> !base.value.Signed(half))
  {
    OutstandingExactly(Latest(read, id));
  }

  /** The halves still waiting are the unsigned ones, the path before the brief. */
  lemma OutstandingExactly(package: Option<Package>)
    ensures package.Some? ==>
              var halves := package.value.Outstanding();
              && (EntryPath in halves <==> package.value.path.None?) && (CrewBrief in halves <==> package.value.brief.None?)
              && |halves| == (if package.value.path.None? then 1 else 0) + (if package.value.brief.None? then 1 else 0)
              && (|halves| == 2 ==> halves == [EntryPath, CrewBrief])
  {
  }

  /** A request reads the first `readAt` entries, waits on other services, then appends. */
  datatype Request = Request(write: Write, readAt: nat) {
    function Read(log: Log): Log {
      if readAt <= |log| then log[..readAt] else log
    }
  }

  function After(log: Log, r: Request): Log {
    match Decide(r.Read(log), r.write)
    case Appended(doc) => log + [doc]
    case _ => log
  }

  /** A request nothing overlapped. */
  function Serial(log: Log, w: Write): Log {
    match Decide(log, w)
    case Appended(doc) => log + [doc]
    case _ => log
  }

  lemma SerialIsAfter(log: Log, w: Write)
    ensures Serial(log, w) == After(log, Request(w, |log|))
  {
    assert log[..|log|] == log;
  }

  /** The log a run of requests leaves, however they overlapped. */
  function LogOf(requests: seq<Request>): Log {
    if requests == [] then []
    else After(LogOf(requests[..|requests| - 1]), requests[|requests| - 1])
  }

  /** Everything an entry says some request put there: its documents by a composition, each mark by its own kind of request. */
  ghost predicate Asked(requests: seq<Request>, p: Package) {
    && (exists k :: 0 <= k < |requests| && requests[k].write == Compose(p.id, p.documents))
    && (p.path.Some? ==> exists k :: 0 <= k < |requests| && requests[k].write == Approve(p.id, EntryPath, p.path.value))
    && (p.brief.Some? ==> exists k :: 0 <= k < |requests| && requests[k].write == Approve(p.id, CrewBrief, p.brief.value))
    && (p.sent.Some? ==> exists k :: 0 <= k < |requests| && requests[k].write == Dispatch(p.id, p.sent.value, true))
  }

  lemma AskedStays(requests: seq<Request>, r: Request, p: Package)
    requires Asked(requests, p)
    ensures Asked(requests + [r], p)
  {
    var more := requests + [r];
    assert forall k :: 0 <= k < |requests| ==> more[k] == requests[k];
  }

  lemma AppendedWasAsked(front: seq<Request>, r: Request, log: Log)
    requires forall p :: p in log ==> Asked(front, p)
    requires Decide(r.Read(log), r.write).Appended?
    ensures Asked(front + [r], Decide(r.Read(log), r.write).doc)
  {
    var requests := front + [r];
    assert requests[|front|] == r;
    var base := Latest(r.Read(log), r.write.id);
    if base.Some? {
      assert base.value in log;
      AskedStays(front, r, base.value);
    }
  }

  /** However requests overlap, every log entry carries the documents of a composition of its id, and no mark nobody made. */
  lemma {:induction false} EveryFieldWasAsked(requests: seq<Request>)
    ensures forall p :: p in LogOf(requests) ==> Asked(requests, p)
  {
    if requests != [] {
      var front, r := requests[..|requests| - 1], requests[|requests| - 1];
      EveryFieldWasAsked(front);
      assert requests == front + [r];
      forall p | p in LogOf(requests) ensures Asked(requests, p) {
        if p in LogOf(front) {
          AskedStays(front, r, p);
        } else {
          AppendedWasAsked(front, r, LogOf(front));
        }
      }
    }
  }

  /** Whatever the requests and however they overlap, nothing is sent unsigned. */
  lemma {:induction false} NothingSentUnsigned(requests: seq<Request>)
    ensures forall p :: p in LogOf(requests) ==> p.SignedBeforeSent()
  {
    if requests != [] {
      NothingSentUnsigned(requests[..|requests| - 1]);
      AfterKeepsSigned(LogOf(requests[..|requests| - 1]), requests[|requests| - 1]);
    }
  }

  lemma AfterKeepsSigned(log: Log, r: Request)
    requires forall p :: p in log ==> p.SignedBeforeSent()
    ensures forall p :: p in After(log, r) ==> p.SignedBeforeSent()
  {
    if r.write.Approve? || r.write.Dispatch? {
      var base := Latest(r.Read(log), r.write.id);
      assert base.Some? ==> base.value in log;
    }
  }

  // ----------------------------------------------------- one way, or not

  predicate Ahead(later: Package, earlier: Package) {
    later == earlier || Progress(earlier) < Progress(later)
  }

  /** "A number that only ever goes up", entry by entry, for every package. */
  ghost predicate OneWay(log: Log) {
    forall i, j :: 0 <= i < j < |log| && log[i].id == log[j].id ==> Ahead(log[j], log[i])
  }

  /** Along a one-way log, equal progress is the same document. */
  lemma EqualProgressEqualState(log: Log, p: Package, q: Package)
    requires OneWay(log) && p in log && q in log && p.id == q.id
    ensures Progress(p) == Progress(q) <==> p == q
  {
    var i :| 0 <= i < |log| && log[i] == p;
    var j :| 0 <= j < |log| && log[j] == q;
    assert i < j ==> Ahead(q, p);
    assert j < i ==> Ahead(p, q);
  }

  lemma {:induction false} LatestIsFurthest(log: Log, p: Package)
    requires OneWay(log) && p in log
    ensures Latest(log, p.id).Some?
    ensures Ahead(Latest(log, p.id).value, p)
  {
    var front := log[..|log| - 1];
    var last := log[|log| - 1];
    assert log == front + [last];
    if last.id != p.id {
      assert forall i, j :: 0 <= i < j < |front| && front[i].id == front[j].id ==>
        log[i] == front[i] && log[j] == front[j];
      LatestIsFurthest(front, p);
    } else if p != last {
      var i :| 0 <= i < |log| && log[i] == p;
      assert i < |log| - 1;
    }
  }

  /** Nothing named the package between this request's read and its append. */
  predicate ReadLatest(log: Log, r: Request)
  {
    Latest(r.Read(log), r.write.id) == Latest(log, r.write.id)
  }

  /**
   The guard the backend does not have: a composition mints an unused id, an
   approval signs a half still outstanding, and the request read what it replaces.
  */
  predicate Guarded(log: Log, r: Request)
  {
    match r.write
    case Compose(id, _) => Latest(log, id).None?
    case Approve(id, half, _) =>
      ReadLatest(log, r) && (Latest(log, id).Some? ==> !Latest(log, id).value.Signed(half))
    case Dispatch(_, _, _) => ReadLatest(log, r)
  }

  /** The request writes again the very document its package already ends on. */
  predicate Repeats(log: Log, r: Request) {
    var top := Latest(log, r.write.id);
    top.Some? && Decide(r.Read(log), r.write) == Appended(top.value)
  }

  /** Exactly when an accepted request moves its package forward. */
  lemma AppendKeepsOneWay(log: Log, r: Request)
    requires OneWay(log) && After(log, r) != log
    requires forall p :: p in log ==> p.SignedBeforeSent()
    ensures OneWay(After(log, r)) <==> Guarded(log, r) || Repeats(log, r)
  {
    var base := Latest(r.Read(log), r.write.id);
    var top := Latest(log, r.write.id);
    var doc := Decide(r.Read(log), r.write).doc;
    assert After(log, r) == log + [doc];
    OneWayExtended(log, doc);
    ReadIsBehind(log, r);
    match r.write
    case Compose(_, _) =>
    case Approve(_, half, mark) => SigningCounts(base.value, half, mark);
    case Dispatch(_, mark, _) =>
  }

  /** What a request read is the latest document, or strictly behind it. */
  lemma ReadIsBehind(log: Log, r: Request)
    requires OneWay(log)
    ensures ReadLatest(log, r) || Latest(log, r.write.id).Some?
    ensures Latest(r.Read(log), r.write.id).Some? ==>
      ReadLatest(log, r) ||
      Progress(Latest(r.Read(log), r.write.id).value) < Progress(Latest(log, r.write.id).value)
  {
    var id := r.write.id;
    assert r.Read(log) + log[|r.Read(log)|..] == log;
    LatestExtended(r.Read(log), log[|r.Read(log)|..], id);
    if Latest(r.Read(log), id).Some? {
      LatestIsFurthest(log, Latest(r.Read(log), id).value);
    }
  }

  /** Every request that appended, appended under the guard. */
  predicate AllGuarded(requests: seq<Request>) {
    requests != [] ==>
      var front, r := requests[..|requests| - 1], requests[|requests| - 1];
      AllGuarded(front) && (After(LogOf(front), r) == LogOf(front) || Guarded(LogOf(front), r)
                            || Repeats(LogOf(front), r))
  }

  /** A run stays one-way exactly when every request that appended was guarded. */
  lemma {:induction false} OneWayRuns(requests: seq<Request>)
    ensures OneWay(LogOf(requests)) <==> AllGuarded(requests)
  {
    if requests != [] {
      var front, r := requests[..|requests| - 1], requests[|requests| - 1];
      var log := LogOf(front);
      OneWayRuns(front);
      if After(log, r) != log {
        var doc := Decide(r.Read(log), r.write).doc;
        if OneWay(log + [doc]) {
          OneWayShortened(log, doc);
        }
        if OneWay(log) {
          NothingSentUnsigned(front);
          AppendKeepsOneWay(log, r);
        }
      }
    }
  }

  lemma OneWayShortened(log: Log, doc: Package)
    requires OneWay(log + [doc])
    ensures OneWay(log)
  {
    forall i, j | 0 <= i < j < |log| && log[i].id == log[j].id ensures Ahead(log[j], log[i]) {
      assert (log + [doc])[i] == log[i] && (log + [doc])[j] == log[j];
    }
  }

  lemma SigningCounts(p: Package, half: Half, mark: Mark)
    ensures Progress(p.WithApproval(half, mark)) == Progress(p) + (if p.Signed(half) then 0 else 1)
  {
  }

  lemma OneWayExtended(log: Log, doc: Package)
    requires OneWay(log)
    ensures OneWay(log + [doc]) <==>
      Latest(log, doc.id).None? || Ahead(doc, Latest(log, doc.id).value)
  {
    var next := log + [doc];
    if Latest(log, doc.id).Some? {
      var top := Latest(log, doc.id).value;
      var k :| 0 <= k < |log| && log[k] == top;
      assert next[k] == top && next[|log|] == doc;
      forall i | 0 <= i < |log| && log[i].id == doc.id
        ensures Ahead(top, log[i])
      {
        LatestIsFurthest(log, log[i]);
      }
    }
    forall i | 0 <= i < |log| && Latest(log, doc.id).None? ensures log[i].id != doc.id {
      assert log[i] in log;
    }
    assert OneWay(next) ==> forall i :: 0 <= i < |log| && log[i].id == doc.id ==>
      Ahead(next[|log|], next[i]);
  }

  // --------------------------------------------- one way as far as the send

  /** The last entry naming `id` that is not a sent package: what a console still polling may hold. */
  function LastUnsent(log: Log, id: string): (r: Option<Package>)
    ensures r.Some? ==> r.value in log && r.value.id == id && r.value.sent.None?
    ensures r.None? <==> forall p :: p in log && p.id == id ==> p.sent.Some?
  {
    if log == [] then None
    else
      var last := log[|log| - 1];
      assert log == log[..|log| - 1] + [last];
      if last.id == id && last.sent.None? then Some(last) else LastUnsent(log[..|log| - 1], id)
  }

  /** One way from every unsent entry on; what follows a send is left open. */
  ghost predicate UnsentOneWay(log: Log) {
    forall i, j :: 0 <= i < j < |log| && log[i].id == log[j].id && log[i].sent.None? ==> Ahead(log[j], log[i])
  }

  lemma UnsentShortened(log: Log, n: nat)
    requires UnsentOneWay(log) && n <= |log|
    ensures UnsentOneWay(log[..n])
  {
    var now := log[..n];
    forall i, j | 0 <= i < j < |now| && now[i].id == now[j].id && now[i].sent.None? ensures Ahead(now[j], now[i]) {
      assert log[i] == now[i] && log[j] == now[j];
    }
  }

  lemma {:induction false} LastUnsentIsFurthest(log: Log, p: Package)
    requires UnsentOneWay(log) && p in log && p.sent.None?
    ensures LastUnsent(log, p.id).Some?
    ensures Ahead(LastUnsent(log, p.id).value, p)
  {
    var front, last := log[..|log| - 1], log[|log| - 1];
    assert log == front + [last];
    if last.id != p.id || last.sent.Some? {
      UnsentShortened(log, |log| - 1);
      LastUnsentIsFurthest(front, p);
    } else if p != last {
      var i :| 0 <= i < |log| && log[i] == p;
      assert i < |log| - 1;
    }
  }

  lemma {:induction false} LatestIsPastUnsent(log: Log, p: Package)
    requires UnsentOneWay(log) && p in log && p.sent.None?
    ensures Latest(log, p.id).Some?
    ensures Ahead(Latest(log, p.id).value, p)
  {
    var front, last := log[..|log| - 1], log[|log| - 1];
    assert log == front + [last];
    if last.id != p.id {
      UnsentShortened(log, |log| - 1);
      LatestIsPastUnsent(front, p);
    } else if p != last {
      var i :| 0 <= i < |log| && log[i] == p;
      assert i < |log| - 1;
    }
  }

  lemma UnsentExtended(log: Log, doc: Package)
    requires UnsentOneWay(log)
    ensures UnsentOneWay(log + [doc]) <==>
      LastUnsent(log, doc.id).None? || Ahead(doc, LastUnsent(log, doc.id).value)
  {
    var next, top := log + [doc], LastUnsent(log, doc.id);
    if UnsentOneWay(next) && top.Some? {
      var k :| 0 <= k < |log| && log[k] == top.value;
      assert next[k] == top.value && next[|log|] == doc;
    }
    if top.None? || Ahead(doc, top.value) {
      forall i, j | 0 <= i < j < |next| && next[i].id == next[j].id && next[i].sent.None? ensures Ahead(next[j], next[i]) {
        assert next[i] == log[i] && log[i] in log;
        if j < |log| {
          assert next[j] == log[j];
        } else {
          LastUnsentIsFurthest(log, log[i]);
        }
      }
    }
  }

  /**
   What a request must meet not to fall behind an unsent document. A send needs
   nothing, nor does an approval of a document already sent; any other approval
   must sign an outstanding half of the last unsent document.
  */
  predicate Forward(log: Log, r: Request) {
    match r.write
    case Compose(id, _) => LastUnsent(log, id).None?
    case Approve(id, half, _) =>
      var base := Latest(r.Read(log), id);
      base.Some? && base.value.sent.None? ==> base == LastUnsent(log, id) && !base.value.Signed(half)
    case Dispatch(_, _, _) => true
  }

  /** The request writes the last unsent document once more. */
  predicate RepeatsUnsent(log: Log, r: Request) {
    var top := LastUnsent(log, r.write.id);
    top.Some? && Decide(r.Read(log), r.write) == Appended(top.value)
  }

  lemma AppendKeepsUnsentOneWay(log: Log, r: Request)
    requires UnsentOneWay(log) && After(log, r) != log
    requires forall p :: p in log ==> p.SignedBeforeSent()
    ensures UnsentOneWay(After(log, r)) <==> Forward(log, r) || RepeatsUnsent(log, r)
  {
    var base, top := Latest(r.Read(log), r.write.id), LastUnsent(log, r.write.id);
    var doc := Decide(r.Read(log), r.write).doc;
    assert After(log, r) == log + [doc];
    UnsentExtended(log, doc);
    if r.write.Approve? {
      SigningCounts(base.value, r.write.half, r.write.mark);
    }
    if !r.write.Compose? {
      assert base.value in log;
      if base.value.sent.None? {
        LastUnsentIsFurthest(log, base.value);
      }
    }
  }

  /** Every request that appended moved forward from the last unsent document, or repeated it. */
  predicate AllForward(requests: seq<Request>) {
    requests != [] ==>
      var front, r := requests[..|requests| - 1], requests[|requests| - 1];
      AllForward(front) && (After(LogOf(front), r) == LogOf(front) || Forward(LogOf(front), r)
                            || RepeatsUnsent(LogOf(front), r))
  }

  /** A run never falls behind an unsent document exactly when every request that appended moved forward. */
  lemma {:induction false} UnsentOneWayRuns(requests: seq<Request>)
    ensures UnsentOneWay(LogOf(requests)) <==> AllForward(requests)
  {
    if requests != [] {
      var front, r := requests[..|requests| - 1], requests[|requests| - 1];
      var log := LogOf(front);
      UnsentOneWayRuns(front);
      if After(log, r) != log {
        var doc := Decide(r.Read(log), r.write).doc;
        if UnsentOneWay(log + [doc]) {
          UnsentShortened(log + [doc], |log|);
          assert (log + [doc])[..|log|] == log;
        }
        if UnsentOneWay(log) {
          NothingSentUnsigned(front);
          AppendKeepsUnsentOneWay(log, r);
        }
      }
    }
  }

  // ------------------------------------------------------- what overlaps do

  const COMPOSED := Package("pkg", 0, None, None, None)
  const PATH_SIGNED := COMPOSED.(path := Some(Mark("A", 1)))
  const BOTH_SIGNED := PATH_SIGNED.(brief := Some(Mark("B", 2)))
  const SENT_ONCE := BOTH_SIGNED.(sent := Some(Mark("B", 4)))

  const COMPOSES := Request(Compose("pkg", 0), 0)
  const SIGNS_PATH := Request(Approve("pkg", EntryPath, Mark("A", 1)), 1)
  const SIGNS_BRIEF := Request(Approve("pkg", CrewBrief, Mark("B", 2)), 2)
  const SENDS := Request(Dispatch("pkg", Mark("B", 4), true), 3)

  lemma LogAfter(front: seq<Request>, r: Request)
    ensures LogOf(front + [r]) == After(LogOf(front), r)
  {
    assert (front + [r])[..|front|] == front;
  }

  lemma OneServed(r: Request, log: Log, front: seq<Request>, doc: Package)
    requires LogOf(front) == log && r.readAt <= |log| && Decide(log[..r.readAt], r.write) == Appended(doc)
    ensures LogOf(front + [r]) == log + [doc]
  {
    LogAfter(front, r);
  }

  lemma ServedComposed()
    ensures LogOf([COMPOSES]) == [COMPOSED]
  {
    var nothing: Log := [];
    assert nothing[..0] == [];
    OneServed(COMPOSES, nothing, [], COMPOSED);
    assert [] + [COMPOSES] == [COMPOSES];
  }

  lemma ServedPathSigned()
    ensures LogOf([COMPOSES, SIGNS_PATH]) == [COMPOSED, PATH_SIGNED]
  {
    ServedComposed();
    assert [COMPOSED][..1] == [COMPOSED];
    OneServed(SIGNS_PATH, [COMPOSED], [COMPOSES], PATH_SIGNED);
    assert [COMPOSES] + [SIGNS_PATH] == [COMPOSES, SIGNS_PATH];
  }

  lemma ServedBothSigned()
    ensures LogOf([COMPOSES, SIGNS_PATH, SIGNS_BRIEF]) == [COMPOSED, PATH_SIGNED, BOTH_SIGNED]
  {
    ServedPathSigned();
    var log := [COMPOSED, PATH_SIGNED];
    assert log[..2] == log;
    OneServed(SIGNS_BRIEF, log, [COMPOSES, SIGNS_PATH], BOTH_SIGNED);
    assert [COMPOSES, SIGNS_PATH] + [SIGNS_BRIEF] == [COMPOSES, SIGNS_PATH, SIGNS_BRIEF];
  }

  /** The log of a package composed, signed twice and sent, as four requests leave it. */
  lemma ServedAndSent()
    ensures LogOf([COMPOSES, SIGNS_PATH, SIGNS_BRIEF, SENDS]) == [COMPOSED, PATH_SIGNED, BOTH_SIGNED, SENT_ONCE]
  {
    ServedBothSigned();
    var log := [COMPOSED, PATH_SIGNED, BOTH_SIGNED];
    assert log[..3] == log;
    OneServed(SENDS, log, [COMPOSES, SIGNS_PATH, SIGNS_BRIEF], SENT_ONCE);
    assert [COMPOSES, SIGNS_PATH, SIGNS_BRIEF] + [SENDS] == [COMPOSES, SIGNS_PATH, SIGNS_BRIEF, SENDS];
  }

  /** Signing a half twice is accepted: a new document that reads as no progress. */
  lemma SecondSignatureReadsAsNoProgress()
    ensures var again := Request(Approve("pkg", EntryPath, Mark("C", 3)), 2);
      var signed := COMPOSED.(path := Some(Mark("C", 3)));
      && LogOf([COMPOSES, SIGNS_PATH] + [again]) == [COMPOSED, PATH_SIGNED] + [signed]
      && signed != PATH_SIGNED && Progress(signed) == Progress(PATH_SIGNED)
  {
    ServedPathSigned();
    var again, signed := Request(Approve("pkg", EntryPath, Mark("C", 3)), 2), COMPOSED.(path := Some(Mark("C", 3)));
    assert [COMPOSED, PATH_SIGNED][..2] == [COMPOSED, PATH_SIGNED];
    OneServed(again, [COMPOSED, PATH_SIGNED], [COMPOSES, SIGNS_PATH], signed);
  }

  /** Two approvals that read the same log: the second append drops the first signature. */
  lemma OverlapDropsASignature()
    ensures var late := LogOf([COMPOSES, SIGNS_PATH] + [SIGNS_BRIEF.(readAt := 1)]);
      && Latest(late, "pkg") == Some(COMPOSED.(brief := Some(Mark("B", 2))))
      && Latest(late, "pkg").value.path.None?
  {
    ServedPathSigned();
    assert [COMPOSED, PATH_SIGNED][..1] == [COMPOSED];
    OneServed(SIGNS_BRIEF.(readAt := 1), [COMPOSED, PATH_SIGNED], [COMPOSES, SIGNS_PATH],
              COMPOSED.(brief := Some(Mark("B", 2))));
  }

  /** An approval that read before a send and appends after it takes the send back. */
  lemma OverlapTakesBackASend()
    ensures var log := LogOf([COMPOSES, SIGNS_PATH, SIGNS_BRIEF, SENDS]);
      var late := LogOf([COMPOSES, SIGNS_PATH, SIGNS_BRIEF, SENDS] + [Request(Approve("pkg", CrewBrief, Mark("C", 5)), 3)]);
      && Latest(log, "pkg").Some? && Latest(log, "pkg").value.Status() == Sent
      && Latest(late, "pkg").Some? && Latest(late, "pkg").value.Status() == ReadyToSend
  {
    ServedAndSent();
    var log := [COMPOSED, PATH_SIGNED, BOTH_SIGNED, SENT_ONCE];
    assert log[..3] == [COMPOSED, PATH_SIGNED, BOTH_SIGNED];
    OneServed(Request(Approve("pkg", CrewBrief, Mark("C", 5)), 3), log, [COMPOSES, SIGNS_PATH, SIGNS_BRIEF, SENDS],
              PATH_SIGNED.(brief := Some(Mark("C", 5))));
  }

  const SENDS_AGAIN := Request(Dispatch("pkg", Mark("C", 5), true), 3)
  const SENT_TWICE := BOTH_SIGNED.(sent := Some(Mark("C", 5)))

  lemma ServedTwice()
    ensures LogOf([COMPOSES, SIGNS_PATH, SIGNS_BRIEF, SENDS] + [SENDS_AGAIN]) ==
            [COMPOSED, PATH_SIGNED, BOTH_SIGNED, SENT_ONCE] + [SENT_TWICE]
  {
    ServedAndSent();
    var log := [COMPOSED, PATH_SIGNED, BOTH_SIGNED, SENT_ONCE];
    assert log[..3] == [COMPOSED, PATH_SIGNED, BOTH_SIGNED];
    OneServed(SENDS_AGAIN, log, [COMPOSES, SIGNS_PATH, SIGNS_BRIEF, SENDS], SENT_TWICE);
  }

  lemma SentTwiceIsUnsentOneWay(log: Log)
    requires log == [COMPOSED, PATH_SIGNED, BOTH_SIGNED, SENT_ONCE] + [SENT_TWICE]
    ensures !OneWay(log) && UnsentOneWay(log)
  {
    assert log[3] == SENT_ONCE && log[4] == SENT_TWICE;
    assert !Ahead(log[4], log[3]);
  }

  /** Overlapping sends break the one-way log but fall behind no unsent document. */
  lemma OverlappingSendsStayForward()
    ensures var requests := [COMPOSES, SIGNS_PATH, SIGNS_BRIEF, SENDS] + [SENDS_AGAIN];
            !AllGuarded(requests) && AllForward(requests)
  {
    var requests := [COMPOSES, SIGNS_PATH, SIGNS_BRIEF, SENDS] + [SENDS_AGAIN];
    ServedTwice();
    SentTwiceIsUnsentOneWay(LogOf(requests));
    OneWayRuns(requests);
    UnsentOneWayRuns(requests);
  }

  // ---------------------------------------------------------- two packages

  const A_COMPOSED := Package("a", 0, None, None, None)
  const B_COMPOSED := Package("b", 1, None, None, None)

  const COMPOSES_A := Request(Compose("a", 0), 0)
  const COMPOSES_B := Request(Compose("b", 1), 1)

  lemma ServedNext(front: seq<Request>, r: Request, log: Log, doc: Package)
    requires LogOf(front) == log && r.readAt == |log| && Decide(log, r.write) == Appended(doc)
    ensures LogOf(front + [r]) == log + [doc]
  {
    assert log[..|log|] == log;
    OneServed(r, log, front, doc);
  }

  lemma ServedBothComposed()
    ensures LogOf([COMPOSES_A, COMPOSES_B]) == [A_COMPOSED, B_COMPOSED]
  {
    assert [] + [COMPOSES_A] == [COMPOSES_A];
    ServedNext([], COMPOSES_A, [], A_COMPOSED);
    ServedNext([COMPOSES_A], COMPOSES_B, [A_COMPOSED], B_COMPOSED);
    assert [COMPOSES_A] + [COMPOSES_B] == [COMPOSES_A, COMPOSES_B];
  }
}
