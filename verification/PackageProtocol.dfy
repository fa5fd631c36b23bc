/**
 The replica protocol as a step system. The backend serves overlapping requests;
 the console hears of them from a stream that may replay, a poll and a list read
 whose answers may be stale, and the answers to its own writes, in any order.
*/
module PackageProtocol {
  import opened Options
  import opened PackageHistory
  import opened PackageReplica

  /** A read round: the list first, then one full document per id asked for. */
  datatype Round = Idle | Listing(since: nat) | Reading(ids: seq<string>, since: nat)

  datatype State = State(requests: seq<Request>, poll: Round, fallback: Round, replica: Replica) {
    function Log(): Log { LogOf(requests) }
  }

  const START := State([], Idle, Idle, EMPTY)

  datatype Step =
    | BackendServes(r: Request)
    | StreamDelivers(frames: seq<Frame>)
    | WriteAnswers(doc: Package)
    | Renders
    | AsksForList
    | PollTicks
    | PollListed(answer: Option<nat>)
    | PollReads(answers: seq<Option<Package>>)
    | PollCancelled
    | ListStarts
    | ListListed(answer: Option<nat>)
    | ListReads(answers: seq<Option<Package>>)
    | ListCancelled

  /** A frame the backend could have sent: the log's own entry, or unreadable. */
  predicate FrameOf(log: Log, f: Frame) {
    f.CarriesPackage() ==>
      f.sequence < |log| && (f.payload.Some? ==> f.payload.value == log[f.sequence])
  }

  function Summaries(listed: seq<Package>): seq<Row> {
    if listed == [] then [] else Summaries(listed[..|listed| - 1]) + [Summary(listed[|listed| - 1])]
  }

  function IdsOfRows(rows: seq<Row>): seq<string> {
    seq(|rows|, i requires 0 <= i < |rows| => rows[i].id)
  }

  /** Each answer failed, or is the package as some log since the request had it. */
  ghost predicate Answered(log: Log, ids: seq<string>, since: nat, answers: seq<Option<Package>>) {
    && |answers| == |ids|
    && forall i :: 0 <= i < |ids| && answers[i].Some? ==>
         exists k :: since <= k <= |log| && answers[i] == Latest(log[..k], ids[i])
  }

  ghost predicate Next(s: State, step: Step, t: State) {
    var log, r := s.Log(), s.replica;
    match step
    case BackendServes(request) => t == s.(requests := s.requests + [request])
    case StreamDelivers(frames) =>
      && (forall f :: f in frames ==> FrameOf(log, f))
      && t == s.(replica := r.OnEntries(frames))
    case WriteAnswers(doc) => doc in log && t == s.(replica := r.Apply(doc))
    case Renders => t == s.(replica := r.Commit())
    case AsksForList => t == s.(replica := r.(needsList := r.needsList + 1))
    case PollTicks =>
      s.poll.Idle? && !r.PollStopped() && t == s.(poll := Listing(|log|))
    case PollListed(answer) =>
      && s.poll.Listing?
      && (answer.Some? ==> s.poll.since <= answer.value <= |log|)
      && t == s.(poll :=
           if answer.None? then Idle
           else
             var wanted := Wanted(r.held, Summaries(Listed(log[..answer.value])));
             if wanted == [] then Idle else Reading(wanted, |log|))
    case PollReads(answers) =>
      && s.poll.Reading?
      && Answered(log, s.poll.ids, s.poll.since, answers)
      && t == s.(poll := Idle, replica := r.OnPollAnswers(answers))
    case PollCancelled => t == s.(poll := Idle)
    case ListStarts => r.needsList > 0 && t == s.(fallback := Listing(|log|))
    case ListListed(answer) =>
      && s.fallback.Listing?
      && (answer.Some? ==> s.fallback.since <= answer.value <= |log|)
      && t == s.(fallback :=
           if answer.None? then Idle
           else Reading(IdsOfRows(Summaries(Listed(log[..answer.value]))), |log|))
    case ListReads(answers) =>
      && s.fallback.Reading?
      && Answered(log, s.fallback.ids, s.fallback.since, answers)
      && t == s.(fallback := Idle, replica := r.OnListAnswers(answers))
    case ListCancelled => t == s.(fallback := Idle)
  }

  /** A run: it starts empty and every state comes from the one before by a step. */
  ghost predicate Run(states: seq<State>, steps: seq<Step>) {
    && |states| == |steps| + 1
    && states[0] == START
    && forall i :: 0 <= i < |steps| ==> Next(states[i], steps[i], states[i + 1])
  }

  // ------------------------------------------------- what every state keeps

  ghost predicate Real(log: Log, held: seq<Package>) {
    DistinctIds(held) && forall p :: p in held ==> p in log
  }

  ghost predicate Inv(s: State) {
    Real(s.Log(), s.replica.packages) && Real(s.Log(), s.replica.held)
  }

  lemma AnswersAreReal(log: Log, ids: seq<string>, since: nat, answers: seq<Option<Package>>)
    requires Answered(log, ids, since, answers)
    ensures forall p :: Some(p) in answers ==> p in log
  {
    forall p | Some(p) in answers ensures p in log {
      var i :| 0 <= i < |answers| && answers[i] == Some(p);
      var k :| since <= k <= |log| && answers[i] == Latest(log[..k], ids[i]);
    }
  }

  lemma {:induction false} DecodedAreReal(log: Log, seen: set<nat>, frames: seq<Frame>)
    requires forall f :: f in frames ==> FrameOf(log, f)
    ensures forall p :: p in Scan(seen, frames).decoded ==> p in log
  {
    if frames != [] {
      DecodedAreReal(log, seen, frames[..|frames| - 1]);
      assert frames[|frames| - 1] in frames;
    }
  }

  lemma LogGrows(requests: seq<Request>, r: Request)
    ensures LogOf(requests) <= LogOf(requests + [r])
  {
    assert (requests + [r])[..|requests + [r]| - 1] == requests;
  }

  /** Every step keeps the held packages real, distinct and in first-seen order. */
  lemma StepKeepsInv(s: State, step: Step, t: State)
    requires Inv(s) && Next(s, step, t)
    ensures Inv(t)
    ensures Ids(s.replica.packages) <= Ids(t.replica.packages)
    ensures s.Log() <= t.Log()
  {
    var log, packages := s.Log(), s.replica.packages;
    match step
    case BackendServes(r) => LogGrows(s.requests, r);
    case StreamDelivers(frames) =>
      DecodedAreReal(log, s.replica.seen, frames);
      FoldAllShape(packages, Scan(s.replica.seen, frames).decoded);
    case WriteAnswers(doc) => FoldShape(packages, doc);
    case PollReads(answers) =>
      AnswersAreReal(log, s.poll.ids, s.poll.since, answers);
      PollRoundNeverLowers(packages, answers);
    case ListReads(answers) =>
      AnswersAreReal(log, s.fallback.ids, s.fallback.since, answers);
      ListRoundShape(packages, answers);
    case _ =>
  }

  /**
   In every reachable state the held packages have distinct ids, each is a state
   the backend really had, and none was sent unsigned.
  */
  lemma {:induction false} HeldPackagesAreReal(states: seq<State>, steps: seq<Step>)
    requires Run(states, steps)
    ensures Inv(states[|steps|])
    ensures forall p :: p in states[|steps|].replica.packages ==> p.SignedBeforeSent()
    decreases |steps|
  {
    if steps != [] {
      var n := |steps|;
      HeldPackagesAreReal(states[..n], steps[..n - 1]);
      StepKeepsInv(states[n - 1], steps[n - 1], states[n]);
    }
    NothingSentUnsigned(states[|steps|].requests);
  }

  /** Nothing held is ever dropped or moved: order is first-seen order, for good. */
  lemma {:induction false} FirstSeenOrderIsKept(states: seq<State>, steps: seq<Step>, i: nat)
    requires Run(states, steps) && i <= |steps|
    ensures Ids(states[i].replica.packages) <= Ids(states[|steps|].replica.packages)
    decreases |steps|
  {
    if i < |steps| {
      var n := |steps|;
      HeldPackagesAreReal(states[..n], steps[..n - 1]);
      FirstSeenOrderIsKept(states[..n], steps[..n - 1], i);
      StepKeepsInv(states[n - 1], steps[n - 1], states[n]);
    }
  }

  /** No poll step lowers any package's progress. */
  lemma PollStepsNeverLower(s: State, step: Step, t: State, id: string)
    requires Inv(s) && Next(s, step, t)
    requires step.PollTicks? || step.PollListed? || step.PollReads? || step.PollCancelled?
    requires Find(s.replica.packages, id).Some?
    ensures Find(t.replica.packages, id).Some?
    ensures Ahead(Find(t.replica.packages, id).value, Find(s.replica.packages, id).value)
  {
    if step.PollReads? {
      var packages := s.replica.packages;
      PollRoundNeverLowers(packages, step.answers);
      var k := IndexOf(packages, id);
      var next := t.replica.packages;
      assert Ids(next)[k] == Ids(packages)[k];
      FindIs(next, next[k]);
    }
  }

  // ------------------------------------------------------- reachable states

  ghost predicate Reachable(s: State) {
    exists states, steps :: Run(states, steps) && states[|steps|] == s
  }

  lemma StartIsReachable()
    ensures Reachable(START)
  {
    var states, steps: seq<Step> := [START], [];
    assert Run(states, steps) && states[|steps|] == START;
  }

  lemma StepIsReachable(s: State, step: Step, t: State)
    requires Reachable(s) && Next(s, step, t)
    ensures Reachable(t)
  {
    var states, steps :| Run(states, steps) && states[|steps|] == s;
    var states', steps' := states + [t], steps + [step];
    forall i | 0 <= i < |steps'| ensures Next(states'[i], steps'[i], states'[i + 1]) {
    }
    assert Run(states', steps') && states'[|steps'|] == t;
  }

  lemma ReachableKeepsInv(s: State)
    requires Reachable(s)
    ensures Inv(s)
  {
    var states, steps :| Run(states, steps) && states[|steps|] == s;
    HeldPackagesAreReal(states, steps);
  }

  /** The backend serving on its own: any run of requests, with nothing held yet. */
  lemma {:induction false} ServedIsReachable(requests: seq<Request>)
    ensures Reachable(START.(requests := requests))
  {
    if requests == [] {
      StartIsReachable();
    } else {
      var front, r := requests[..|requests| - 1], requests[|requests| - 1];
      ServedIsReachable(front);
      assert front + [r] == requests;
      StepIsReachable(START.(requests := front), BackendServes(r), START.(requests := requests));
    }
  }

  /** Any entry of the log can be all that is held, between rounds: one write's answer and a render. */
  lemma AnyEntryIsHeld(requests: seq<Request>, p: Package)
    requires p in LogOf(requests)
    ensures Reachable(START.(requests := requests, replica := EMPTY.(packages := [p], held := [p])))
  {
    var served := START.(requests := requests);
    var answered := served.(replica := EMPTY.(packages := [p]));
    ServedIsReachable(requests);
    StepIsReachable(served, WriteAnswers(p), answered);
    StepIsReachable(answered, Renders, answered.(replica := EMPTY.(packages := [p], held := [p])));
  }

  /** The unguarded sources may lower a package: an old answer or a late frame folds in after a newer one. */
  lemma OldAnswerStepsBack()
    ensures var held := START.(requests := [COMPOSES, SIGNS_PATH], replica := EMPTY.(packages := [PATH_SIGNED], held := [PATH_SIGNED]));
            var back := held.(replica := held.replica.Apply(COMPOSED));
            && AllGuarded(held.requests)
            && Reachable(held) && Next(held, WriteAnswers(COMPOSED), back) && Reachable(back)
            && Progress(back.replica.packages[0]) < Progress(held.replica.packages[0])
  {
    ServedPathSigned();
    SignedInOrder();
    var held := START.(requests := [COMPOSES, SIGNS_PATH], replica := EMPTY.(packages := [PATH_SIGNED], held := [PATH_SIGNED]));
    assert LogOf(held.requests)[0] == COMPOSED && LogOf(held.requests)[1] == PATH_SIGNED;
    AnyEntryIsHeld(held.requests, PATH_SIGNED);
    assert IndexOf([PATH_SIGNED], "pkg") == 0;
    StepIsReachable(held, WriteAnswers(COMPOSED), held.(replica := held.replica.Apply(COMPOSED)));
  }

  lemma SignedInOrder()
    ensures AllGuarded([COMPOSES, SIGNS_PATH])
  {
    ServedPathSigned();
    OneWayRuns([COMPOSES, SIGNS_PATH]);
    assert Ahead(PATH_SIGNED, COMPOSED);
  }

  // ------------------------------------------------------------ convergence

  /** Rendered, between rounds, and the poll still running. */
  predicate Quiet(s: State) {
    s.poll.Idle? && s.replica.held == s.replica.packages && !s.replica.PollStopped()
  }

  /** One poll round, nothing else in between, every read answered. */
  ghost predicate FullRound(a: State, d: State) {
    exists b, c, k, answers :: RoundBy(a, b, k, c, answers, d)
  }

  ghost predicate RoundBy(a: State, b: State, k: nat, c: State, answers: seq<Option<Package>>, d: State) {
    && Next(a, PollTicks, b)
    && Next(b, PollListed(Some(k)), c)
    && (c.poll.Idle? ==> d == c)
    && (c.poll.Reading? ==> Next(c, PollReads(answers), d) && None !in answers)
  }

  function Reads(log: Log, ids: seq<string>): seq<Option<Package>> {
    seq(|ids|, i requires 0 <= i < |ids| => Latest(log, ids[i]))
  }

  /** What such a round leaves: one list of the log, one read of it per row wanted. */
  function PollRound(log: Log, packages: seq<Package>): seq<Package> {
    FoldPollAnswers(packages, Reads(log, Wanted(packages, Summaries(Listed(log)))))
  }

  lemma FullRoundIsPollRound(a: State, d: State)
    requires Quiet(a) && FullRound(a, d)
    ensures d.Log() == a.Log()
    ensures d.replica.packages == PollRound(a.Log(), a.replica.packages)
  {
    var b: State, c: State, k: nat, answers: seq<Option<Package>> :| RoundBy(a, b, k, c, answers, d);
    RoundIsPollRound(a, b, k, c, answers, d);
  }

  lemma RoundIsPollRound(a: State, b: State, k: nat, c: State, answers: seq<Option<Package>>, d: State)
    requires Quiet(a) && RoundBy(a, b, k, c, answers, d)
    ensures d.Log() == a.Log()
    ensures d.replica.packages == PollRound(a.Log(), a.replica.packages)
  {
    ListHalf(a, b, k, c);
    if c.poll.Reading? {
      ReadHalf(c, answers, d);
    } else {
      assert Reads(a.Log(), []) == [];
    }
  }

  lemma ListHalf(a: State, b: State, k: nat, c: State)
    requires Quiet(a) && Next(a, PollTicks, b) && Next(b, PollListed(Some(k)), c)
    ensures c.requests == a.requests && c.replica == a.replica
    ensures var wanted := Wanted(a.replica.packages, Summaries(Listed(a.Log())));
            c.poll == if wanted == [] then Idle else Reading(wanted, |a.Log()|)
  {
    var log := a.Log();
    assert k == |log| && log[..k] == log;
  }

  lemma ReadHalf(c: State, answers: seq<Option<Package>>, d: State)
    requires c.poll.Reading? && c.poll.since == |c.Log()| && Next(c, PollReads(answers), d) && None !in answers
    ensures d.requests == c.requests
    ensures d.replica.packages == FoldPollAnswers(c.replica.packages, Reads(c.Log(), c.poll.ids))
  {
    QuietAnswers(c.Log(), c.poll.ids, answers);
  }

  /** A quiet console can always run such a round. */
  lemma FullRoundExists(a: State) returns (d: State)
    requires Quiet(a)
    ensures FullRound(a, d)
  {
    var log := a.Log();
    var wanted := Wanted(a.replica.held, Summaries(Listed(log)));
    var b := a.(poll := Listing(|log|));
    assert log[..|log|] == log;
    if wanted == [] {
      d := b.(poll := Idle);
      assert RoundBy(a, b, |log|, d, [], d);
    } else {
      var c, answers := b.(poll := Reading(wanted, |log|)), Reads(log, wanted);
      forall i | 0 <= i < |wanted| ensures Latest(log, wanted[i]).Some? {
        WantedExactly(log, a.replica.held, wanted[i]);
      }
      assert Answered(log, wanted, |log|, answers);
      d := c.(poll := Idle, replica := a.replica.OnPollAnswers(answers));
      assert RoundBy(a, b, |log|, c, answers, d);
    }
  }

  /** With the log at rest, answers that all came are the latest documents. */
  lemma QuietAnswers(log: Log, ids: seq<string>, answers: seq<Option<Package>>)
    requires Answered(log, ids, |log|, answers) && None !in answers
    ensures answers == Reads(log, ids)
  {
    assert log[..|log|] == log;
    forall i | 0 <= i < |ids| ensures answers[i] == Latest(log, ids[i]) {
      assert answers[i] in answers;
    }
  }

  lemma {:induction false} SummariesAt(listed: seq<Package>)
    ensures |Summaries(listed)| == |listed|
    ensures forall i :: 0 <= i < |listed| ==> Summaries(listed)[i] == Summary(listed[i])
  {
    if listed != [] {
      SummariesAt(listed[..|listed| - 1]);
    }
  }

  lemma {:induction false} WantedComesFromRows(held: seq<Package>, rows: seq<Row>, id: string)
    requires id in Wanted(held, rows)
    ensures exists row :: (
      && row in rows && row.id == id
      && (Find(held, id).None? || SummaryProgress(row) > Progress(Find(held, id).value)))
  {
    var front, last := rows[..|rows| - 1], rows[|rows| - 1];
    assert last in rows;
    if id in Wanted(held, front) {
      WantedComesFromRows(held, front, id);
    }
  }

  /** The listing's row for a package is the summary of its latest document. */
  lemma RowsAreLatest(log: Log, row: Row)
    requires row in Summaries(Listed(log))
    ensures Latest(log, row.id).Some? && row == Summary(Latest(log, row.id).value)
  {
    var listed := Listed(log);
    SummariesAt(listed);
    var i :| 0 <= i < |listed| && Summaries(listed)[i] == row;
    assert Latest(log, Order(log)[i]) == Some(listed[i]);
  }

  lemma LatestHasARow(log: Log, id: string)
    requires Latest(log, id).Some?
    ensures Summary(Latest(log, id).value) in Summaries(Listed(log))
  {
    var listed := Listed(log);
    SummariesAt(listed);
    OrderMembers(log);
    var i :| 0 <= i < |Order(log)| && Order(log)[i] == id;
    assert Summaries(listed)[i] == Summary(listed[i]);
  }

  /** The rows asked for are exactly the packages the backend is ahead on. */
  lemma WantedExactly(log: Log, held: seq<Package>, id: string)
    ensures id in Wanted(held, Summaries(Listed(log))) <==>
      && Latest(log, id).Some?
      && (Find(held, id).None? || Progress(Latest(log, id).value) > Progress(Find(held, id).value))
  {
    var rows := Summaries(Listed(log));
    if id in Wanted(held, rows) {
      WantedComesFromRows(held, rows, id);
      var row :| row in rows && row.id == id
                 && (Find(held, id).None? || SummaryProgress(row) > Progress(Find(held, id).value));
      RowsAreLatest(log, row);
      SummaryReadsTheSameScale(Latest(log, id).value);
    }
    if Latest(log, id).Some? {
      var latest := Latest(log, id).value;
      LatestHasARow(log, id);
      SummaryReadsTheSameScale(latest);
      WantedMembers(held, rows, Summary(latest));
    }
  }

  lemma {:induction false} ReadsFolded(log: Log, current: seq<Package>, ids: seq<string>, id: string)
    requires DistinctIds(current)
    requires forall i :: 0 <= i < |ids| ==> Latest(log, ids[i]).Some?
    ensures DistinctIds(FoldPollAnswers(current, Reads(log, ids)))
    ensures Find(FoldPollAnswers(current, Reads(log, ids)), id) ==
      if id in ids && (Find(current, id).None? || Progress(Latest(log, id).value) > Progress(Find(current, id).value))
      then Latest(log, id) else Find(current, id)
  {
    if ids != [] {
      var front, last := ids[..|ids| - 1], ids[|ids| - 1];
      assert ids == front + [last];
      ReadsFolded(log, current, front, id);
      ReadsFolded(log, current, front, last);
      assert Reads(log, ids)[..|ids| - 1] == Reads(log, front);
      FoldShape(FoldPollAnswers(current, Reads(log, front)), Latest(log, last).value);
    }
  }

  /** A round mends a package exactly when the backend's latest is ahead of what is held. */
  lemma PollRoundMends(log: Log, packages: seq<Package>, id: string)
    requires Real(log, packages)
    ensures Find(PollRound(log, packages), id) == Latest(log, id) <==>
      Find(packages, id).None? || Ahead(Latest(log, id).value, Find(packages, id).value)
  {
    var wanted := Wanted(packages, Summaries(Listed(log)));
    forall i | 0 <= i < |wanted| ensures Latest(log, wanted[i]).Some? {
      WantedExactly(log, packages, wanted[i]);
    }
    WantedExactly(log, packages, id);
    ReadsFolded(log, packages, wanted, id);
  }

  /** The latest document of every package leads each unsent document the log holds of it. */
  ghost predicate LatestLeads(log: Log) {
    forall p :: p in log && p.sent.None? ==> Latest(log, p.id).Some? && Ahead(Latest(log, p.id).value, p)
  }

  /** Whatever a quiet console holds after these requests, one full round brings every package level. */
  ghost predicate Converges(requests: seq<Request>) {
    forall a, d, id :: Reachable(a) && a.requests == requests && Quiet(a) && FullRound(a, d) ==>
      Find(d.replica.packages, id) == Latest(d.Log(), id)
  }

  lemma LeadingLogMends(a: State, d: State, id: string)
    requires Reachable(a) && Quiet(a) && FullRound(a, d)
    requires LatestLeads(a.Log())
    ensures Find(d.replica.packages, id) == Latest(d.Log(), id)
  {
    var held := a.replica.packages;
    ReachableKeepsInv(a);
    FullRoundIsPollRound(a, d);
    PollRoundMends(a.Log(), held, id);
    var k := IndexOf(held, id);
    if k < |held| {
      assert held[k] in a.Log() && held[k].sent.None?;
    }
  }

  lemma NotLevel(requests: seq<Request>, a: State, d: State, id: string)
    requires Reachable(a) && a.requests == requests && Quiet(a) && FullRound(a, d)
    requires Find(d.replica.packages, id) != Latest(d.Log(), id)
    ensures !Converges(requests)
  {
  }

  lemma OneHeld(p: Package)
    ensures DistinctIds([p]) && Find([p], p.id) == Some(p)
  {
    assert IndexOf([p], p.id) == 0;
  }

  /** An unsent document the latest does not lead may be held, and then no round mends it. */
  lemma LeftBehind(requests: seq<Request>, p: Package)
    requires p in LogOf(requests) && p.sent.None? && !Ahead(Latest(LogOf(requests), p.id).value, p)
    ensures !Converges(requests)
  {
    var a := START.(requests := requests, replica := EMPTY.(packages := [p], held := [p]));
    AnyEntryIsHeld(requests, p);
    OneHeld(p);
    PollRoundMends(LogOf(requests), [p], p.id);
    var d := FullRoundExists(a);
    FullRoundIsPollRound(a, d);
    NotLevel(requests, a, d, p.id);
  }

  /** At one moment: the round levels whatever can be held exactly when the latest leads every unsent entry. */
  lemma ConvergesExactlyWhenLatestLeads(requests: seq<Request>)
    ensures Converges(requests) <==> LatestLeads(LogOf(requests))
  {
    if LatestLeads(LogOf(requests)) {
      forall a, d, id | Reachable(a) && a.requests == requests && Quiet(a) && FullRound(a, d)
        ensures Find(d.replica.packages, id) == Latest(d.Log(), id)
      {
        LeadingLogMends(a, d, id);
      }
    } else {
      var p :| p in LogOf(requests) && p.sent.None? && !(Latest(LogOf(requests), p.id).Some? && Ahead(Latest(LogOf(requests), p.id).value, p));
      LeftBehind(requests, p);
    }
  }

  lemma ForwardLeads(requests: seq<Request>)
    requires AllForward(requests)
    ensures LatestLeads(LogOf(requests))
  {
    var log := LogOf(requests);
    UnsentOneWayRuns(requests);
    forall p | p in log && p.sent.None? ensures Latest(log, p.id).Some? && Ahead(Latest(log, p.id).value, p) {
      LatestIsPastUnsent(log, p);
    }
  }

  /**
   Convergence. From any reachable state with no held package sent and nothing
   else in flight, one full poll round leaves the console holding exactly the
   backend's packages, each at its latest, when no request fell behind an unsent
   document.
  */
  lemma QuietRoundConverges(states: seq<State>, steps: seq<Step>, d: State, id: string)
    requires Run(states, steps)
    requires Quiet(states[|steps|]) && FullRound(states[|steps|], d)
    requires AllForward(states[|steps|].requests)
    ensures Find(d.replica.packages, id) == Latest(d.Log(), id)
  {
    assert Reachable(states[|steps|]);
    ForwardLeads(states[|steps|].requests);
    LeadingLogMends(states[|steps|], d, id);
  }

  lemma {:induction false} ForwardSoFar(requests: seq<Request>, n: nat)
    requires AllForward(requests) && n <= |requests|
    ensures AllForward(requests[..n])
    decreases |requests|
  {
    if n < |requests| {
      var front := requests[..|requests| - 1];
      assert front[..n] == requests[..n];
      ForwardSoFar(front, n);
    } else {
      assert requests[..n] == requests;
    }
  }

  /** A log whose latest leads at every moment is one way as far as the send. */
  lemma {:induction false} LeadingThroughoutIsForward(requests: seq<Request>)
    requires forall n :: 0 <= n <= |requests| ==> LatestLeads(LogOf(requests[..n]))
    ensures UnsentOneWay(LogOf(requests))
  {
    if requests != [] {
      var front, r := requests[..|requests| - 1], requests[|requests| - 1];
      forall n | 0 <= n <= |front| ensures LatestLeads(LogOf(front[..n])) {
        assert front[..n] == requests[..n];
      }
      LeadingThroughoutIsForward(front);
      assert requests[..|requests|] == requests;
      var log := LogOf(front);
      if After(log, r) != log {
        var doc := Decide(r.Read(log), r.write).doc;
        UnsentExtended(log, doc);
        var top := LastUnsent(log, doc.id);
        if top.Some? {
          assert top.value in log + [doc];
          assert Latest(log + [doc], doc.id) == Some(doc);
        }
      }
    }
  }

  /**
   And only then. The poll brings every quiet console level at every moment of a
   run if and only if no request that appended fell behind an unsent document.
  */
  lemma ConvergesExactlyWhenForward(requests: seq<Request>)
    ensures (forall n :: 0 <= n <= |requests| ==> Converges(requests[..n])) <==> AllForward(requests)
  {
    if AllForward(requests) {
      forall n | 0 <= n <= |requests| ensures Converges(requests[..n]) {
        ForwardSoFar(requests, n);
        ForwardLeads(requests[..n]);
        ConvergesExactlyWhenLatestLeads(requests[..n]);
      }
    }
    if forall n :: 0 <= n <= |requests| ==> Converges(requests[..n]) {
      forall n | 0 <= n <= |requests| ensures LatestLeads(LogOf(requests[..n])) {
        ConvergesExactlyWhenLatestLeads(requests[..n]);
      }
      LeadingThroughoutIsForward(requests);
      UnsentOneWayRuns(requests);
    }
  }

  // ------------------------------------------------------- the list fallback

  lemma ListedIds(log: Log)
    ensures IdsOfRows(Summaries(Listed(log))) == Order(log)
  {
    var listed := Listed(log);
    SummariesAt(listed);
    forall i | 0 <= i < |listed| ensures IdsOfRows(Summaries(listed))[i] == Order(log)[i] {
      assert Latest(log, Order(log)[i]) == Some(listed[i]);
    }
  }

  lemma {:induction false} ListReadsFolded(log: Log, current: seq<Package>, ids: seq<string>, id: string)
    requires DistinctIds(current)
    requires forall i :: 0 <= i < |ids| ==> Latest(log, ids[i]).Some?
    ensures DistinctIds(FoldListAnswers(current, Reads(log, ids)))
    ensures Find(FoldListAnswers(current, Reads(log, ids)), id) == if id in ids then Latest(log, id) else Find(current, id)
  {
    if ids != [] {
      var front, last := ids[..|ids| - 1], ids[|ids| - 1];
      assert ids == front + [last];
      ListReadsFolded(log, current, front, id);
      assert Reads(log, ids)[..|ids| - 1] == Reads(log, front);
      FoldShape(FoldListAnswers(current, Reads(log, front)), Latest(log, last).value);
    }
  }

  /**
   The unguarded fallback needs no such condition: with the log at rest and every
   read answered it leaves any replica level, guarded requests or not.
  */
  lemma ListRoundMends(log: Log, packages: seq<Package>, answers: seq<Option<Package>>, id: string)
    requires Real(log, packages) && None !in answers
    requires Answered(log, IdsOfRows(Summaries(Listed(log))), |log|, answers)
    ensures Find(FoldListAnswers(packages, answers), id) == Latest(log, id)
  {
    ListedIds(log);
    OrderMembers(log);
    QuietAnswers(log, Order(log), answers);
    ListReadsFolded(log, packages, Order(log), id);
    var k := IndexOf(packages, id);
    assert k < |packages| ==> packages[k] in log;
  }

  /** A fallback wholly answered: it starts, its list comes back, and every read does. */
  ghost predicate Fallback(a: State, b: State, k: nat, c: State, answers: seq<Option<Package>>, d: State) {
    && Next(a, ListStarts, b) && Next(b, ListListed(Some(k)), c) && Next(c, ListReads(answers), d)
    && None !in answers
  }

  /** Such a fallback leaves every package at the backend's latest, and says so. */
  lemma FallbackLevels(a: State, b: State, k: nat, c: State, answers: seq<Option<Package>>, d: State, id: string)
    requires Inv(a) && Fallback(a, b, k, c, answers, d)
    ensures d.Log() == a.Log() && Find(d.replica.packages, id) == Latest(a.Log(), id)
    ensures d.fallback.Idle? && d.replica.recoveredFromList
  {
    assert k == |a.Log()| && a.Log()[..k] == a.Log();
    assert c.fallback == Reading(IdsOfRows(Summaries(Listed(a.Log()))), |a.Log()|);
    ListRoundMends(a.Log(), a.replica.packages, answers, id);
  }

  /** And wherever the list has been asked for, one can run. */
  lemma FallbackExists(a: State) returns (b: State, c: State, answers: seq<Option<Package>>, d: State)
    requires a.replica.needsList > 0
    ensures Fallback(a, b, |a.Log()|, c, answers, d)
  {
    var log := a.Log();
    var ids := IdsOfRows(Summaries(Listed(log)));
    b := a.(fallback := Listing(|log|));
    assert log[..|log|] == log;
    c, answers := b.(fallback := Reading(ids, |log|)), Reads(log, ids);
    ListedIds(log);
    OrderMembers(log);
    ReadsAnswer(log, ids);
    d := c.(fallback := Idle, replica := c.replica.OnListAnswers(answers));
  }

  lemma ReadsAnswer(log: Log, ids: seq<string>)
    requires forall id :: id in ids ==> Latest(log, id).Some?
    ensures Answered(log, ids, |log|, Reads(log, ids)) && None !in Reads(log, ids)
  {
    assert log[..|log|] == log;
    forall i | 0 <= i < |ids| ensures Reads(log, ids)[i].Some? && Reads(log, ids)[i] == Latest(log[..|log|], ids[i]) {
      assert ids[i] in ids;
    }
  }
}
