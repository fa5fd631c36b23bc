/**
 The console's replica of the entry packages: the folds, the stream effect, and
 the state one hook instance mutates.
*/
module PackageReplica {
  import opened Options
  import opened PackageHistory

  // ------------------------------------------------------------- the folds

  predicate DistinctIds(held: seq<Package>) {
    forall i, j :: 0 <= i < j < |held| ==> held[i].id != held[j].id
  }

  function Ids(held: seq<Package>): (ids: seq<string>)
    ensures |ids| == |held|
    ensures forall i :: 0 <= i < |held| ==> ids[i] == held[i].id
  {
    seq(|held|, i requires 0 <= i < |held| => held[i].id)
  }

  /** `findIndex`: the first position holding `id`, or the length. */
  function IndexOf(held: seq<Package>, id: string): (i: nat)
    ensures i <= |held|
    ensures i < |held| ==> held[i].id == id
    ensures forall j :: 0 <= j < i ==> held[j].id != id
  {
    if held == [] || held[0].id == id then 0 else 1 + IndexOf(held[1..], id)
  }

  function Find(held: seq<Package>, id: string): Option<Package> {
    var i := IndexOf(held, id);
    if i < |held| then Some(held[i]) else None
  }

  function FoldPackages(current: seq<Package>, incoming: Package): seq<Package> {
    var index := IndexOf(current, incoming.id);
    if index == |current| then current + [incoming] else current[index := incoming]
  }

  /** The poll's fold: a reading not strictly ahead of what is held is discarded. */
  function FoldPolled(current: seq<Package>, incoming: Package): seq<Package> {
    var held := Find(current, incoming.id);
    if held.Some? && Progress(incoming) <= Progress(held.value) then current
    else FoldPackages(current, incoming)
  }

  function FoldAll(current: seq<Package>, docs: seq<Package>): seq<Package> {
    if docs == [] then current
    else FoldPackages(FoldAll(current, docs[..|docs| - 1]), docs[|docs| - 1])
  }

  /** Answers that failed carry nothing and fold nothing. */
  function FoldListAnswers(current: seq<Package>, answers: seq<Option<Package>>): seq<Package> {
    if answers == [] then current
    else
      var carried := FoldListAnswers(current, answers[..|answers| - 1]);
      match answers[|answers| - 1]
      case None => carried
      case Some(doc) => FoldPackages(carried, doc)
  }

  function FoldPollAnswers(current: seq<Package>, answers: seq<Option<Package>>): seq<Package> {
    if answers == [] then current
    else
      var carried := FoldPollAnswers(current, answers[..|answers| - 1]);
      match answers[|answers| - 1]
      case None => carried
      case Some(doc) => FoldPolled(carried, doc)
  }

  lemma FindIs(held: seq<Package>, p: Package)
    requires DistinctIds(held) && p in held
    ensures Find(held, p.id) == Some(p)
  {
    var k :| 0 <= k < |held| && held[k] == p;
    assert IndexOf(held, p.id) == k;
  }

  /** A fold sets one slot, or opens one at the end; nothing else moves. */
  lemma FoldShape(current: seq<Package>, incoming: Package)
    requires DistinctIds(current)
    ensures var next := FoldPackages(current, incoming);
      && DistinctIds(next)
      && Ids(current) <= Ids(next)
      && (forall id :: Find(next, id) == if id == incoming.id then Some(incoming) else Find(current, id))
      && (forall p :: p in next ==> p == incoming || p in current)
  {
    var next := FoldPackages(current, incoming);
    assert next[IndexOf(current, incoming.id)] == incoming;
    forall id ensures Find(next, id) == if id == incoming.id then Some(incoming) else Find(current, id) {
      if IndexOf(current, id) < |current| {
        assert next[IndexOf(current, id)].id == id;
        FindIs(next, next[IndexOf(current, id)]);
      } else if id == incoming.id {
        FindIs(next, incoming);
      }
    }
  }

  /** No poll answer lowers, drops or reorders anything held. */
  lemma PolledShape(current: seq<Package>, incoming: Package)
    requires DistinctIds(current)
    ensures var next := FoldPolled(current, incoming);
      && DistinctIds(next)
      && Ids(current) <= Ids(next)
      && (forall p :: p in next ==> p == incoming || p in current)
      && (forall i :: 0 <= i < |current| ==> next[i] == current[i] || Progress(current[i]) < Progress(next[i]))
      && (forall id :: Find(next, id) ==
            if id == incoming.id && (Find(current, id).None? || Progress(incoming) > Progress(Find(current, id).value))
            then Some(incoming) else Find(current, id))
  {
    FoldShape(current, incoming);
    var k := IndexOf(current, incoming.id);
    assert k < |current| ==> Find(current, incoming.id) == Some(current[k]);
  }

  /** The same for a whole round of answers, some of them failures. */
  lemma {:induction false} PollRoundNeverLowers(current: seq<Package>, answers: seq<Option<Package>>)
    requires DistinctIds(current)
    ensures var next := FoldPollAnswers(current, answers);
      && DistinctIds(next)
      && Ids(current) <= Ids(next)
      && (forall i :: 0 <= i < |current| ==> next[i] == current[i] || Progress(current[i]) < Progress(next[i]))
      && (forall p :: p in next ==> p in current || Some(p) in answers)
  {
    if answers != [] {
      var front := answers[..|answers| - 1];
      PollRoundNeverLowers(current, front);
      var carried := FoldPollAnswers(current, front);
      assert |Ids(current)| <= |Ids(carried)|;
      match answers[|answers| - 1]
      case None =>
      case Some(doc) => PolledShape(carried, doc);
    }
  }

  lemma {:induction false} ListRoundShape(current: seq<Package>, answers: seq<Option<Package>>)
    requires DistinctIds(current)
    ensures var next := FoldListAnswers(current, answers);
      && DistinctIds(next)
      && Ids(current) <= Ids(next)
      && (forall p :: p in next ==> p in current || Some(p) in answers)
  {
    if answers != [] {
      ListRoundShape(current, answers[..|answers| - 1]);
      match answers[|answers| - 1]
      case None =>
      case Some(doc) => FoldShape(FoldListAnswers(current, answers[..|answers| - 1]), doc);
    }
  }

  lemma {:induction false} FoldAllShape(current: seq<Package>, docs: seq<Package>)
    requires DistinctIds(current)
    ensures var next := FoldAll(current, docs);
      && DistinctIds(next)
      && Ids(current) <= Ids(next)
      && (forall p :: p in next ==> p in current || p in docs)
      && (forall id :: Find(next, id) == if Latest(docs, id).Some? then Latest(docs, id) else Find(current, id))
  {
    if docs != [] {
      FoldAllShape(current, docs[..|docs| - 1]);
      FoldShape(FoldAll(current, docs[..|docs| - 1]), docs[|docs| - 1]);
    }
  }

  /** Folding the whole log gives the backend's own listing, in its own order. */
  lemma {:induction false} FoldingTheLogIsTheListing(log: Log)
    ensures FoldAll([], log) == Listed(log)
  {
    IdsOfFold(log);
    FoldAllShape([], log);
    var folded := FoldAll([], log);
    forall i | 0 <= i < |folded| ensures folded[i] == Listed(log)[i] {
      FindIs(folded, folded[i]);
      assert Ids(folded)[i] == folded[i].id == Order(log)[i];
      assert Latest(log, folded[i].id) == Some(Listed(log)[i]);
      assert Find(folded, folded[i].id) == Latest(log, folded[i].id);
    }
  }

  lemma {:induction false} IdsOfFold(log: Log)
    ensures Ids(FoldAll([], log)) == Order(log)
  {
    if log != [] {
      var front := log[..|log| - 1];
      IdsOfFold(front);
      var folded := FoldAll([], front);
      var id := log[|log| - 1].id;
      assert id in Order(front) <==> IndexOf(folded, id) < |folded| by {
        if id in Order(front) {
          var k :| 0 <= k < |Order(front)| && Order(front)[k] == id;
          assert folded[k].id == id;
        } else if IndexOf(folded, id) < |folded| {
          assert Ids(folded)[IndexOf(folded, id)] == id;
        }
      }
    }
  }

  // ------------------------------------------------------------- the stream

  const ENTRY_PACKAGE := "ENTRY_PACKAGE"

  /** One log frame. `payload` is the document it carries, if it can be read. */
  datatype Frame = Frame(sequence: nat, entryType: string, payload: Option<Package>, trigger: string) {
    predicate CarriesPackage() { entryType == ENTRY_PACKAGE }
  }

  datatype Scanned = Scanned(
    seen: set<nat>, decoded: seq<Package>, triggers: map<string, string>, undecodable: bool)

  function ScanOne(s: Scanned, frame: Frame): Scanned {
    if !frame.CarriesPackage() || frame.sequence in s.seen then s
    else
      var t := s.(seen := s.seen + {frame.sequence});
      match frame.payload
      case None => t.(undecodable := true)
      case Some(doc) =>
        t.(decoded := t.decoded + [doc],
           triggers := if frame.trigger == "" then t.triggers else t.triggers[doc.id := frame.trigger])
  }

  function Scan(seen: set<nat>, frames: seq<Frame>): Scanned {
    if frames == [] then Scanned(seen, [], map[], false)
    else ScanOne(Scan(seen, frames[..|frames| - 1]), frames[|frames| - 1])
  }

  /** What two scans in a row found, as one. */
  function Joined(first: Scanned, second: Scanned): Scanned {
    Scanned(second.seen, first.decoded + second.decoded, first.triggers + second.triggers,
            first.undecodable || second.undecodable)
  }

  lemma ScanOneJoins(first: Scanned, second: Scanned, frame: Frame)
    ensures ScanOne(Joined(first, second), frame) == Joined(first, ScanOne(second, frame))
  {
    match frame.payload
    case None =>
    case Some(doc) =>
      TriggerJoins(first.triggers, second.triggers, doc.id, frame.trigger);
      assert first.decoded + second.decoded + [doc] == first.decoded + (second.decoded + [doc]);
  }

  lemma TriggerJoins(a: map<string, string>, b: map<string, string>, id: string, trigger: string)
    ensures (a + b)[id := trigger] == a + b[id := trigger]
  {
  }

  lemma {:induction false} ScanSplit(seen: set<nat>, a: seq<Frame>, b: seq<Frame>)
    ensures Scan(seen, a + b) == Joined(Scan(seen, a), Scan(Scan(seen, a).seen, b))
  {
    if b == [] {
      assert a + b == a;
    } else {
      var front, last := b[..|b| - 1], b[|b| - 1];
      assert (a + b)[..|a + b| - 1] == a + front;
      ScanSplit(seen, a, front);
      ScanOneJoins(Scan(seen, a), Scan(Scan(seen, a).seen, front), last);
    }
  }

  lemma {:induction false} FoldAllSplit(current: seq<Package>, a: seq<Package>, b: seq<Package>)
    ensures FoldAll(current, a + b) == FoldAll(FoldAll(current, a), b)
  {
    if b == [] {
      assert a + b == a;
    } else {
      assert (a + b)[..|a + b| - 1] == a + b[..|b| - 1];
      FoldAllSplit(current, a, b[..|b| - 1]);
    }
  }

  // ------------------------------------------------------------ the replica

  datatype Row = Row(id: string, sent: bool, outstanding: nat)

  function Summary(p: Package): Row {
    Row(p.id, p.sent.Some?, |p.Outstanding()|)
  }

  function SummaryProgress(row: Row): int {
    (if row.sent then 4 else 0) + (2 - row.outstanding)
  }

  /** The list row and the document read the same scale. */
  lemma SummaryReadsTheSameScale(p: Package)
    ensures SummaryProgress(Summary(p)) == Progress(p) <= 6
  {
  }

  /** The rows a poll asks to read in full: unknown, or ahead of what is held. */
  function Wanted(held: seq<Package>, rows: seq<Row>): seq<string> {
    if rows == [] then []
    else
      var before := Wanted(held, rows[..|rows| - 1]);
      var row := rows[|rows| - 1];
      var mine := Find(held, row.id);
      if mine.None? || SummaryProgress(row) > Progress(mine.value) then before + [row.id] else before
  }

  lemma {:induction false} WantedMembers(held: seq<Package>, rows: seq<Row>, row: Row)
    requires row in rows
    ensures Find(held, row.id).None? || SummaryProgress(row) > Progress(Find(held, row.id).value) ==>
      row.id in Wanted(held, rows)
  {
    if row != rows[|rows| - 1] {
      WantedMembers(held, rows[..|rows| - 1], row);
    }
  }

  /** What one mount of the hook holds. `held` is the ref the poll reads. */
  datatype Replica = Replica(
    packages: seq<Package>,
    triggers: map<string, string>,
    seen: set<nat>,
    held: seq<Package>,
    needsList: nat,
    recoveredFromList: bool)
  {
    function OnEntries(frames: seq<Frame>): Replica {
      var pass := Scan(seen, frames);
      this.(packages := FoldAll(packages, pass.decoded),
            triggers := triggers + pass.triggers,
            seen := pass.seen,
            needsList := if pass.undecodable then needsList + 1 else needsList)
    }

    function Apply(updated: Package): Replica {
      this.(packages := FoldPackages(packages, updated))
    }

    /** The effect that copies state into the ref after a render. */
    function Commit(): Replica {
      this.(held := packages)
    }

    function OnPollAnswers(answers: seq<Option<Package>>): Replica {
      this.(packages := FoldPollAnswers(packages, answers))
    }

    function OnListAnswers(answers: seq<Option<Package>>): Replica {
      this.(packages := FoldListAnswers(packages, answers), recoveredFromList := true)
    }

    /** A send is the end of the poll. */
    predicate PollStopped() {
      exists i :: 0 <= i < |packages| && packages[i].sent.Some?
    }

    /** Everything but the count of requested list reads. */
    predicate SameAs(other: Replica) {
      packages == other.packages && triggers == other.triggers && seen == other.seen && held == other.held
    }
  }

  const EMPTY := Replica([], map[], {}, [], 0, false)

  /** One hook instance: the refs and states its effects assign. */
  class EntryPackages {
    var packages: seq<Package>
    var triggers: map<string, string>
    var seen: set<nat>
    var held: seq<Package>
    var needsList: nat
    var recoveredFromList: bool

    ghost function Value(): Replica
      reads this
    {
      Replica(packages, triggers, seen, held, needsList, recoveredFromList)
    }

    constructor ()
      ensures Value() == EMPTY
    {
      packages, triggers, seen, held, needsList, recoveredFromList := [], map[], {}, [], 0, false;
    }

    /** A new incident is a new log. */
    method OnIncident()
      modifies this
      ensures Value() == EMPTY
    {
      packages, triggers, seen, held, needsList, recoveredFromList := [], map[], {}, [], 0, false;
    }

    method OnEntries(frames: seq<Frame>)
      modifies this
      ensures Value() == old(Value()).OnEntries(frames)
    {
      var undecodable := false;
      var decoded: seq<Package> := [];
      var decodedTriggers: map<string, string> := map[];
      for n := 0 to |frames|
        invariant Scanned(seen, decoded, decodedTriggers, undecodable) == Scan(old(seen), frames[..n])
        invariant Value() == old(Value()).(seen := seen)
      {
        assert frames[..n + 1][..n] == frames[..n];
        var frame := frames[n];
        if frame.entryType != ENTRY_PACKAGE { continue; }
        if frame.sequence in seen { continue; }
        seen := seen + {frame.sequence};
        if frame.payload.None? {
          undecodable := true;
          continue;
        }
        var parsed := frame.payload.value;
        decoded := decoded + [parsed];
        if frame.trigger != "" {
          decodedTriggers := decodedTriggers[parsed.id := frame.trigger];
        }
      }
      assert frames[..|frames|] == frames;
      if |decoded| > 0 {
        packages := FoldAll(packages, decoded);
      }
      if decodedTriggers != map[] {
        triggers := triggers + decodedTriggers;
      }
      if undecodable {
        needsList := needsList + 1;
      }
    }

    method Apply(updated: Package)
      modifies this`packages
      ensures Value() == old(Value()).Apply(updated)
    {
      packages := FoldPackages(packages, updated);
    }

    method Refresh()
      modifies this`needsList
      ensures Value() == old(Value()).(needsList := old(needsList) + 1)
    {
      needsList := needsList + 1;
    }

    method Commit()
      modifies this`held
      ensures Value() == old(Value()).Commit()
    {
      held := packages;
    }

    method OnPollAnswers(answers: seq<Option<Package>>)
      modifies this`packages
      ensures Value() == old(Value()).OnPollAnswers(answers)
    {
      packages := FoldPollAnswers(packages, answers);
    }

    method OnListAnswers(answers: seq<Option<Package>>)
      modifies this`packages, this`recoveredFromList
      ensures Value() == old(Value()).OnListAnswers(answers)
    {
      packages := FoldListAnswers(packages, answers);
      recoveredFromList := true;
    }
  }

  // --------------------------------------------- batches, replays, triggers

  /** The frames that count: the first of each sequence, package entries only. */
  function Distinct(frames: seq<Frame>): seq<Frame> {
    if frames == [] then []
    else
      var before := Distinct(frames[..|frames| - 1]);
      var last := frames[|frames| - 1];
      if last.CarriesPackage() && (forall f :: f in before ==> f.sequence != last.sequence)
      then before + [last] else before
  }

  function Sequences(frames: seq<Frame>): set<nat> {
    set f | f in frames && f.CarriesPackage() :: f.sequence
  }

  lemma {:induction false} ScanSeen(seen: set<nat>, frames: seq<Frame>)
    ensures Scan(seen, frames).seen == seen + Sequences(frames)
  {
    if frames != [] {
      var front := frames[..|frames| - 1];
      assert frames == front + [frames[|frames| - 1]];
      ScanSeen(seen, front);
      assert Sequences(frames) == Sequences(front) + Sequences([frames[|frames| - 1]]);
    }
  }

  lemma {:induction false} DistinctSequences(frames: seq<Frame>)
    ensures Sequences(Distinct(frames)) == Sequences(frames)
    ensures forall f :: f in Distinct(frames) ==> f.CarriesPackage()
  {
    if frames != [] {
      var front, last := frames[..|frames| - 1], frames[|frames| - 1];
      assert frames == front + [last];
      DistinctSequences(front);
      assert Sequences(frames) == Sequences(front) + Sequences([last]);
      if Distinct(frames) == Distinct(front) + [last] {
        assert Sequences(Distinct(frames)) == Sequences(Distinct(front)) + Sequences([last]);
      } else if last.CarriesPackage() {
        var f :| f in Distinct(front) && f.sequence == last.sequence;
        assert last.sequence in Sequences(Distinct(front));
      }
    }
  }

  lemma {:induction false} ScanDistinct(seen: set<nat>, frames: seq<Frame>)
    ensures Scan(seen, Distinct(frames)) == Scan(seen, frames)
  {
    if frames != [] {
      var front, last := frames[..|frames| - 1], frames[|frames| - 1];
      ScanDistinct(seen, front);
      ScanSeen(seen, front);
      DistinctSequences(front);
      if Distinct(frames) == Distinct(front) + [last] {
        assert Distinct(frames)[..|Distinct(frames)| - 1] == Distinct(front);
      } else if last.CarriesPackage() {
        var f :| f in Distinct(front) && f.sequence == last.sequence;
        assert last.sequence in Sequences(Distinct(front));
      }
    }
  }

  function Feed(r: Replica, batches: seq<seq<Frame>>): Replica {
    if batches == [] then r
    else Feed(r, batches[..|batches| - 1]).OnEntries(batches[|batches| - 1])
  }

  function Flatten(batches: seq<seq<Frame>>): seq<Frame> {
    if batches == [] then [] else Flatten(batches[..|batches| - 1]) + batches[|batches| - 1]
  }

  lemma OnEntriesSplit(r: Replica, a: seq<Frame>, b: seq<Frame>)
    ensures r.OnEntries(a + b).SameAs(r.OnEntries(a).OnEntries(b))
  {
    ScanSplit(r.seen, a, b);
    FoldAllSplit(r.packages, Scan(r.seen, a).decoded, Scan(Scan(r.seen, a).seen, b).decoded);
  }

  lemma OnEntriesOnSame(r: Replica, s: Replica, frames: seq<Frame>)
    requires r.SameAs(s)
    ensures r.OnEntries(frames).SameAs(s.OnEntries(frames))
  {
  }

  /** Any batching, any replay: the state is one pass over the distinct frames. */
  lemma {:induction false} BatchesDoNotMatter(r: Replica, batches: seq<seq<Frame>>)
    ensures Feed(r, batches).SameAs(r.OnEntries(Flatten(batches)))
    ensures Feed(r, batches).SameAs(r.OnEntries(Distinct(Flatten(batches))))
  {
    ScanDistinct(r.seen, Flatten(batches));
    if batches != [] {
      var front, last := batches[..|batches| - 1], batches[|batches| - 1];
      BatchesDoNotMatter(r, front);
      OnEntriesOnSame(Feed(r, front), r.OnEntries(Flatten(front)), last);
      OnEntriesSplit(r, Flatten(front), last);
    }
  }

  /** Prefixes of one growing list: the longest is all that counts. */
  lemma {:induction false} GrowingListIsOnePass(r: Replica, all: seq<Frame>, batches: seq<seq<Frame>>)
    requires forall i :: 0 <= i < |batches| ==> batches[i] <= all
    requires all in batches
    ensures Feed(r, batches).SameAs(r.OnEntries(Distinct(all)))
  {
    BatchesDoNotMatter(r, batches);
    var k :| 0 <= k < |batches| && batches[k] == all;
    DistinctOfPrefixes(all, batches);
  }

  function Longest(batches: seq<seq<Frame>>): nat {
    if batches == [] then 0
    else
      var before, last := Longest(batches[..|batches| - 1]), |batches[|batches| - 1]|;
      if last > before then last else before
  }

  lemma {:induction false} LongestBounds(batches: seq<seq<Frame>>)
    ensures forall i :: 0 <= i < |batches| ==> |batches[i]| <= Longest(batches)
  {
    if batches != [] {
      LongestBounds(batches[..|batches| - 1]);
    }
  }

  lemma DistinctOfPrefixes(all: seq<Frame>, batches: seq<seq<Frame>>)
    requires forall i :: 0 <= i < |batches| ==> batches[i] <= all
    requires all in batches
    ensures Distinct(Flatten(batches)) == Distinct(all)
  {
    LongestBounds(batches);
    DistinctUpToLongest(all, batches);
    assert all[..|all|] == all;
  }

  lemma {:induction false} DistinctUpToLongest(all: seq<Frame>, batches: seq<seq<Frame>>)
    requires forall i :: 0 <= i < |batches| ==> batches[i] <= all
    ensures Longest(batches) <= |all|
    ensures Distinct(Flatten(batches)) == Distinct(all[..Longest(batches)])
  {
    if batches != [] {
      var front, last := batches[..|batches| - 1], batches[|batches| - 1];
      var m := Longest(front);
      DistinctUpToLongest(all, front);
      DistinctSplit(Flatten(front), all[..m], last);
      assert last == all[..|last|];
      DistinctNextPrefix(all, m, |last|);
    }
  }

  lemma DistinctNextPrefix(all: seq<Frame>, m: nat, n: nat)
    requires m <= |all| && n <= |all|
    ensures Distinct(all[..m] + all[..n]) == Distinct(all[..if n > m then n else m])
  {
    if n <= m {
      DistinctShorter(all[..n], all[n..m]);
      assert all[..n] + all[n..m] == all[..m];
    } else {
      DistinctLonger(all[..m], all[m..n]);
      assert all[..m] + all[m..n] == all[..n];
    }
  }

  lemma DistinctShorter(a: seq<Frame>, b: seq<Frame>)
    ensures Distinct((a + b) + a) == Distinct(a + b)
  {
    SequencesSplit(a, b);
    DistinctReplay(a + b, a);
  }

  lemma DistinctLonger(a: seq<Frame>, b: seq<Frame>)
    ensures Distinct(a + (a + b)) == Distinct(a + b)
  {
    assert a + (a + b) == (a + a) + b;
    DistinctReplay(a, a);
    DistinctSplit(a + a, a, b);
  }

  lemma SequencesSplit(a: seq<Frame>, b: seq<Frame>)
    ensures Sequences(a + b) == Sequences(a) + Sequences(b)
  {
  }

  lemma {:induction false} DistinctSplit(a: seq<Frame>, a': seq<Frame>, b: seq<Frame>)
    requires Distinct(a) == Distinct(a')
    ensures Distinct(a + b) == Distinct(a' + b)
  {
    if b == [] {
      assert a + b == a && a' + b == a';
    } else {
      assert (a + b)[..|a + b| - 1] == a + b[..|b| - 1];
      assert (a' + b)[..|a' + b| - 1] == a' + b[..|b| - 1];
      DistinctSplit(a, a', b[..|b| - 1]);
    }
  }

  lemma {:induction false} DistinctReplay(a: seq<Frame>, b: seq<Frame>)
    requires Sequences(b) <= Sequences(a)
    ensures Distinct(a + b) == Distinct(a)
  {
    if b == [] {
      assert a + b == a;
    } else {
      var front, last := b[..|b| - 1], b[|b| - 1];
      assert b == front + [last];
      SequencesSplit(front, [last]);
      assert (a + b)[..|a + b| - 1] == a + front;
      DistinctReplay(a, front);
      DistinctSequences(a);
      if last.CarriesPackage() {
        assert last.sequence in Sequences(b);
        assert last.sequence in Sequences(Distinct(a));
      }
    }
  }

  /** The last non-empty trigger reported for `id`, if any frame reported one. */
  function LastTrigger(frames: seq<Frame>, id: string): Option<string> {
    if frames == [] then None
    else
      var last := frames[|frames| - 1];
      if last.payload.Some? && last.payload.value.id == id && last.trigger != ""
      then Some(last.trigger) else LastTrigger(frames[..|frames| - 1], id)
  }

  function Documents(frames: seq<Frame>): seq<Package> {
    if frames == [] then []
    else
      var before := Documents(frames[..|frames| - 1]);
      match frames[|frames| - 1].payload
      case None => before
      case Some(doc) => before + [doc]
  }

  /** What the hook holds after any batches, said without its folds. */
  lemma StreamDeliversTheFrames(batches: seq<seq<Frame>>, id: string)
    ensures var frames := Distinct(Flatten(batches));
      var r := Feed(EMPTY, batches);
      && r.packages == Listed(Documents(frames))
      && (if LastTrigger(frames, id).Some? then id in r.triggers && r.triggers[id] == LastTrigger(frames, id).value
          else id !in r.triggers)
  {
    BatchesDoNotMatter(EMPTY, batches);
    var frames := Distinct(Flatten(batches));
    DistinctIsDistinct(Flatten(batches));
    ScanOfDistinct(frames, id);
    FoldingTheLogIsTheListing(Documents(frames));
  }

  predicate OnePerSequence(frames: seq<Frame>) {
    && (forall f :: f in frames ==> f.CarriesPackage())
    && (forall i, j :: 0 <= i < j < |frames| ==> frames[i].sequence != frames[j].sequence)
  }

  lemma {:induction false} DistinctIsDistinct(frames: seq<Frame>)
    ensures OnePerSequence(Distinct(frames))
  {
    if frames != [] {
      DistinctIsDistinct(frames[..|frames| - 1]);
    }
  }

  lemma {:induction false} ScanOfDistinct(frames: seq<Frame>, id: string)
    requires OnePerSequence(frames)
    ensures Scan({}, frames).decoded == Documents(frames)
    ensures var found := Scan({}, frames).triggers;
      if LastTrigger(frames, id).Some? then id in found && found[id] == LastTrigger(frames, id).value
      else id !in found
  {
    if frames != [] {
      var front, last := frames[..|frames| - 1], frames[|frames| - 1];
      assert frames == front + [last];
      ScanOfDistinct(front, id);
      ScanSeen({}, front);
      assert last.sequence !in Sequences(front);
    }
  }

  /** One of the new frames is a package's that could not be read. */
  ghost predicate Unreadable(seen: set<nat>, frames: seq<Frame>) {
    exists f :: f in frames && f.sequence !in seen && f.payload.None?
  }

  lemma {:induction false} ScanFindsUnreadable(seen: set<nat>, frames: seq<Frame>)
    requires OnePerSequence(frames)
    ensures Scan(seen, frames).undecodable <==> Unreadable(seen, frames)
  {
    if frames != [] {
      var front, last := frames[..|frames| - 1], frames[|frames| - 1];
      assert frames == front + [last];
      ScanFindsUnreadable(seen, front);
      ScanSeen(seen, front);
      assert last.sequence !in Sequences(front);
      assert Unreadable(seen, frames) <==> Unreadable(seen, front) || (last.sequence !in seen && last.payload.None?);
    }
  }

  /** The list is asked for once more exactly when a new package frame could not be read; an answered list is marked. */
  lemma ListIsAskedForExactly(r: Replica, frames: seq<Frame>, answers: seq<Option<Package>>)
    ensures r.OnEntries(frames).needsList == r.needsList + if Unreadable(r.seen, Distinct(frames)) then 1 else 0
    ensures r.OnEntries(frames).recoveredFromList == r.recoveredFromList
    ensures r.OnListAnswers(answers).recoveredFromList && r.OnListAnswers(answers).needsList == r.needsList
  {
    DistinctIsDistinct(frames);
    ScanDistinct(r.seen, frames);
    ScanFindsUnreadable(r.seen, Distinct(frames));
  }

  /** Later frames with no trigger leave a recorded one alone. */
  lemma EmptyTriggerKeepsRecorded(r: Replica, frames: seq<Frame>, id: string)
    requires forall f :: f in frames && f.payload.Some? && f.payload.value.id == id ==> f.trigger == ""
    requires id in r.triggers
    ensures id in r.OnEntries(frames).triggers && r.OnEntries(frames).triggers[id] == r.triggers[id]
  {
    NoTriggerScanned(r.seen, frames, id);
  }

  lemma {:induction false} NoTriggerScanned(seen: set<nat>, frames: seq<Frame>, id: string)
    requires forall f :: f in frames && f.payload.Some? && f.payload.value.id == id ==> f.trigger == ""
    ensures id !in Scan(seen, frames).triggers
  {
    if frames != [] {
      NoTriggerScanned(seen, frames[..|frames| - 1], id);
    }
  }

  lemma OneFrame(seen: set<nat>, f: Frame)
    requires f.CarriesPackage() && f.sequence !in seen && f.payload.Some? && f.trigger == ""
    ensures Scan(seen, [f]) == Scanned(seen + {f.sequence}, [f.payload.value], map[], false)
  {
    assert [f][..0] == [];
  }

  lemma OneFold(held: seq<Package>, doc: Package)
    ensures FoldAll(held, [doc]) == FoldPackages(held, doc)
  {
    assert [doc][..0] == [];
  }
}
