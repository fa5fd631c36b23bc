/**
 The officer's side: two signatures in sequence, stopping at the first refusal,
 then the release. Each is one request to the backend and one fold of its answer.
*/
module PackageApproval {
  import opened Options
  import opened PackageHistory
  import PackageReplica

  /** How a request came back. `AnswerLost`: the backend wrote, the console never heard. */
  datatype Trip = Answered | Refused | AnswerLost

  /** The backend behind the gateway: one request at a time, each on the latest log. */
  class Backend {
    var log: Log

    constructor ()
      ensures log == []
    {
      log := [];
    }

    method Serve(w: Write) returns (o: Outcome)
      modifies this
      ensures o == Decide(old(log), w)
      ensures log == Serial(old(log), w)
    {
      o := Decide(log, w);
      if o.Appended? {
        log := log + [o.doc];
      }
    }
  }

  /** The log a press of "approve" leaves: each half in turn, up to the first failure. */
  function SignInOrder(log: Log, id: string, halves: seq<Half>, mark: Mark, trips: seq<Trip>): Log
    requires |trips| == |halves|
    decreases |halves|
  {
    if halves == [] || trips[0] == Refused then log
    else
      var next := Serial(log, Approve(id, halves[0], mark));
      if trips[0] == AnswerLost || next == log then next
      else SignInOrder(next, id, halves[1..], mark, trips[1..])
  }

  lemma NextHalf(log: Log, id: string, halves: seq<Half>, mark: Mark, trips: seq<Trip>, n: nat)
    requires n < |halves| == |trips|
    ensures var next := Serial(log, Approve(id, halves[n], mark));
            SignInOrder(log, id, halves[n..], mark, trips[n..])
            == if trips[n] == Refused then log
               else if trips[n] == AnswerLost || next == log then next
               else SignInOrder(next, id, halves[n + 1..], mark, trips[n + 1..])
  {
    assert halves[n..][1..] == halves[n + 1..] && trips[n..][1..] == trips[n + 1..];
  }

  class Modal {
    const backend: Backend
    const replica: PackageReplica.EntryPackages
    const id: string
    var busy: bool
    var notice: bool

    constructor (backend: Backend, replica: PackageReplica.EntryPackages, id: string)
      ensures this.backend == backend && this.replica == replica && this.id == id
      ensures !busy && !notice
    {
      this.backend, this.replica, this.id := backend, replica, id;
      busy, notice := false, false;
    }

    /** One half, one request; the returned document is what is folded in. */
    method Grant(half: Half, mark: Mark, trip: Trip) returns (granted: Option<Package>)
      modifies this, backend, replica`packages
      ensures !busy && (notice <==> granted.None?)
      ensures backend.log == if trip == Refused then old(backend.log)
                             else Serial(old(backend.log), Approve(id, half, mark))
      ensures granted.Some? <==> trip == Answered && Latest(old(backend.log), id).Some?
      ensures granted.Some? ==> backend.log == old(backend.log) + [granted.value]
      ensures replica.packages == if granted.None? then old(replica.packages)
                                  else PackageReplica.FoldPackages(old(replica.packages), granted.value)
    {
      busy, notice := true, false;
      var outcome := NotFound;
      if trip != Refused {
        outcome := backend.Serve(Approve(id, half, mark));
      }
      busy := false;
      if trip != Answered || !outcome.Appended? {
        notice := true;
        return None;
      }
      replica.Apply(outcome.doc);
      return Some(outcome.doc);
    }

    /** The one decision as two records, over the halves outstanding when pressed. */
    method ApproveBoth(outstanding: seq<Half>, mark: Mark, trips: seq<Trip>)
      requires |trips| == |outstanding|
      modifies this, backend, replica`packages
      ensures backend.log == SignInOrder(old(backend.log), id, outstanding, mark, trips)
    {
      var n := 0;
      while n < |outstanding|
        invariant n <= |outstanding|
        invariant SignInOrder(old(backend.log), id, outstanding, mark, trips)
               == SignInOrder(backend.log, id, outstanding[n..], mark, trips[n..])
      {
        NextHalf(backend.log, id, outstanding, mark, trips, n);
        var granted := Grant(outstanding[n], mark, trips[n]);
        if granted.None? { return; }
        n := n + 1;
      }
    }

    /** The send; the backend refuses it unless both halves are signed. */
    method Release(mark: Mark, permitted: bool, trip: Trip) returns (sent: Option<Package>)
      modifies this, backend, replica`packages
      ensures backend.log == if trip == Refused then old(backend.log)
                             else Serial(old(backend.log), Dispatch(id, mark, permitted))
      ensures sent == if trip == Answered then DocOf(Decide(old(backend.log), Dispatch(id, mark, permitted))) else None
      ensures notice <==> sent.None?
      ensures replica.packages == if sent.None? then old(replica.packages)
                                  else PackageReplica.FoldPackages(old(replica.packages), sent.value)
    {
      busy, notice := true, false;
      var outcome := NotFound;
      if trip != Refused {
        outcome := backend.Serve(Dispatch(id, mark, permitted));
      }
      busy := false;
      if trip != Answered || DocOf(outcome).None? {
        notice := true;
        return None;
      }
      replica.Apply(outcome.doc);
      return Some(outcome.doc);
    }
  }

  function DocOf(o: Outcome): Option<Package> {
    if o.Appended? || o.Kept? then Some(o.doc) else None
  }

  /** A release that answers handed over the latest document, both halves of which were signed, with only the send set on it. */
  lemma ReleasedWasSigned(log: Log, id: string, mark: Mark, permitted: bool)
    requires forall p :: p in log ==> p.SignedBeforeSent()
    ensures var sent := DocOf(Decide(log, Dispatch(id, mark, permitted)));
      && (sent.Some? ==>
            var p := Latest(log, id).value;
            sent.value == Package(p.id, p.documents, p.path, p.brief, if p.sent.Some? then p.sent else Some(mark)))
      && (sent.Some? ==> sent.value.Status() == Sent && sent.value.Outstanding() == []
                         && Latest(Serial(log, Dispatch(id, mark, permitted)), id) == sent)
      && (sent.Some? <==> (
        && Latest(log, id).Some?
        && Latest(log, id).value.Outstanding() == []
        && (permitted || Latest(log, id).value.Status() == Sent)))
  {
    var p := Latest(log, id);
    if p.Some? {
      assert p.value in log;
      assert p.value.Outstanding() == [] <==> p.value.path.Some? && p.value.brief.Some?;
    }
  }

  /** `doc` is `base` with one half signed. */
  predicate SignsOneHalf(base: Package, half: Half, mark: Mark, doc: Package) {
    && doc.id == base.id && doc.documents == base.documents && doc.sent == base.sent
    && doc.path == (if half == EntryPath then Some(mark) else base.path)
    && doc.brief == (if half == CrewBrief then Some(mark) else base.brief)
  }

  /** One more document a half: the first is the latest with that half signed, and so on from there. */
  predicate SignedInTurn(log: Log, after: Log, id: string, halves: seq<Half>, mark: Mark)
    decreases |halves|
  {
    if halves == [] then after == log
    else
      && |log| < |after| && after[..|log|] == log && Latest(log, id).Some?
      && SignsOneHalf(Latest(log, id).value, halves[0], mark, after[|log|])
      && SignedInTurn(after[..|log| + 1], after, id, halves[1..], mark)
  }

  /** How many halves a press signs, `n` requests in being the first not answered: one more if only the answer was lost. */
  function SignedBy(trips: seq<Trip>, n: nat): (signed: nat)
    requires n <= |trips|
    ensures signed <= |trips|
  {
    if n < |trips| && trips[n] == AnswerLost then n + 1 else n
  }

  /** A press signs its halves in order up to the first request that is not answered. */
  lemma {:induction false} PressStopsAtTheFirstLoss(log: Log, id: string, halves: seq<Half>, mark: Mark, trips: seq<Trip>, n: nat)
    requires |trips| == |halves| && n <= |halves| && AllAnswered(trips[..n]) && (n < |halves| ==> trips[n] != Answered)
    requires Latest(log, id).Some?
    ensures SignedInTurn(log, SignInOrder(log, id, halves, mark, trips), id, halves[..SignedBy(trips, n)], mark)
    decreases |halves|
  {
    if n > 0 {
      var next := Serial(log, Approve(id, halves[0], mark));
      AnsweredFrom(trips, n);
      SignedOnce(log, id, halves[0], mark);
      PressStopsAtTheFirstLoss(next, id, halves[1..], mark, trips[1..], n - 1);
      assert SignedBy(trips[1..], n - 1) == SignedBy(trips, n) - 1;
      PressGoesOn(log, id, halves, mark, trips, SignedBy(trips, n));
    } else if halves != [] && trips[0] == AnswerLost {
      PressLost(log, id, halves, mark, trips);
    }
  }

  /** Of a package the backend does not have it signs nothing. */
  lemma UnknownSignsNothing(log: Log, id: string, halves: seq<Half>, mark: Mark, trips: seq<Trip>)
    requires |trips| == |halves| && Latest(log, id).None?
    ensures SignInOrder(log, id, halves, mark, trips) == log
  {
  }

  lemma PressLost(log: Log, id: string, halves: seq<Half>, mark: Mark, trips: seq<Trip>)
    requires |trips| == |halves| > 0 && trips[0] == AnswerLost && Latest(log, id).Some?
    ensures SignedInTurn(log, SignInOrder(log, id, halves, mark, trips), id, halves[..1], mark)
  {
    var next := Serial(log, Approve(id, halves[0], mark));
    SignedOnce(log, id, halves[0], mark);
    assert halves[..1][1..] == [];
    SignedFirst(log, next, next, id, halves[..1], mark);
  }

  lemma PressGoesOn(log: Log, id: string, halves: seq<Half>, mark: Mark, trips: seq<Trip>, signed: nat)
    requires |trips| == |halves| > 0 && trips[0] == Answered && Latest(log, id).Some? && 0 < signed <= |halves|
    requires var next := Serial(log, Approve(id, halves[0], mark));
             SignedInTurn(next, SignInOrder(next, id, halves[1..], mark, trips[1..]), id, halves[1..][..signed - 1], mark)
    ensures SignedInTurn(log, SignInOrder(log, id, halves, mark, trips), id, halves[..signed], mark)
  {
    var next := Serial(log, Approve(id, halves[0], mark));
    SignedOnce(log, id, halves[0], mark);
    assert halves[..signed][1..] == halves[1..][..signed - 1];
    SignedFirst(log, next, SignInOrder(next, id, halves[1..], mark, trips[1..]), id, halves[..signed], mark);
  }

  lemma AnsweredFrom(trips: seq<Trip>, n: nat)
    requires 0 < n <= |trips| && AllAnswered(trips[..n])
    ensures trips[0] == Answered && AllAnswered(trips[1..][..n - 1])
  {
    assert trips[..n][0] == trips[0];
    assert trips[1..][..n - 1] == trips[..n][1..];
  }

  lemma SignedFirst(log: Log, next: Log, after: Log, id: string, halves: seq<Half>, mark: Mark)
    requires halves != [] && Latest(log, id).Some?
    requires next == log + [Latest(log, id).value.WithApproval(halves[0], mark)]
    requires SignedInTurn(next, after, id, halves[1..], mark)
    ensures SignedInTurn(log, after, id, halves, mark)
  {
    SignedExtends(next, after, id, halves[1..], mark);
    assert after[..|log| + 1] == next && after[..|log|] == next[..|log|] == log;
  }

  lemma {:induction false} SignedExtends(log: Log, after: Log, id: string, halves: seq<Half>, mark: Mark)
    requires SignedInTurn(log, after, id, halves, mark)
    ensures |after| == |log| + |halves| && after[..|log|] == log
    decreases |halves|
  {
    if halves != [] {
      SignedExtends(after[..|log| + 1], after, id, halves[1..], mark);
    } else {
      assert log[..|log|] == log;
    }
  }

  predicate AllAnswered(trips: seq<Trip>) {
    forall i :: 0 <= i < |trips| ==> trips[i] == Answered
  }

  /** A serial approval replaces the latest document by the same one, signed. */
  lemma SignedOnce(log: Log, id: string, half: Half, mark: Mark)
    requires Latest(log, id).Some?
    ensures var signed := Latest(log, id).value.WithApproval(half, mark);
      && Serial(log, Approve(id, half, mark)) == log + [signed]
      && Latest(log + [signed], id) == Some(signed)
  {
  }

  /** Approving what is outstanding, with every answer in, leaves the package ready to send. */
  lemma {:induction false} ApproveBothReadies(log: Log, id: string, mark: Mark, trips: seq<Trip>)
    requires Latest(log, id).Some? && Latest(log, id).value.sent.None?
    requires |trips| == |Latest(log, id).value.Outstanding()| && AllAnswered(trips)
    ensures var p := Latest(log, id).value;
      var after := SignInOrder(log, id, p.Outstanding(), mark, trips);
      && |after| == |log| + |p.Outstanding()|
      && Latest(after, id).Some? && Latest(after, id).value.Status() == ReadyToSend
    decreases |trips|
  {
    var p := Latest(log, id).value;
    NothingOutstanding(p);
    if p.Outstanding() != [] {
      var half := p.Outstanding()[0];
      var signed := p.WithApproval(half, mark);
      SignedOnce(log, id, half, mark);
      OneLessOutstanding(p, mark);
      SigningStep(log, id, p.Outstanding(), mark, trips);
      ApproveBothReadies(log + [signed], id, mark, trips[1..]);
    }
  }

  lemma NothingOutstanding(p: Package)
    ensures p.Outstanding() == [] && p.sent.None? ==> p.Status() == ReadyToSend
  {
  }

  lemma OneLessOutstanding(p: Package, mark: Mark)
    requires p.Outstanding() != []
    ensures var signed := p.WithApproval(p.Outstanding()[0], mark);
            signed.Outstanding() == p.Outstanding()[1..] && signed.sent == p.sent
  {
  }

  lemma SigningStep(log: Log, id: string, halves: seq<Half>, mark: Mark, trips: seq<Trip>)
    requires |trips| == |halves| > 0 && AllAnswered(trips) && Latest(log, id).Some?
    ensures var signed := Latest(log, id).value.WithApproval(halves[0], mark);
            SignInOrder(log, id, halves, mark, trips) == SignInOrder(log + [signed], id, halves[1..], mark, trips[1..])
  {
    SignedOnce(log, id, halves[0], mark);
  }

  function MarkOf(p: Package, half: Half): Option<Mark> {
    match half
    case EntryPath => p.path
    case CrewBrief => p.brief
  }

  /**
   A press that reaches the backend keeps the log one-way exactly when none of
   the halves it was pressed over had been signed meanwhile.
  */
  lemma {:induction false} ApproveBothKeepsOneWay(log: Log, id: string, halves: seq<Half>, mark: Mark, trips: seq<Trip>)
    requires |trips| == |halves| && AllAnswered(trips)
    requires forall i, j :: 0 <= i < j < |halves| ==> halves[i] != halves[j]
    requires OneWay(log) && Latest(log, id).Some?
    requires forall i :: 0 <= i < |halves| ==> MarkOf(Latest(log, id).value, halves[i]) != Some(mark)
    ensures OneWay(SignInOrder(log, id, halves, mark, trips)) <==>
      forall i :: 0 <= i < |halves| ==> !Latest(log, id).value.Signed(halves[i])
    decreases |halves|
  {
    if halves != [] {
      var p, half := Latest(log, id).value, halves[0];
      var signed := p.WithApproval(half, mark);
      var next := log + [signed];
      SignedOnce(log, id, half, mark);
      SigningStep(log, id, halves, mark, trips);
      FirstHalf(log, p, half, mark);
      if p.Signed(half) {
        SigningExtends(next, id, halves[1..], mark, trips[1..]);
        PrefixOneWay(next, SignInOrder(next, id, halves[1..], mark, trips[1..]));
      } else {
        forall i | 1 <= i < |halves|
          ensures MarkOf(signed, halves[i]) == MarkOf(p, halves[i]) && signed.Signed(halves[i]) == p.Signed(halves[i])
        {
          assert halves[i] != half;
        }
        ApproveBothKeepsOneWay(next, id, halves[1..], mark, trips[1..]);
        assert forall i :: 1 <= i < |halves| ==> halves[i] == halves[1..][i - 1];
      }
    }
  }

  lemma FirstHalf(log: Log, p: Package, half: Half, mark: Mark)
    requires OneWay(log) && Latest(log, p.id) == Some(p) && MarkOf(p, half) != Some(mark)
    ensures OneWay(log + [p.WithApproval(half, mark)]) <==> !p.Signed(half)
  {
    SigningCounts(p, half, mark);
    OneWayExtended(log, p.WithApproval(half, mark));
  }

  lemma {:induction false} SigningExtends(log: Log, id: string, halves: seq<Half>, mark: Mark, trips: seq<Trip>)
    requires |trips| == |halves|
    ensures log <= SignInOrder(log, id, halves, mark, trips)
    decreases |halves|
  {
    if halves != [] && trips[0] != Refused {
      SigningExtends(Serial(log, Approve(id, halves[0], mark)), id, halves[1..], mark, trips[1..]);
    }
  }

  lemma PrefixOneWay(log: Log, longer: Log)
    requires log <= longer
    ensures OneWay(longer) ==> OneWay(log)
  {
  }
}
