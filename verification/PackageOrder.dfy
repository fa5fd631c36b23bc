/**
 Composed order: when the packages on screen stand in the order the log first named
 them, as the list is said to, and how a late read leaves them in another.
*/
module PackageOrder {
  import opened Options
  import opened PackageHistory
  import opened PackageReplica
  import opened PackageProtocol

  /** One id comes before another in a list that holds each once. */
  ghost predicate Earlier(order: seq<string>, a: string, b: string) {
    exists m, n :: 0 <= m < n < |order| && order[m] == a && order[n] == b
  }

  ghost predicate InOrder(ids: seq<string>, order: seq<string>) {
    forall i, j :: 0 <= i < j < |ids| ==> Earlier(order, ids[i], ids[j])
  }

  ghost predicate Composed(s: State) {
    InOrder(Ids(s.replica.packages), Order(s.Log()))
  }

  /** The id comes later than every id held. */
  ghost predicate ComesLast(ids: seq<string>, order: seq<string>, id: string) {
    forall i :: 0 <= i < |ids| ==> Earlier(order, ids[i], id)
  }

  /** A fold keeps composed order exactly when it fills a slot, or opens one for an id later than every id held. */
  lemma FoldKeepsOrderExactly(held: seq<Package>, doc: Package, order: seq<string>)
    requires InOrder(Ids(held), order)
    ensures InOrder(Ids(FoldPackages(held, doc)), order) <==>
            IndexOf(held, doc.id) < |held| || ComesLast(Ids(held), order, doc.id)
  {
    IdsOfOneFold(held, doc);
    OneMoreInOrder(Ids(held), order, doc.id);
  }

  lemma IdsOfOneFold(held: seq<Package>, doc: Package)
    ensures Ids(FoldPackages(held, doc)) == if IndexOf(held, doc.id) < |held| then Ids(held) else Ids(held) + [doc.id]
  {
  }

  lemma OneMoreInOrder(ids: seq<string>, order: seq<string>, id: string)
    requires InOrder(ids, order)
    ensures InOrder(ids + [id], order) <==> ComesLast(ids, order, id)
  {
    var next := ids + [id];
    if InOrder(next, order) {
      forall i | 0 <= i < |ids| ensures Earlier(order, ids[i], id) {
        assert Earlier(order, next[i], next[|ids|]);
      }
    }
    if ComesLast(ids, order, id) {
      forall i, j | 0 <= i < j < |next| ensures Earlier(order, next[i], next[j]) {
        assert j < |ids| ==> Earlier(order, ids[i], ids[j]);
        assert Earlier(order, ids[i], if j < |ids| then ids[j] else id);
      }
    }
  }

  /** Every slot the step opened, it opened for an id later than every id then held. */
  ghost predicate OpensLast(s: State, t: State) {
    var ids := Ids(t.replica.packages);
    forall k :: |s.replica.packages| <= k < |ids| ==> ComesLast(ids[..k], Order(t.Log()), ids[k])
  }

  lemma {:induction false} OrderGrows(log: Log, more: Log)
    requires log <= more
    ensures Order(log) <= Order(more)
  {
    if |log| < |more| {
      OrderGrows(log, more[..|more| - 1]);
    } else {
      assert log == more;
    }
  }

  lemma EarlierStays(order: seq<string>, more: seq<string>, a: string, b: string)
    requires order <= more && Earlier(order, a, b)
    ensures Earlier(more, a, b)
  {
    var m, n :| 0 <= m < n < |order| && order[m] == a && order[n] == b;
    assert more[m] == a && more[n] == b;
  }

  lemma StepKeepsComposedExactly(s: State, t: State)
    requires Ids(s.replica.packages) <= Ids(t.replica.packages) && s.Log() <= t.Log() && Composed(s)
    ensures Composed(t) <==> OpensLast(s, t)
  {
    var before, ids, order := Ids(s.replica.packages), Ids(t.replica.packages), Order(t.Log());
    OrderGrows(s.Log(), t.Log());
    if OpensLast(s, t) {
      forall i, j | 0 <= i < j < |ids| ensures Earlier(order, ids[i], ids[j]) {
        if j < |before| {
          assert before[i] == ids[i] && before[j] == ids[j];
          EarlierStays(Order(s.Log()), order, ids[i], ids[j]);
        } else {
          assert ComesLast(ids[..j], order, ids[j]) && ids[..j][i] == ids[i];
        }
      }
    }
  }

  lemma StepOfARun(states: seq<State>, steps: seq<Step>, n: nat)
    requires Run(states, steps) && n < |steps|
    ensures Ids(states[n].replica.packages) <= Ids(states[n + 1].replica.packages)
    ensures states[n].Log() <= states[n + 1].Log()
  {
    HeldPackagesAreReal(states[..n + 1], steps[..n]);
    StepKeepsInv(states[n], steps[n], states[n + 1]);
  }

  ghost predicate ComposedThroughout(states: seq<State>) {
    forall n :: 0 <= n < |states| ==> Composed(states[n])
  }

  ghost predicate OpensLastThroughout(states: seq<State>) {
    forall n :: 0 <= n < |states| - 1 ==> OpensLast(states[n], states[n + 1])
  }

  lemma {:induction false} ComposedSoFar(states: seq<State>, steps: seq<Step>, n: nat)
    requires Run(states, steps) && n <= |steps| && OpensLastThroughout(states)
    ensures Composed(states[n])
  {
    if n > 0 {
      ComposedSoFar(states, steps, n - 1);
      StepOfARun(states, steps, n - 1);
      StepKeepsComposedExactly(states[n - 1], states[n]);
    }
  }

  /** In every run the list stands in composed order throughout exactly when each step opened its slots in that order. */
  lemma ComposedOrderExactly(states: seq<State>, steps: seq<Step>)
    requires Run(states, steps)
    ensures ComposedThroughout(states) <==> OpensLastThroughout(states)
  {
    if ComposedThroughout(states) {
      forall n | 0 <= n < |steps| ensures OpensLast(states[n], states[n + 1]) {
        StepOfARun(states, steps, n);
        StepKeepsComposedExactly(states[n], states[n + 1]);
      }
    }
    if OpensLastThroughout(states) {
      forall n | 0 <= n <= |steps| ensures Composed(states[n]) {
        ComposedSoFar(states, steps, n);
      }
    }
  }

  // ------------------------------------------------------------ out of order

  const TWO := START.(requests := [COMPOSES_A, COMPOSES_B])
  const SECOND_ONLY := EMPTY.(packages := [B_COMPOSED])
  const SECOND_FIRST := EMPTY.(packages := [B_COMPOSED, A_COMPOSED], seen := {0})

  /** A poll reads both packages, and the first read fails. */
  lemma HalfARoundAnswers()
    ensures Reachable(TWO.(replica := SECOND_ONLY))
  {
    ServedIsReachable(TWO.requests);
    RoundStarts();
    StepIsReachable(TWO, PollTicks, TWO.(poll := Listing(2)));
    StepIsReachable(TWO.(poll := Listing(2)), PollListed(Some(2)), TWO.(poll := Reading(["a", "b"], 2)));
    RoundEnds();
    StepIsReachable(TWO.(poll := Reading(["a", "b"], 2)), PollReads([None, Some(B_COMPOSED)]), TWO.(replica := SECOND_ONLY));
  }

  lemma RoundStarts()
    ensures Next(TWO, PollTicks, TWO.(poll := Listing(2)))
    ensures Next(TWO.(poll := Listing(2)), PollListed(Some(2)), TWO.(poll := Reading(["a", "b"], 2)))
  {
    ServedBothComposed();
    BothAreWanted();
    var log := [A_COMPOSED, B_COMPOSED];
    assert log[..2] == log;
  }

  lemma FirstReadFails()
    ensures Answered([A_COMPOSED, B_COMPOSED], ["a", "b"], 2, [None, Some(B_COMPOSED)])
  {
    var log, ids, answers := [A_COMPOSED, B_COMPOSED], ["a", "b"], [None, Some(B_COMPOSED)];
    assert log[..2] == log && Latest(log, "b") == Some(B_COMPOSED);
    assert answers[1] == Latest(log[..2], ids[1]);
  }

  lemma RoundEnds()
    ensures Next(TWO.(poll := Reading(["a", "b"], 2)), PollReads([None, Some(B_COMPOSED)]), TWO.(replica := SECOND_ONLY))
  {
    ServedBothComposed();
    FirstReadFails();
    SecondAnswerFolds(B_COMPOSED);
  }

  lemma TwoInOrder()
    ensures Order([A_COMPOSED, B_COMPOSED]) == ["a", "b"]
  {
    var log := [A_COMPOSED, B_COMPOSED];
    assert log[..1] == [A_COMPOSED] && log[..1][..0] == [];
    assert Order([A_COMPOSED]) == ["a"];
  }

  lemma BothAreWanted()
    ensures Wanted([], Summaries(Listed([A_COMPOSED, B_COMPOSED]))) == ["a", "b"]
  {
    TwoInOrder();
    var log := [A_COMPOSED, B_COMPOSED];
    assert log[..1] == [A_COMPOSED] && Latest([A_COMPOSED], "a") == Some(A_COMPOSED);
    assert Latest(log, "a") == Some(A_COMPOSED) && Latest(log, "b") == Some(B_COMPOSED);
    assert Listed(log) == log;
    TwoRows();
  }

  lemma TwoRows()
    ensures Wanted([], Summaries([A_COMPOSED, B_COMPOSED])) == ["a", "b"]
  {
    var log, rows := [A_COMPOSED, B_COMPOSED], [Summary(A_COMPOSED), Summary(B_COMPOSED)];
    assert log[..1] == [A_COMPOSED] && [A_COMPOSED][..0] == [];
    assert Summaries([A_COMPOSED]) == [Summary(A_COMPOSED)] && Summaries(log) == rows;
    assert rows[..1] == [Summary(A_COMPOSED)] && rows[..1][..0] == [];
    assert Wanted([], rows[..1]) == ["a"];
  }

  lemma SecondAnswerFolds(doc: Package)
    ensures FoldPollAnswers([], [None, Some(doc)]) == [doc]
  {
    var answers: seq<Option<Package>> := [None, Some(doc)];
    assert answers[..1] == [None] && answers[..1][..0] == [];
    assert FoldPollAnswers([], [None]) == [];
  }

  /** The stream then brings the first package's frame. */
  lemma LateFirstFrame()
    ensures var f := Frame(0, ENTRY_PACKAGE, Some(A_COMPOSED), "");
            Next(TWO.(replica := SECOND_ONLY), StreamDelivers([f]), TWO.(replica := SECOND_FIRST))
  {
    ServedBothComposed();
    OneFrame({}, Frame(0, ENTRY_PACKAGE, Some(A_COMPOSED), ""));
    OneFold([B_COMPOSED], A_COMPOSED);
  }

  lemma NotEarlier()
    ensures !Earlier(["a", "b"], "b", "a")
  {
    var order := ["a", "b"];
    forall m, n | 0 <= m < n < |order| ensures !(order[m] == "b" && order[n] == "a") {
      assert m == 0;
    }
  }

  /** And the two stand the wrong way round. */
  lemma OutOfOrder()
    ensures var s := TWO.(replica := SECOND_FIRST);
            Reachable(s) && Order(s.Log()) == ["a", "b"] && Ids(s.replica.packages) == ["b", "a"] && !Composed(s)
  {
    HalfARoundAnswers();
    LateFirstFrame();
    StepIsReachable(TWO.(replica := SECOND_ONLY), StreamDelivers([Frame(0, ENTRY_PACKAGE, Some(A_COMPOSED), "")]),
                    TWO.(replica := SECOND_FIRST));
    ServedBothComposed();
    TwoInOrder();
    NotEarlier();
    var ids := Ids(SECOND_FIRST.packages);
    assert ids == ["b", "a"];
    assert !Earlier(["a", "b"], ids[0], ids[1]);
  }
}
