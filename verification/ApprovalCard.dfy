/**
 The approval card: marked once per package id when its route starts to draw,
 raised by a clock when the draw and the hold are over, cancelled with the timer.
*/
module ApprovalCard {
  import opened Options
  import opened PackageHistory
  import Replica = PackageReplica
  import Protocol = PackageProtocol

  /** The package still waiting on a human, oldest first. */
  function Awaiting(packages: seq<Package>): Option<Package> {
    if packages == [] then None
    else if packages[0].Status() == AwaitingApproval then Some(packages[0])
    else Awaiting(packages[1..])
  }

  datatype Timer = Timer(id: string, due: real)

  /**
   `raised` records every call that put a card up in the incident on screen, in
   order, and `closed` the same of the incidents before it.
  */
  datatype Card = Card(
    now: real,
    awaiting: Option<string>,
    drawMs: real,
    raisedFor: set<string>,
    timer: Option<Timer>,
    reviewing: Option<string>,
    raised: seq<string>,
    closed: seq<seq<string>>)

  const BLANK := Card(0.0, None, 0.0, {}, None, None, [], [])

  datatype Event =
    | Renders(awaiting: Option<string>, drawMs: real)
    | Elapses(ms: real)
    | Dismissed
    | NewIncident

  predicate Possible(e: Event) {
    match e
    case Elapses(ms) => ms >= 0.0
    case _ => true
  }

  /** The effect re-runs only when the id or the wait it depends on changed. */
  predicate Changes(c: Card, e: Event) {
    e.Renders? && (e.awaiting != c.awaiting || e.drawMs != c.drawMs)
  }

  function Raise(c: Card, id: string): Card {
    c.(reviewing := Some(id), timer := None, raised := c.raised + [id])
  }

  /** The previous run's cleanup clears the timer; then the body runs. */
  function Effect(c: Card): Card {
    var cleared := c.(timer := None);
    if c.awaiting.None? || c.awaiting.value in c.raisedFor then cleared
    else
      var id := c.awaiting.value;
      var marked := cleared.(raisedFor := c.raisedFor + {id});
      if c.drawMs <= 0.0 then Raise(marked, id)
      else marked.(timer := Some(Timer(id, c.now + c.drawMs)))
  }

  function Advance(c: Card, e: Event): Card {
    match e
    case Renders(awaiting, drawMs) =>
      if Changes(c, e) then Effect(c.(awaiting := awaiting, drawMs := drawMs)) else c
    case Elapses(ms) =>
      var later := c.(now := c.now + ms);
      if c.timer.Some? && c.timer.value.due <= later.now then Raise(later, c.timer.value.id) else later
    case Dismissed => c.(reviewing := None)
    case NewIncident => c.(raisedFor := {}, reviewing := None, raised := [], closed := c.closed + [c.raised])
  }

  /** What a render hands the effect: the package waiting, and how long its route takes to draw. */
  function Shown(packages: seq<Package>, draw: int -> real): Event {
    match Awaiting(packages)
    case None => Renders(None, 0.0)
    case Some(p) => Renders(Some(p.id), draw(p.documents))
  }

  /** The package a card is for is the first one not sent that lacks a half. */
  lemma {:induction false} AwaitingIsFirst(packages: seq<Package>) returns (n: nat)
    ensures n <= |packages| && forall j :: 0 <= j < n ==>
              packages[j].sent.Some? || (packages[j].path.Some? && packages[j].brief.Some?)
    ensures n == |packages| ==> Awaiting(packages).None?
    ensures n < |packages| ==>
              Awaiting(packages) == Some(packages[n])
              && packages[n].sent.None? && (packages[n].path.None? || packages[n].brief.None?)
  {
    if packages == [] || packages[0].Status() == AwaitingApproval {
      n := 0;
    } else {
      var m := AwaitingIsFirst(packages[1..]);
      n := m + 1;
      assert forall j :: 1 <= j < n ==> packages[j] == packages[1..][j - 1];
    }
  }

  /** A package newly shown is marked at once, and its card raised at once if nothing is drawn, else when the draw is over. */
  lemma CardWaitsForItsDraw(c: Card, id: string, drawMs: real, ms: real)
    requires id !in c.raisedFor && Changes(c, Renders(Some(id), drawMs)) && ms >= 0.0
    ensures var drawn := Advance(c, Renders(Some(id), drawMs));
            var later := Advance(drawn, Elapses(ms));
            && drawn.raisedFor == c.raisedFor + {id} && drawn.now == c.now && later.now == c.now + ms
            && drawn.raised == (if drawMs <= 0.0 then c.raised + [id] else c.raised)
            && later.raised == (if drawMs <= 0.0 || drawMs <= ms then c.raised + [id] else c.raised)
            && later.reviewing == (if drawMs <= 0.0 || drawMs <= ms then Some(id) else c.reviewing)
            && Advance(later, Dismissed).reviewing.None? && Advance(later, Dismissed).raised == later.raised
  {
  }

  /** The same id and wait change nothing; another of either takes the timer away, even where nothing is to be raised. */
  lemma RenderedAgain(c: Card, awaiting: Option<string>, drawMs: real)
    requires awaiting.Some? ==> awaiting.value in c.raisedFor
    ensures Advance(c, Renders(awaiting, drawMs)) ==
            if awaiting == c.awaiting && drawMs == c.drawMs then c
            else c.(awaiting := awaiting, drawMs := drawMs, timer := None)
  {
  }

  /** A new incident takes the card down and forgets the marks: a package of the old one's id is raised in it anew. */
  lemma NewIncidentStartsOver(c: Card, id: string, drawMs: real, ms: real)
    requires c.awaiting != Some(id) && ms >= 0.0
    ensures var blank := Advance(c, NewIncident);
            var later := Advance(Advance(blank, Renders(Some(id), drawMs)), Elapses(ms));
            && blank.reviewing.None? && blank.raised == [] && blank.closed == c.closed + [c.raised]
            && later.raised == (if drawMs <= 0.0 || drawMs <= ms then [id] else []) && later.raisedFor == {id}
  {
    CardWaitsForItsDraw(Advance(c, NewIncident), id, drawMs, ms);
  }

  function Play(c: Card, events: seq<Event>): Card
    decreases |events|
  {
    if events == [] then c else Play(Advance(c, events[0]), events[1..])
  }

  /** One mount of the console: the same, as the refs and states it assigns. */
  class Console {
    var card: Card

    constructor ()
      ensures card == BLANK
    {
      card := BLANK;
    }

    method OnRender(awaiting: Option<string>, drawMs: real)
      modifies this
      ensures card == Advance(old(card), Renders(awaiting, drawMs))
    {
      if awaiting == card.awaiting && drawMs == card.drawMs { return; }
      card := card.(awaiting := awaiting, drawMs := drawMs, timer := None);
      if awaiting.None? || awaiting.value in card.raisedFor { return; }
      card := card.(raisedFor := card.raisedFor + {awaiting.value});
      if drawMs <= 0.0 {
        card := Raise(card, awaiting.value);
        return;
      }
      card := card.(timer := Some(Timer(awaiting.value, card.now + drawMs)));
    }

    method OnElapsed(ms: real)
      modifies this
      ensures card == Advance(old(card), Elapses(ms))
    {
      card := card.(now := card.now + ms);
      if card.timer.Some? && card.timer.value.due <= card.now {
        card := Raise(card, card.timer.value.id);
      }
    }

    method OnIncident()
      modifies this
      ensures card == Advance(old(card), NewIncident)
    {
      card := card.(raisedFor := {}, reviewing := None, raised := [], closed := card.closed + [card.raised]);
    }
  }

  // ------------------------------------------------------------ at most once

  predicate Sound(c: Card) {
    && (forall i :: 0 <= i < |c.raised| ==> c.raised[i] in c.raisedFor)
    && (forall i, j :: 0 <= i < j < |c.raised| ==> c.raised[i] != c.raised[j])
    && (c.timer.Some? ==> (
      && c.timer.value.id in c.raisedFor
      && c.timer.value.id !in c.raised
      && c.awaiting == Some(c.timer.value.id)))
  }

  lemma StepKeepsSound(c: Card, e: Event)
    requires Sound(c) && !e.NewIncident?
    ensures Sound(Advance(c, e))
    ensures c.raisedFor <= Advance(c, e).raisedFor
    ensures c.raised <= Advance(c, e).raised
  {
  }

  predicate WithinIncident(events: seq<Event>) {
    forall e :: e in events ==> !e.NewIncident? && Possible(e)
  }

  /**
   A change of incident empties the replica, so the render it forces no longer
   shows the package that was awaiting: no other event comes between.
  */
  predicate ForcesRenders(c: Card, events: seq<Event>)
    decreases |events|
  {
    events == [] || (
      && Possible(events[0])
      && (events[0].NewIncident? && |events| > 1 ==>
            events[1].Renders? && (events[1].awaiting.None? || events[1].awaiting != c.awaiting))
      && ForcesRenders(Advance(c, events[0]), events[1..]))
  }

  predicate Distinct(ids: seq<string>) {
    forall i, j :: 0 <= i < j < |ids| ==> ids[i] != ids[j]
  }

  /** The forced render clears the old incident's timer, and the card is sound again. */
  lemma ForcedRenderRestores(c: Card, e: Event)
    requires Sound(c) && e.Renders? && (e.awaiting.None? || e.awaiting != c.awaiting)
    ensures Sound(Advance(Advance(c, NewIncident), e))
  {
  }

  ghost predicate OnceEach(c: Card) {
    Distinct(c.raised) && forall i :: 0 <= i < |c.closed| ==> Distinct(c.closed[i])
  }

  lemma StepKeepsClosed(c: Card, e: Event)
    requires OnceEach(c)
    ensures var t := Advance(c, e);
            && (forall i :: 0 <= i < |t.closed| ==> Distinct(t.closed[i]))
            && |t.closed| == |c.closed| + (if e.NewIncident? then 1 else 0)
            && c.closed <= t.closed
  {
  }

  /** Not between a change of incident and the render it forces. */
  predicate Settled(events: seq<Event>) {
    events == [] || !events[|events| - 1].NewIncident?
  }

  lemma {:induction false} RaisedOnceFrom(c: Card, events: seq<Event>)
    requires Sound(c) && OnceEach(c) && ForcesRenders(c, events)
    ensures OnceEach(Play(c, events))
    ensures Settled(events) ==> Sound(Play(c, events))
    decreases |events|
  {
    if events != [] {
      var next := Advance(c, events[0]);
      StepKeepsClosed(c, events[0]);
      if !events[0].NewIncident? {
        StepKeepsSound(c, events[0]);
        RaisedOnceFrom(next, events[1..]);
      } else if |events| > 1 {
        var after := Advance(next, events[1]);
        ForcedRenderRestores(c, events[1]);
        assert events[1..][0] == events[1] && events[1..][1..] == events[2..];
        RaisedOnceFrom(after, events[2..]);
      } else {
        assert events[1..] == [];
      }
    }
  }

  /**
   In every run of the console, however the two sources flap, each incident
   raises each package at most once: the one on screen and every one before it.
  */
  lemma RaisedAtMostOnce(events: seq<Event>)
    requires ForcesRenders(BLANK, events)
    ensures var c := Play(BLANK, events);
            && (forall id :: multiset(c.raised)[id] <= 1)
            && (forall i, id :: 0 <= i < |c.closed| ==> multiset(c.closed[i])[id] <= 1)
            && (Settled(events) ==> Sound(c))
  {
    RaisedOnceFrom(BLANK, events);
    var c := Play(BLANK, events);
    forall id ensures multiset(c.raised)[id] <= 1 {
      DistinctCounts(c.raised, id);
    }
    forall i, id | 0 <= i < |c.closed| ensures multiset(c.closed[i])[id] <= 1 {
      DistinctCounts(c.closed[i], id);
    }
  }

  lemma {:induction false} DistinctCounts(ids: seq<string>, id: string)
    requires Distinct(ids)
    ensures multiset(ids)[id] <= 1
  {
    if ids != [] {
      assert ids == [ids[0]] + ids[1..];
      DistinctCounts(ids[1..], id);
      assert ids[0] !in ids[1..];
    }
  }

  // ------------------------------------------------------- and exactly when

  /** The draw is left alone until its clock runs out. */
  predicate Uninterrupted(c: Card, due: real, events: seq<Event>)
    decreases |events|
  {
    if events == [] then false
    else if Changes(c, events[0]) then false
    else Advance(c, events[0]).now >= due || Uninterrupted(Advance(c, events[0]), due, events[1..])
  }

  /** A marked package with no timer of its own stays unraised for the whole incident. */
  lemma {:induction false} MarkedAndClearedIsNeverRaised(c: Card, id: string, events: seq<Event>)
    requires Sound(c) && WithinIncident(events)
    requires id in c.raisedFor && id !in c.raised && (c.timer.Some? ==> c.timer.value.id != id)
    ensures id !in Play(c, events).raised
    decreases |events|
  {
    if events != [] {
      assert events[0] in events;
      StepKeepsSound(c, events[0]);
      MarkedAndClearedIsNeverRaised(Advance(c, events[0]), id, events[1..]);
    }
  }

  /** The card a draw has begun for goes up if and only if the draw is not interrupted. */
  lemma {:induction false} RaisedExactlyWhenUninterrupted(c: Card, events: seq<Event>)
    requires Sound(c) && c.timer.Some? && c.now < c.timer.value.due && WithinIncident(events)
    ensures c.timer.value.id in Play(c, events).raised <==> Uninterrupted(c, c.timer.value.due, events)
    decreases |events|
  {
    if events != [] {
      var id, next := c.timer.value.id, Advance(c, events[0]);
      assert events[0] in events;
      StepKeepsSound(c, events[0]);
      if Changes(c, events[0]) {
        MarkedAndClearedIsNeverRaised(next, id, events[1..]);
      } else if next.now >= c.timer.value.due {
        assert next.raised[|next.raised| - 1] == id;
        RaisedStays(next, events[1..]);
      } else {
        RaisedExactlyWhenUninterrupted(next, events[1..]);
      }
    }
  }

  lemma {:induction false} RaisedStays(c: Card, events: seq<Event>)
    requires Sound(c) && WithinIncident(events)
    ensures c.raised <= Play(c, events).raised
    decreases |events|
  {
    if events != [] {
      assert events[0] in events;
      StepKeepsSound(c, events[0]);
      RaisedStays(Advance(c, events[0]), events[1..]);
    }
  }

  // ------------------------------------------------------- a card that is lost

  const A_PATH := A_COMPOSED.(path := Some(Mark("A", 1)))
  const A_BOTH := A_PATH.(brief := Some(Mark("A", 2)))

  /** Package `a` signed, then a frame from before its second signature, then the next frame. */
  const FLAPS := [[A_COMPOSED, B_COMPOSED], [A_PATH, B_COMPOSED], [A_BOTH, B_COMPOSED], [A_PATH, B_COMPOSED], [A_BOTH, B_COMPOSED]]

  const SIGNS_A_PATH := Request(Approve("a", EntryPath, Mark("A", 1)), 2)
  const SIGNS_A_BRIEF := Request(Approve("a", CrewBrief, Mark("A", 2)), 3)

  const FLAP_REQUESTS := [COMPOSES_A, COMPOSES_B, SIGNS_A_PATH, SIGNS_A_BRIEF]
  const FLAP_LOG := [A_COMPOSED, B_COMPOSED, A_PATH, A_BOTH]

  lemma ServedPath()
    ensures LogOf([COMPOSES_A, COMPOSES_B, SIGNS_A_PATH]) == [A_COMPOSED, B_COMPOSED, A_PATH]
  {
    ServedBothComposed();
    var log := [A_COMPOSED, B_COMPOSED];
    assert log[..1] == [A_COMPOSED];
    assert Latest(log, "a") == Some(A_COMPOSED);
    ServedNext([COMPOSES_A, COMPOSES_B], SIGNS_A_PATH, log, A_PATH);
    assert [COMPOSES_A, COMPOSES_B] + [SIGNS_A_PATH] == [COMPOSES_A, COMPOSES_B, SIGNS_A_PATH];
  }

  lemma FlapLog()
    ensures LogOf(FLAP_REQUESTS) == FLAP_LOG
  {
    ServedPath();
    var front, log := [COMPOSES_A, COMPOSES_B, SIGNS_A_PATH], [A_COMPOSED, B_COMPOSED, A_PATH];
    assert Latest(log, "a") == Some(A_PATH);
    ServedNext(front, SIGNS_A_BRIEF, log, A_BOTH);
    assert front + [SIGNS_A_BRIEF] == FLAP_REQUESTS;
  }

  /** Every one of those requests read what it replaced: the log the flap comes from is one-way. */
  lemma FlapIsGuarded()
    ensures AllGuarded(FLAP_REQUESTS)
  {
    FlapLog();
    OneWayRuns(FLAP_REQUESTS);
    assert OneWay(FLAP_LOG) by {
      assert Ahead(A_PATH, A_COMPOSED) && Ahead(A_BOTH, A_COMPOSED) && Ahead(A_BOTH, A_PATH);
    }
  }

  function FlapFrame(n: nat): Replica.Frame
    requires n < |FLAP_LOG|
  {
    Replica.Frame(n, Replica.ENTRY_PACKAGE, Some(FLAP_LOG[n]), "")
  }

  function FlapState(k: nat): Protocol.State
    requires k < |FLAPS|
  {
    var seen: set<nat> := if k < 3 then {0, 1} else if k == 3 then {0, 1, 2} else {0, 1, 2, 3};
    Protocol.START.(requests := FLAP_REQUESTS, replica := Replica.EMPTY.(packages := FLAPS[k], seen := seen))
  }

  /** The officer's two answers come in ahead of the stream's two frames. */
  function FlapStep(k: nat): Protocol.Step
    requires k < 4
  {
    if k == 0 then Protocol.WriteAnswers(A_PATH)
    else if k == 1 then Protocol.WriteAnswers(A_BOTH)
    else Protocol.StreamDelivers([FlapFrame(k)])
  }

  lemma FoldSecond(a: Package, b: Package, c: Package)
    requires a.id == c.id && a.id != b.id
    ensures Replica.FoldPackages([a, b], c) == [c, b]
  {
    assert Replica.IndexOf([a, b], c.id) == 0;
  }

  lemma LateFrame(s: Protocol.State, n: nat, a: Package, b: Package)
    requires s.replica.packages == [a, b] && n !in s.replica.seen
    requires n < |s.Log()| && a.id == s.Log()[n].id != b.id
    ensures var doc := s.Log()[n];
            Protocol.Next(s, Protocol.StreamDelivers([Replica.Frame(n, Replica.ENTRY_PACKAGE, Some(doc), "")]),
                          s.(replica := s.replica.(packages := [doc, b], seen := s.replica.seen + {n})))
  {
    var doc := s.Log()[n];
    var f := Replica.Frame(n, Replica.ENTRY_PACKAGE, Some(doc), "");
    Replica.OneFrame(s.replica.seen, f);
    Replica.OneFold([a, b], doc);
    FoldSecond(a, b, doc);
    assert s.replica.triggers + map[] == s.replica.triggers;
  }

  lemma TwoFrames(f: Replica.Frame, g: Replica.Frame)
    requires f.CarriesPackage() && g.CarriesPackage() && f.sequence != g.sequence
    requires f.payload.Some? && g.payload.Some? && f.trigger == "" == g.trigger && f.payload.value.id != g.payload.value.id
    ensures Replica.EMPTY.OnEntries([f, g]) ==
            Replica.EMPTY.(packages := [f.payload.value, g.payload.value], seen := {f.sequence, g.sequence})
  {
    var a, b := f.payload.value, g.payload.value;
    Replica.OneFrame({}, f);
    assert [f, g][..1] == [f] && [a] + [b] == [a, b];
    assert Replica.Scan({}, [f, g]) == Replica.Scanned({f.sequence, g.sequence}, [a, b], map[], false);
    assert [a, b][..1] == [a];
    Replica.OneFold([], a);
    assert Replica.FoldAll([], [a, b]) == Replica.FoldPackages([a], b);
  }

  /** The first batch: both packages, as they were composed. */
  lemma FirstBatch()
    ensures Protocol.Reachable(FlapState(0))
  {
    FlapLog();
    var served := Protocol.START.(requests := FLAP_REQUESTS);
    Protocol.ServedIsReachable(FLAP_REQUESTS);
    TwoFrames(FlapFrame(0), FlapFrame(1));
    Protocol.StepIsReachable(served, Protocol.StreamDelivers([FlapFrame(0), FlapFrame(1)]), FlapState(0));
  }

  lemma FirstLateFrame()
    ensures Protocol.Next(FlapState(2), FlapStep(2), FlapState(3))
  {
    FlapLog();
    assert FLAP_LOG[2] == A_PATH && {0, 1} + {2} == {0, 1, 2};
    LateFrame(FlapState(2), 2, A_BOTH, B_COMPOSED);
  }

  lemma SecondLateFrame()
    ensures Protocol.Next(FlapState(3), FlapStep(3), FlapState(4))
  {
    FlapLog();
    assert FLAP_LOG[3] == A_BOTH && {0, 1, 2} + {3} == {0, 1, 2, 3};
    LateFrame(FlapState(3), 3, A_PATH, B_COMPOSED);
  }

  /** The replica goes through those five states in a run whose every request is guarded. */
  lemma FlapIsReachable()
    ensures AllGuarded(FLAP_REQUESTS)
    ensures Protocol.Reachable(FlapState(0))
    ensures forall k :: 0 <= k < 4 ==> Protocol.Next(FlapState(k), FlapStep(k), FlapState(k + 1))
    ensures forall k :: 0 <= k < 5 ==> FlapState(k).requests == FLAP_REQUESTS && FlapState(k).replica.packages == FLAPS[k]
  {
    FlapIsGuarded();
    FirstBatch();
    FlapAnswers();
    FirstLateFrame();
    SecondLateFrame();
  }

  lemma FlapAnswers()
    ensures Protocol.Next(FlapState(0), FlapStep(0), FlapState(1))
    ensures Protocol.Next(FlapState(1), FlapStep(1), FlapState(2))
  {
    FlapLog();
    assert FLAP_LOG[2] == A_PATH && FLAP_LOG[3] == A_BOTH;
    FoldSecond(A_COMPOSED, B_COMPOSED, A_PATH);
    FoldSecond(A_PATH, B_COMPOSED, A_BOTH);
  }

  lemma Waiting()
    ensures Awaiting([A_COMPOSED, B_COMPOSED]) == Some(A_COMPOSED)
    ensures Awaiting([A_PATH, B_COMPOSED]) == Some(A_PATH)
    ensures Awaiting([A_BOTH, B_COMPOSED]) == Some(B_COMPOSED)
  {
    assert [A_BOTH, B_COMPOSED][1..] == [B_COMPOSED];
  }

  /** The renders of those five replicas, the last two while the second package still draws. */
  function Flap(draw: int -> real, before: real, into: real): seq<Event> {
    [Shown(FLAPS[0], draw), Elapses(before), Shown(FLAPS[1], draw), Shown(FLAPS[2], draw), Elapses(into),
     Shown(FLAPS[3], draw), Shown(FLAPS[4], draw)]
  }

  lemma FlapEvents(draw: int -> real, before: real, into: real)
    ensures Flap(draw, before, into) ==
            [Renders(Some("a"), draw(0)), Elapses(before), Renders(Some("a"), draw(0)), Renders(Some("b"), draw(1)),
             Elapses(into), Renders(Some("a"), draw(0)), Renders(Some("b"), draw(1))]
  {
    Waiting();
  }

  lemma FlapInTwo(draw: int -> real, before: real, into: real)
    ensures Flap(draw, before, into) ==
            [Renders(Some("a"), draw(0)), Elapses(before), Renders(Some("a"), draw(0)), Renders(Some("b"), draw(1))]
            + [Elapses(into), Renders(Some("a"), draw(0)), Renders(Some("b"), draw(1))]
  {
    FlapEvents(draw, before, into);
  }

  /** Up to the second package's draw: it is marked, and its timer set. */
  lemma SecondDraws(draw: int -> real, before: real)
    requires before >= 0.0 && draw(1) > 0.0
    ensures var c := Play(BLANK, [Renders(Some("a"), draw(0)), Elapses(before), Renders(Some("a"), draw(0)), Renders(Some("b"), draw(1))]);
            && Sound(c) && c.raisedFor == {"a", "b"} && "b" !in c.raised
            && c.awaiting == Some("b") && c.timer == Some(Timer("b", c.now + draw(1)))
  {
    var events := [Renders(Some("a"), draw(0)), Elapses(before), Renders(Some("a"), draw(0)), Renders(Some("b"), draw(1))];
    var c1 := Advance(BLANK, events[0]);
    var c2 := Advance(c1, events[1]);
    var c3 := Advance(c2, events[2]);
    Unroll(BLANK, events);
    Unroll(c1, events[1..]);
    Unroll(c2, events[1..][1..]);
    Unroll(c3, events[1..][1..][1..]);
    assert c3 == c2;
    assert Play(BLANK, events) == Advance(c3, events[3]);
  }

  /**
   A package that steps back while the next one draws costs that one its card: it
   ends awaiting a human, and no card goes up for it whatever follows.
  */
  lemma FlapLosesACard(draw: int -> real, before: real, into: real, rest: seq<Event>)
    requires before >= 0.0 && 0.0 <= into < draw(1) && WithinIncident(rest)
    ensures Play(BLANK, Flap(draw, before, into)).awaiting == Some("b")
    ensures "b" !in Play(BLANK, Flap(draw, before, into) + rest).raised
  {
    var first := [Renders(Some("a"), draw(0)), Elapses(before), Renders(Some("a"), draw(0)), Renders(Some("b"), draw(1))];
    var last := [Elapses(into), Renders(Some("a"), draw(0)), Renders(Some("b"), draw(1))];
    FlapInTwo(draw, before, into);
    SecondDraws(draw, before);
    PlaySplit(BLANK, first, last);
    var c := Play(BLANK, first);
    FlapTakesTheTimer(c, draw, into);
    PlaySplit(BLANK, first + last, rest);
    MarkedAndClearedIsNeverRaised(Play(c, last), "b", rest);
  }

  lemma FlapTakesTheTimer(c: Card, draw: int -> real, into: real)
    requires Sound(c) && c.raisedFor == {"a", "b"} && "b" !in c.raised
    requires c.awaiting == Some("b") && c.timer == Some(Timer("b", c.now + draw(1))) && 0.0 <= into < draw(1)
    ensures var t := Play(c, [Elapses(into), Renders(Some("a"), draw(0)), Renders(Some("b"), draw(1))]);
            Sound(t) && t.awaiting == Some("b") && "b" in t.raisedFor && "b" !in t.raised && t.timer.None?
  {
    var events := [Elapses(into), Renders(Some("a"), draw(0)), Renders(Some("b"), draw(1))];
    var c1 := Advance(c, events[0]);
    var c2 := Advance(c1, events[1]);
    Unroll(c, events);
    Unroll(c1, events[1..]);
    Unroll(c2, events[1..][1..]);
    assert c1.timer == c.timer && c2.timer.None?;
    assert Play(c, events) == Advance(c2, events[2]);
  }

  lemma Unroll(c: Card, events: seq<Event>)
    requires events != []
    ensures Play(c, events) == Play(Advance(c, events[0]), events[1..])
  {
  }

  lemma {:induction false} PlaySplit(c: Card, a: seq<Event>, b: seq<Event>)
    ensures Play(c, a + b) == Play(Play(c, a), b)
    decreases |a|
  {
    if a == [] {
      assert a + b == b;
    } else {
      assert (a + b)[1..] == a[1..] + b;
      PlaySplit(Advance(c, a[0]), a[1..], b);
    }
  }
}
