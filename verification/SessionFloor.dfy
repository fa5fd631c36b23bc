/**
 The floor under the fleet counters: anchored once on what the backend had
 already written, given up on the moment this session sets the fleet working.
*/
module SessionFloor {
  import opened Options
  import opened Instants
  import Strings

  // ---------------------------------------------------------- the pure parts

  /** A floor that cuts nothing: none, or the empty string JavaScript calls false. */
  predicate NoFloor(since: Option<string>) {
    since.None? || since.value == ""
  }

  /** The newest stamp of the first read: the greatest of both lists, if either has one. */
  method SessionFloor(events: seq<string>, decisions: seq<string>) returns (newest: Option<string>)
    ensures newest.None? <==> events == [] && decisions == []
    ensures newest.Some? ==> newest.value in events || newest.value in decisions
    ensures newest.Some? ==> forall at :: at in events || at in decisions ==> !Strings.Less(newest.value, at)
  {
    newest := None;
    for n := 0 to |events|
      invariant newest.None? <==> n == 0
      invariant newest.Some? ==> newest.value in events[..n] && AtMost(events[..n], newest.value)
    {
      newest := Consider(newest, events[n], events[..n]);
      assert events[..n + 1] == events[..n] + [events[n]];
    }
    assert events[..|events|] == events;
    for n := 0 to |decisions|
      invariant newest.None? <==> events == [] && n == 0
      invariant newest.Some? ==> newest.value in events + decisions[..n]
      invariant newest.Some? ==> AtMost(events + decisions[..n], newest.value)
    {
      newest := Consider(newest, decisions[n], events + decisions[..n]);
      assert events + decisions[..n + 1] == events + decisions[..n] + [decisions[n]];
    }
    assert decisions[..|decisions|] == decisions;
    forall at | newest.Some? && (at in events || at in decisions) ensures !Strings.Less(newest.value, at) {
      assert at in events + decisions;
    }
  }

  predicate AtMost(stamps: seq<string>, top: string) {
    forall i :: 0 <= i < |stamps| ==> !Strings.Less(top, stamps[i])
  }

  /** The later of what is held and one more stamp. */
  method Consider(newest: Option<string>, at: string, ghost before: seq<string>) returns (next: Option<string>)
    requires newest.None? <==> before == []
    requires newest.Some? ==> newest.value in before && AtMost(before, newest.value)
    ensures next.Some? && next.value in before + [at] && AtMost(before + [at], next.value)
  {
    Strings.LessTotal(at, at);
    if NoFloor(newest) || CompareAt(at, newest.value) > 0 {
      next := Some(at);
      forall i | 0 <= i < |before| ensures !Strings.Less(at, before[i]) {
        Strings.LessTotal(newest.value, at);
        if Strings.Less(at, before[i]) && newest.value != at {
          if newest.value != "" {
            Strings.LessTransitive(newest.value, at, before[i]);
          }
        }
      }
    } else {
      Strings.LessTotal(at, newest.value);
      next := newest;
    }
  }

  /** Stamps strictly after the floor, in their order. */
  function Since(stamps: seq<string>, since: Option<string>): seq<string> {
    if NoFloor(since) then stamps else After(stamps, since.value)
  }

  function After(stamps: seq<string>, floor: string): seq<string> {
    if stamps == [] then []
    else if CompareAt(stamps[0], floor) > 0 then [stamps[0]] + After(stamps[1..], floor)
    else After(stamps[1..], floor)
  }

  /** Each stamp is kept or dropped for itself, and the order stays. */
  lemma {:induction false} AfterSplits(stamps: seq<string>, more: seq<string>, floor: string)
    ensures After(stamps + more, floor) == After(stamps, floor) + After(more, floor)
  {
    if stamps == [] {
      assert stamps + more == more;
    } else {
      AfterSplits(stamps[1..], more, floor);
      assert (stamps + more)[1..] == stamps[1..] + more && (stamps + more)[0] == stamps[0];
      var rest := After(stamps[1..], floor);
      assert [stamps[0]] + (rest + After(more, floor)) == [stamps[0]] + rest + After(more, floor);
    }
  }

  /** A stamp is kept, as often as it stands there, exactly when it comes after the floor. */
  lemma {:induction false} AfterMembers(stamps: seq<string>, floor: string, at: string)
    ensures multiset(After(stamps, floor))[at] == if Strings.Less(floor, at) then multiset(stamps)[at] else 0
  {
    if stamps != [] {
      Strings.LessTotal(floor, stamps[0]);
      AfterMembers(stamps[1..], floor, at);
      assert stamps == [stamps[0]] + stamps[1..];
    }
  }

  lemma {:induction false} AfterAll(stamps: seq<string>, floor: string)
    requires forall i :: 0 <= i < |stamps| ==> Strings.Less(floor, stamps[i])
    ensures After(stamps, floor) == stamps
  {
    if stamps != [] {
      Strings.LessTotal(floor, stamps[0]);
      AfterAll(stamps[1..], floor);
      assert stamps == [stamps[0]] + stamps[1..];
    }
  }

  lemma {:induction false} AfterNone(stamps: seq<string>, floor: string)
    requires forall i :: 0 <= i < |stamps| ==> !Strings.Less(floor, stamps[i])
    ensures After(stamps, floor) == []
  {
    if stamps != [] {
      AfterNone(stamps[1..], floor);
    }
  }

  // -------------------------------------------------------------- the session

  function Stamp(i: Instant): string {
    IsoFormat(i, UTC)
  }

  function Stamps(log: seq<Instant>): (s: seq<string>)
    ensures |s| == |log|
    ensures forall i :: 0 <= i < |log| ==> s[i] == Stamp(log[i])
  {
    seq(|log|, i requires 0 <= i < |log| => Stamp(log[i]))
  }

  /** How one of the two reads came back; a body that is not a list counts as an empty one. */
  datatype Body = Failed | NotAList | Page(stamps: seq<string>) {
    function Listed(): seq<string> {
      if Page? then stamps else []
    }
  }

  /** What the console holds, and what the backend has written so far. */
  datatype Session = Session(
    log: seq<Instant>,
    floorAnchored: bool,
    passStarted: bool,
    since: Option<string>,
    passAt: nat)

  datatype Event =
    | Writes(at: Instant)
    | PassRequested
    | ReadAnswers(events: Body, decisions: Body)

  ghost predicate Newest(floor: Option<string>, events: seq<string>, decisions: seq<string>) {
    && (floor.None? <==> events == [] && decisions == [])
    && (floor.Some? ==> (floor.value in events || floor.value in decisions))
    && (floor.Some? ==> forall at :: at in events || at in decisions ==> !Strings.Less(floor.value, at))
  }

  /** The stamps on a page are stamps the log already held. */
  predicate ReadFrom(log: seq<Instant>, stamps: seq<string>) {
    forall i :: 0 <= i < |stamps| ==> stamps[i] in Stamps(log)
  }

  predicate Rising(log: seq<Instant>) {
    && (forall i :: 0 <= i < |log| ==> log[i].Valid())
    && (forall i, j :: 0 <= i < j < |log| ==> Micros(log[i]) < Micros(log[j]))
  }

  /** A session opens on a log and on whatever page it was handed. */
  ghost predicate Opens(s: Session, events: seq<string>, decisions: seq<string>) {
    && Rising(s.log) && ReadFrom(s.log, events) && ReadFrom(s.log, decisions)
    && Newest(s.since, events, decisions)
    && s.floorAnchored == (events != [] || decisions != [])
    && !s.passStarted && s.passAt == 0
  }

  ghost predicate Next(s: Session, e: Event, t: Session) {
    match e
    case Writes(at) => t == s.(log := s.log + [at]) && Rising(t.log)
    case PassRequested =>
      t == s.(passStarted := true, passAt := if s.passStarted then s.passAt else |s.log|)
    case ReadAnswers(events, decisions) =>
      && ReadFrom(s.log, events.Listed()) && ReadFrom(s.log, decisions.Listed())
      && exists floor :: Newest(floor, events.Listed(), decisions.Listed()) && t == Anchor(s, events, decisions, floor)
  }

  /** The once-only anchoring at the head of every fleet read's answer. */
  function Anchor(s: Session, events: Body, decisions: Body, floor: Option<string>): Session {
    if s.floorAnchored then s
    else if s.passStarted then s.(floorAnchored := true)
    else if events.Failed? && decisions.Failed? then s
    else s.(floorAnchored := true, since := if floor.Some? then floor else s.since)
  }

  /** The console's refs and state, as the effect assigns them. */
  class FleetReader {
    var floorAnchored: bool
    var passStarted: bool
    var since: Option<string>

    constructor (initialEvents: seq<string>, initialDecisions: seq<string>)
      ensures floorAnchored == (initialEvents != [] || initialDecisions != [])
      ensures !passStarted && Newest(since, initialEvents, initialDecisions)
    {
      var floor := SessionFloor(initialEvents, initialDecisions);
      floorAnchored := initialEvents != [] || initialDecisions != [];
      passStarted := false;
      since := floor;
    }

    method OnPass()
      modifies this`passStarted
      ensures passStarted
    {
      passStarted := true;
    }

    method OnRead(events: Body, decisions: Body)
      modifies this`floorAnchored, this`since
      ensures exists floor ::
        && Newest(floor, events.Listed(), decisions.Listed())
        && Session([], floorAnchored, passStarted, since, 0)
           == Anchor(old(Session([], floorAnchored, passStarted, since, 0)), events, decisions, floor)
    {
      var floor := SessionFloor(events.Listed(), decisions.Listed());
      if !floorAnchored && passStarted {
        floorAnchored := true;
      }
      if !floorAnchored && (!events.Failed? || !decisions.Failed?) {
        floorAnchored := true;
        if floor.Some? {
          since := floor;
        }
      }
      assert Newest(floor, events.Listed(), decisions.Listed());
    }
  }

  // ------------------------------------------------------------------ runs

  ghost predicate Run(states: seq<Session>, events: seq<Event>) {
    && |states| == |events| + 1
    && (exists e, d :: Opens(states[0], e, d))
    && forall i :: 0 <= i < |events| ==> Next(states[i], events[i], states[i + 1])
  }

  /** A floor is one of the stamps written before this session's first pass. */
  ghost predicate FloorIsOld(s: Session) {
    s.since.Some? ==>
      exists i :: 0 <= i < |s.log| && s.since.value == Stamp(s.log[i]) && (s.passStarted ==> i < s.passAt)
  }

  ghost predicate Inv(s: Session) {
    && Rising(s.log) && s.passAt <= |s.log| && (!s.passStarted ==> s.passAt == 0)
    && (s.since.Some? ==> s.floorAnchored)
    && FloorIsOld(s)
  }

  lemma NewestIsLogged(log: seq<Instant>, floor: Option<string>, events: seq<string>, decisions: seq<string>)
    requires Newest(floor, events, decisions) && ReadFrom(log, events) && ReadFrom(log, decisions)
    ensures floor.Some? ==> exists i :: 0 <= i < |log| && floor.value == Stamp(log[i])
  {
    if floor.Some? {
      assert floor.value in Stamps(log);
      var i :| 0 <= i < |Stamps(log)| && Stamps(log)[i] == floor.value;
      assert floor.value == Stamp(log[i]);
    }
  }

  lemma StepKeepsInv(s: Session, e: Event, t: Session)
    requires Inv(s) && Next(s, e, t)
    ensures Inv(t)
    ensures s.since.Some? ==> t.since == s.since
    ensures s.floorAnchored ==> t.floorAnchored && t.since == s.since
    ensures s.passStarted ==> t.passStarted && t.passAt == s.passAt
  {
    if s.since.Some? {
      var i :| 0 <= i < |s.log| && s.since.value == Stamp(s.log[i]) && (s.passStarted ==> i < s.passAt);
      assert t.log[i] == s.log[i];
    }
    match e
    case ReadAnswers(events, decisions) =>
      var floor :| Newest(floor, events.Listed(), decisions.Listed()) && t == Anchor(s, events, decisions, floor);
      NewestIsLogged(s.log, floor, events.Listed(), decisions.Listed());
    case _ =>
  }

  lemma OpeningHoldsInv(s: Session)
    requires exists e, d :: Opens(s, e, d)
    ensures Inv(s)
  {
    var e, d :| Opens(s, e, d);
    NewestIsLogged(s.log, s.since, e, d);
  }

  lemma RunBefore(states: seq<Session>, events: seq<Event>)
    requires Run(states, events) && events != []
    ensures Run(states[..|events|], events[..|events| - 1])
    ensures Next(states[|events| - 1], events[|events| - 1], states[|events|])
  {
    var first, done := states[..|events|], events[..|events| - 1];
    assert first[0] == states[0];
    forall i | 0 <= i < |done| ensures Next(first[i], done[i], first[i + 1]) {
      assert Next(states[i], events[i], states[i + 1]);
    }
  }

  lemma {:induction false} RunKeepsInv(states: seq<Session>, events: seq<Event>)
    requires Run(states, events)
    ensures Inv(states[|events|])
    decreases |events|
  {
    if events == [] {
      OpeningHoldsInv(states[0]);
    } else {
      var n := |events|;
      RunBefore(states, events);
      RunKeepsInv(states[..n], events[..n - 1]);
      StepKeepsInv(states[n - 1], events[n - 1], states[n]);
    }
  }

  /** In every run the floor is set at most once, and never moves after. */
  lemma {:induction false} FloorNeverMoves(states: seq<Session>, events: seq<Event>, i: nat)
    requires Run(states, events) && i <= |events|
    ensures states[i].since.Some? ==> states[|events|].since == states[i].since
    ensures states[i].floorAnchored ==> states[|events|].floorAnchored && states[|events|].since == states[i].since
    decreases |events|
  {
    if i < |events| {
      var n := |events|;
      RunBefore(states, events);
      RunKeepsInv(states[..n], events[..n - 1]);
      FloorNeverMoves(states[..n], events[..n - 1], i);
      StepKeepsInv(states[n - 1], events[n - 1], states[n]);
    }
  }

  /**
   Nothing written after this session's first pass request falls at or below the
   floor: the filter keeps the whole of it, whenever the reads answered.
  */
  lemma SessionWorkIsNeverFlooredOut(states: seq<Session>, events: seq<Event>)
    requires Run(states, events) && states[|events|].passStarted
    ensures var s := states[|events|];
      && s.passAt <= |s.log|
      && Since(Stamps(s.log[s.passAt..]), s.since) == Stamps(s.log[s.passAt..])
  {
    RunKeepsInv(states, events);
    var s := states[|events|];
    if !NoFloor(s.since) {
      var i :| 0 <= i < |s.log| && s.since.value == Stamp(s.log[i]) && (s.passStarted ==> i < s.passAt);
      LaterIsAfter(s.log, i, s.passAt);
      AfterAll(Stamps(s.log[s.passAt..]), s.since.value);
    }
  }

  lemma LaterIsAfter(log: seq<Instant>, i: nat, first: nat)
    requires Rising(log) && i < first <= |log|
    ensures forall k :: 0 <= k < |Stamps(log[first..])| ==> Strings.Less(Stamp(log[i]), Stamps(log[first..])[k])
  {
    var kept := Stamps(log[first..]);
    forall k | 0 <= k < |kept| ensures Strings.Less(Stamp(log[i]), kept[k]) {
      assert log[first..][k] == log[first + k];
      IsoOrderIsTime(log[i], log[first + k], UTC);
    }
  }

  /** On a log that rises, what is after one of its stamps is the rest of the log. */
  lemma AfterAStampIsTheRest(log: seq<Instant>, k: nat)
    requires Rising(log) && k < |log|
    ensures Since(Stamps(log), Some(Stamp(log[k]))) == Stamps(log[k + 1..])
  {
    var head, rest := log[..k + 1], log[k + 1..];
    SeparatedParts(log[k]);
    StampsJoin(log, k + 1);
    AfterSplits(Stamps(head), Stamps(rest), Stamp(log[k]));
    LaterIsAfter(log, k, k + 1);
    AfterAll(Stamps(rest), Stamp(log[k]));
    EarlierIsNotAfter(log, k, k + 1);
    AfterNone(Stamps(head), Stamp(log[k]));
  }

  lemma StampsJoin(log: seq<Instant>, n: nat)
    requires n <= |log|
    ensures Stamps(log) == Stamps(log[..n]) + Stamps(log[n..])
  {
  }

  lemma EarlierIsNotAfter(log: seq<Instant>, k: nat, n: nat)
    requires Rising(log) && n <= k + 1 <= |log|
    ensures forall i :: 0 <= i < |Stamps(log[..n])| ==> !Strings.Less(Stamp(log[k]), Stamps(log[..n])[i])
  {
    var head := Stamps(log[..n]);
    forall i | 0 <= i < |head| ensures !Strings.Less(Stamp(log[k]), head[i]) {
      assert log[..n][i] == log[i];
      IsoOrderIsTime(log[k], log[i], UTC);
    }
  }

  /**
   A read settles the floor the first time one is answered: on its newest stamp, if it had any
   stamps, and on nothing at all once this session has set the fleet working.
  */
  lemma AnchorsExactly(s: Session, events: Body, decisions: Body, t: Session)
    requires Next(s, ReadAnswers(events, decisions), t)
    ensures t.floorAnchored <==> s.floorAnchored || s.passStarted || !events.Failed? || !decisions.Failed?
    ensures (t.since != s.since ==>
              && !s.floorAnchored && !s.passStarted && t.since.Some?
              && (t.since.value in events.Listed() || t.since.value in decisions.Listed()))
    ensures (!s.floorAnchored && !s.passStarted && (events.Listed() != [] || decisions.Listed() != []) ==>
              && t.since.Some?
              && forall at :: at in events.Listed() || at in decisions.Listed() ==> !Strings.Less(t.since.value, at))
    ensures t.log == s.log && t.passStarted == s.passStarted && t.passAt == s.passAt
  {
    var floor :| Newest(floor, events.Listed(), decisions.Listed()) && t == Anchor(s, events, decisions, floor);
  }

  /** The read that anchors the floor counts none of what it read. */
  lemma AnchoringReadCountsNothing(s: Session, events: Body, decisions: Body, t: Session)
    requires Inv(s) && Next(s, ReadAnswers(events, decisions), t)
    requires !s.floorAnchored && !s.passStarted && !(events.Failed? && decisions.Failed?)
    ensures t.floorAnchored
    ensures Since(events.Listed(), t.since) == [] && Since(decisions.Listed(), t.since) == []
  {
    var floor :| Newest(floor, events.Listed(), decisions.Listed()) && t == Anchor(s, events, decisions, floor);
    NewestIsLogged(s.log, floor, events.Listed(), decisions.Listed());
    if floor.Some? {
      StampIsNotEmpty(floor.value, s.log);
      AfterNone(events.Listed(), floor.value);
      AfterNone(decisions.Listed(), floor.value);
    }
  }

  lemma StampIsNotEmpty(stamp: string, log: seq<Instant>)
    requires exists i :: 0 <= i < |log| && stamp == Stamp(log[i])
    ensures stamp != ""
  {
    var i :| 0 <= i < |log| && stamp == Stamp(log[i]);
    SeparatedParts(log[i]);
  }
}
