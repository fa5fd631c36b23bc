/** Dealing the activity stream onto the screen one message at a time. */
module PacedRelease {
  import opened Options

  const RELEASE_INTERVAL_MS := 260
  const MIN_RELEASE_INTERVAL_MS := 45

  /** `Math.round(a / b)` for a non-negative numerator. */
  function RoundedQuotient(a: nat, b: nat): nat
    requires b > 0
  {
    (2 * a + b) / (2 * b)
  }

  function ReleaseDelay(pending: nat): nat {
    if pending <= 1 then RELEASE_INTERVAL_MS
    else
      var paced := RoundedQuotient(RELEASE_INTERVAL_MS, pending);
      if paced > MIN_RELEASE_INTERVAL_MS then paced else MIN_RELEASE_INTERVAL_MS
  }

  /** The pace at every depth: the floor from six on, and it never slows as the queue deepens. */
  lemma DelayByDepth(n: nat)
    ensures ReleaseDelay(n) ==
      if n <= 1 then 260 else if n == 2 then 130 else if n == 3 then 87 else if n == 4 then 65
      else if n == 5 then 52 else 45
    ensures ReleaseDelay(n + 1) <= ReleaseDelay(n)
  {
    if n >= 5 {
      RoundedAtFloor(n + 1);
      if n >= 6 { RoundedAtFloor(n); }
    }
  }

  lemma RoundedAtFloor(n: nat)
    requires n >= 6
    ensures RoundedQuotient(RELEASE_INTERVAL_MS, n) <= MIN_RELEASE_INTERVAL_MS
  {
    var q := (520 + n) / (2 * n);
    assert q * (2 * n) <= 520 + n;
    if q >= 46 {
      assert q * (2 * n) >= 46 * (2 * n) by { Scale(q, 46, 2 * n); }
    }
  }

  lemma Scale(a: nat, b: nat, c: nat)
    requires a >= b
    ensures a * c >= b * c
  {
  }

  // ------------------------------------------------------------- the machine

  datatype Due = Due(id: string, at: int)

  /** What has not been dealt yet, oldest first; `messages` is newest first. */
  function Pending(messages: seq<string>, released: set<string>): seq<string> {
    if messages == [] then []
    else
      var last, rest := messages[|messages| - 1], Pending(messages[..|messages| - 1], released);
      if last in released then rest else [last] + rest
  }

  /** `shown` is the order in which messages reached the screen. */
  datatype Panel = Panel(
    messages: seq<string>, released: set<string>, due: Option<Due>, now: int, shown: seq<string>)
  {
    function Queue(): seq<string> {
      Pending(messages, released)
    }
  }

  /** The effect behind every change of the queue. */
  function Arm(p: Panel): Panel {
    if p.Queue() == [] then p.(due := None)
    else
      var next := p.Queue()[0];
      var soonest := p.now + ReleaseDelay(|p.Queue()|);
      var at := if p.due.Some? && p.due.value.id == next && p.due.value.at < soonest
                then p.due.value.at else soonest;
      p.(due := Some(Due(next, at)))
  }

  datatype Event = Arrives(messages: seq<string>) | Elapses(ms: nat) | Fires

  /** Time cannot step over a timer that is due; the timer fires at its own instant. */
  predicate Possible(p: Panel, e: Event) {
    match e
    case Arrives(messages) => Distinct(messages)
    case Elapses(ms) => p.due.Some? ==> p.now + ms <= p.due.value.at
    case Fires => p.due.Some?
  }

  function Advance(p: Panel, e: Event): Panel
    requires Possible(p, e)
  {
    match e
    case Arrives(messages) => Arm(p.(messages := messages))
    case Elapses(ms) => p.(now := p.now + ms)
    case Fires =>
      var next := p.due.value.id;
      var at := if p.due.value.at > p.now then p.due.value.at else p.now;
      Arm(p.(now := at, due := None, released := p.released + {next},
             shown := if next in p.released then p.shown else p.shown + [next]))
  }

  predicate Distinct(ids: seq<string>) {
    forall i, j :: 0 <= i < j < |ids| ==> ids[i] != ids[j]
  }

  /** Of two entries of a list each id of which is in `messages`, the earlier one stands later there. */
  predicate StandsLater(messages: seq<string>, x: string, y: string) {
    exists a, b :: 0 <= b < a < |messages| && messages[a] == x && messages[b] == y
  }

  /** The unreleased messages, each once, from the last of the list, which is the oldest, to the first. */
  ghost predicate OldestFirst(messages: seq<string>, released: set<string>, ids: seq<string>) {
    && (forall id :: id in ids <==> id in messages && id !in released)
    && (forall i, j :: 0 <= i < j < |ids| ==> StandsLater(messages, ids[i], ids[j]))
  }

  /** A message not yet on screen after which, in the list, all are: the oldest one. */
  predicate IsOldest(messages: seq<string>, released: set<string>, a: int) {
    0 <= a < |messages| && messages[a] !in released && forall b :: a < b < |messages| ==> messages[b] in released
  }

  /** The timer is always set for the head of the queue, and never in the past. */
  predicate Armed(p: Panel) {
    && Distinct(p.messages)
    && (p.due.None? <==> p.Queue() == [])
    && (p.due.Some? ==> p.due.value.id == p.Queue()[0] && p.now <= p.due.value.at)
    && (p.due.Some? ==> p.due.value.at <= p.now + 260)
  }

  const EMPTY := Panel([], {}, None, 0, [])

  class AgentActivity {
    var messages: seq<string>
    var released: set<string>
    var due: Option<Due>
    var now: int
    ghost var shown: seq<string>

    ghost function Value(): Panel
      reads this
    {
      Panel(messages, released, due, now, shown)
    }

    constructor ()
      ensures Value() == EMPTY
    {
      messages, released, due, now, shown := [], {}, None, 0, [];
    }

    method Queue() returns (ids: seq<string>)
      ensures ids == Value().Queue() && OldestFirst(messages, released, ids)
    {
      ids := [];
      var i := |messages|;
      assert messages[..i] == messages;
      while i > 0
        invariant 0 <= i <= |messages|
        invariant ids + Pending(messages[..i], released) == Pending(messages, released)
      {
        i := i - 1;
        assert messages[..i + 1][..i] == messages[..i];
        if messages[i] !in released {
          ids := ids + [messages[i]];
        }
      }
      PendingIsOldestFirst(messages, released);
    }

    method Effect()
      modifies this`due
      ensures Value() == Arm(old(Value()))
    {
      var pending := Queue();
      if pending == [] {
        due := None;
        return;
      }
      var next := pending[0];
      var soonest := now + ReleaseDelay(|pending|);
      var at := if due.Some? && due.value.id == next && due.value.at < soonest then due.value.at else soonest;
      due := Some(Due(next, at));
    }

    method OnEntries(messages: seq<string>)
      requires Distinct(messages)
      modifies this
      ensures Value() == Advance(old(Value()), Arrives(messages))
    {
      this.messages := messages;
      Effect();
    }

    method OnTimer()
      requires due.Some?
      modifies this
      ensures Value() == Advance(old(Value()), Fires)
    {
      var next := due.value.id;
      if due.value.at > now { now := due.value.at; }
      due := None;
      if next !in released {
        shown := shown + [next];
      }
      released := released + {next};
      Effect();
    }
  }

  // ------------------------------------------------------------- one per tick

  lemma {:induction false} PendingMembers(messages: seq<string>, released: set<string>)
    ensures forall id :: id in Pending(messages, released) <==> id in messages && id !in released
    ensures Distinct(messages) ==> Distinct(Pending(messages, released))
  {
    if messages != [] {
      var front := messages[..|messages| - 1];
      assert messages == front + [messages[|messages| - 1]];
      PendingMembers(front, released);
    }
  }

  lemma {:induction false} PendingIsOldestFirst(messages: seq<string>, released: set<string>)
    ensures OldestFirst(messages, released, Pending(messages, released))
  {
    PendingMembers(messages, released);
    if messages != [] {
      var front, last := messages[..|messages| - 1], messages[|messages| - 1];
      PendingIsOldestFirst(front, released);
      PendingMembers(front, released);
      var ids := Pending(messages, released);
      forall i, j | 0 <= i < j < |ids| ensures StandsLater(messages, ids[i], ids[j]) {
        if last !in released && i == 0 {
          assert ids[j] in front;
          var b :| 0 <= b < |front| && front[b] == ids[j];
          assert messages[b] == ids[j] && messages[|messages| - 1] == last;
        } else {
          LaterInFront(front, last, ids[i], ids[j]);
        }
      }
    }
  }

  lemma LaterInFront(front: seq<string>, last: string, x: string, y: string)
    requires StandsLater(front, x, y)
    ensures StandsLater(front + [last], x, y)
  {
    var a, b :| 0 <= b < a < |front| && front[a] == x && front[b] == y;
    assert (front + [last])[a] == x && (front + [last])[b] == y;
  }

  /** The head of the queue is the oldest message not on screen. */
  lemma {:induction false} HeadIsOldest(messages: seq<string>, released: set<string>) returns (a: nat)
    requires Pending(messages, released) != []
    ensures IsOldest(messages, released, a) && messages[a] == Pending(messages, released)[0]
  {
    var front, last := messages[..|messages| - 1], messages[|messages| - 1];
    if last in released {
      a := HeadIsOldest(front, released);
      assert messages == front + [last];
    } else {
      a := |messages| - 1;
    }
  }

  lemma {:induction false} PendingAfterRelease(messages: seq<string>, released: set<string>)
    requires Distinct(messages) && Pending(messages, released) != []
    ensures var pending := Pending(messages, released);
      Pending(messages, released + {pending[0]}) == pending[1..]
  {
    var front, last := messages[..|messages| - 1], messages[|messages| - 1];
    assert messages == front + [last];
    if last in released {
      PendingAfterRelease(front, released);
    } else {
      ReleasedElsewhere(front, released, last);
    }
  }

  lemma {:induction false} ReleasedElsewhere(messages: seq<string>, released: set<string>, id: string)
    requires id !in messages
    ensures Pending(messages, released + {id}) == Pending(messages, released)
  {
    if messages != [] {
      var front := messages[..|messages| - 1];
      assert messages == front + [messages[|messages| - 1]];
      ReleasedElsewhere(front, released, id);
    }
  }

  lemma AdvanceKeepsArmed(p: Panel, e: Event)
    requires Armed(p) && Possible(p, e)
    ensures Armed(Advance(p, e))
    ensures e.Elapses? ==> Advance(p, e) == p.(now := p.now + e.ms)
  {
    DelayBounds(|Advance(p, e).Queue()|);
  }

  /**
   Whatever changed the queue, its head is due a paced wait from now; a head that was already the
   timer's keeps the earlier of that and what it had.
  */
  lemma HeadIsDueExactly(p: Panel, messages: seq<string>)
    requires Distinct(messages) && Pending(messages, p.released) != []
    ensures var head := Pending(messages, p.released)[0];
            var wait := ReleaseDelay(|Pending(messages, p.released)|);
            var due := Advance(p, Arrives(messages)).due;
            && due.Some? && due.value.id == head
            && ((p.due.None? || p.due.value.id != head) ==> due.value.at == p.now + wait)
            && (p.due.Some? && p.due.value.id == head ==>
                  due.value.at <= p.due.value.at && due.value.at <= p.now + wait
                  && (due.value.at == p.due.value.at || due.value.at == p.now + wait))
  {
  }

  /** After a tick the next head waits its own whole turn. */
  lemma NextHeadWaitsItsTurn(p: Panel)
    requires Armed(p) && p.due.Some?
    ensures var q := Advance(p, Fires);
            && q.now == p.due.value.at
            && (q.due.None? <==> |p.Queue()| == 1)
            && (|p.Queue()| > 1 ==> q.due == Some(Due(p.Queue()[1], q.now + ReleaseDelay(|p.Queue()| - 1))))
  {
    PendingAfterRelease(p.messages, p.released);
  }

  lemma DelayBounds(n: nat)
    ensures 45 <= ReleaseDelay(n) <= 260
  {
    DelayByDepth(n);
  }

  /** A tick deals exactly one message: the oldest one not yet on screen. */
  lemma TickDealsTheOldest(p: Panel)
    requires Armed(p) && p.due.Some?
    ensures exists a :: IsOldest(p.messages, p.released, a) && Deals(p, Advance(p, Fires), p.messages[a])
  {
    PendingAfterRelease(p.messages, p.released);
    PendingMembers(p.messages, p.released);
    var a := HeadIsOldest(p.messages, p.released);
    assert p.Queue()[0] in p.Queue();
    assert Deals(p, Advance(p, Fires), p.messages[a]);
  }

  /** One message is put on screen, at the time it was due, and is no more in the queue. */
  predicate Deals(p: Panel, q: Panel, id: string) {
    && q.shown == p.shown + [id] && q.released == p.released + {id} && q.messages == p.messages
    && p.due.Some? && q.now == p.due.value.at && p.Queue() == [id] + q.Queue()
  }

  // ----------------------------------------------------- deadlines and drains

  predicate KeepsHead(p: Panel, e: Event, head: string)
    requires Possible(p, e)
  {
    !e.Fires? && Advance(p, e).Queue() != [] && Advance(p, e).Queue()[0] == head
  }

  /** A run of arrivals and waiting during which one message stays at the head. */
  predicate HeadStays(p: Panel, events: seq<Event>, head: string)
    decreases |events|
  {
    events != [] ==>
      Possible(p, events[0]) && KeepsHead(p, events[0], head)
      && HeadStays(Advance(p, events[0]), events[1..], head)
  }

  function Play(p: Panel, events: seq<Event>, head: string): Panel
    requires HeadStays(p, events, head)
    decreases |events|
  {
    if events == [] then p else Play(Advance(p, events[0]), events[1..], head)
  }

  /** Arrivals only bring the head's deadline nearer, so they never starve it. */
  lemma {:induction false} DeadlineOnlyMovesEarlier(p: Panel, events: seq<Event>, head: string)
    requires Armed(p) && p.due.Some? && p.due.value.id == head && HeadStays(p, events, head)
    ensures var q := Play(p, events, head);
      q.due.Some? && q.due.value.id == head && q.now <= q.due.value.at <= p.due.value.at <= p.now + 260
    decreases |events|
  {
    if events != [] {
      AdvanceKeepsArmed(p, events[0]);
      DeadlineOnlyMovesEarlier(Advance(p, events[0]), events[1..], head);
    }
  }

  /** The wait of a queue of `n` left alone from the moment its timer was set. */
  function DrainTime(n: nat): nat {
    if n == 0 then 0 else ReleaseDelay(n) + DrainTime(n - 1)
  }

  lemma {:induction false} DrainArithmetic(n: nat)
    requires n >= 5
    ensures DrainTime(n) == 45 * (n - 5) + 594
  {
    DelayByDepth(n);
    if n > 5 {
      DrainArithmetic(n - 1);
    } else {
      DelayByDepth(4);
      DelayByDepth(3);
      DelayByDepth(2);
      assert DrainTime(2) == 130 + 260;
      assert DrainTime(4) == 65 + 87 + 130 + 260;
    }
  }

  function Ticks(p: Panel, n: nat): Panel
    requires Armed(p) && |p.Queue()| == n
    decreases n
  {
    if n == 0 then p
    else
      AdvanceKeepsArmed(p, Fires);
      TickDealsTheOldest(p);
      Ticks(Advance(p, Fires), n - 1)
  }

  /** Freshly set: the head has its whole wait in front of it. */
  predicate JustArmed(p: Panel) {
    Armed(p) && (p.due.Some? ==> p.due.value.at == p.now + ReleaseDelay(|p.Queue()|))
  }

  /** With no arrivals the whole queue is dealt, oldest first, in exactly its drain time. */
  lemma {:induction false} QueueDrainsExactly(p: Panel, n: nat)
    requires JustArmed(p) && |p.Queue()| == n
    ensures var q := Ticks(p, n);
      q.now == p.now + DrainTime(n) && q.shown == p.shown + p.Queue() && q.Queue() == [] && q.messages == p.messages
    ensures OldestFirst(p.messages, p.released, p.Queue())
    decreases n
  {
    PendingIsOldestFirst(p.messages, p.released);
    if n > 0 {
      TickIsJustArmed(p);
      TickDealsTheOldest(p);
      QueueDrainsExactly(Advance(p, Fires), n - 1);
      Dealt(p.shown, p.Queue());
    }
  }

  lemma Dealt(shown: seq<string>, queue: seq<string>)
    requires queue != []
    ensures shown + [queue[0]] + queue[1..] == shown + queue
  {
  }

  /** A tick sets the next head's whole wait, from the moment the last was due. */
  lemma TickIsJustArmed(p: Panel)
    requires JustArmed(p) && p.Queue() != []
    ensures p.due.Some? && Possible(p, Fires) && JustArmed(Advance(p, Fires))
    ensures Advance(p, Fires).now == p.now + ReleaseDelay(|p.Queue()|)
    ensures Advance(p, Fires).messages == p.messages
  {
    AdvanceKeepsArmed(p, Fires);
  }

  /** A backlog of six or more, from the batch that backlog it to an empty queue. */
  lemma BacklogDrains(p: Panel, messages: seq<string>, n: nat)
    requires Armed(p) && p.due.None? && Distinct(messages)
    requires n == |Pending(messages, p.released)| >= 6
    ensures var backlog := Advance(p, Arrives(messages));
      && Armed(backlog) && |backlog.Queue()| == n
      && Ticks(backlog, n).now == p.now + 45 * (n - 5) + 594
      && Ticks(backlog, n).shown == p.shown + Pending(messages, p.released)
    ensures OldestFirst(messages, p.released, Pending(messages, p.released))
  {
    var backlog := Advance(p, Arrives(messages));
    AdvanceKeepsArmed(p, Arrives(messages));
    QueueDrainsExactly(backlog, n);
    DrainArithmetic(n);
  }
}
