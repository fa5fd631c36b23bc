/** The timetable of the route drawing, and when the card may interrupt it. */
module RouteDraw {

  const ROUTE_DRAW_BUDGET_MS: real := 1600.0
  const ROUTE_LEG_MS: real := 220.0
  const ROUTE_EGRESS_GAP_MS: real := 160.0
  const ROUTE_HOLD_MS: real := 2000.0
  const ENTRY_PACKAGE_POLL_MS: real := 3000.0
  const DELIVERY_ALLOWANCE_MS: real := 7000.0

  datatype Route = Absent | Route(waypoints: nat)

  datatype Schedule = Schedule(entryLegs: nat, egressLegs: nat, legMs: real, gapMs: real, totalMs: real)

  datatype Stroke = Stroke(begun: bool, legs: real)

  datatype Drawn = Drawn(entry: Stroke, egress: Stroke, complete: bool)

  function Min(a: real, b: real): real { if a < b then a else b }
  function Max(a: real, b: real): real { if a > b then a else b }

  /** The walk between consecutive waypoints, and no more. */
  function LegCount(r: Route): nat {
    if r.Absent? || r.waypoints < 2 then 0 else r.waypoints - 1
  }

  function RouteDrawSchedule(entry: Route, egress: Route, reducedMotion: bool): Schedule {
    var entryLegs, egressLegs := LegCount(entry), LegCount(egress);
    var legs := entryLegs + egressLegs;
    if legs == 0 || reducedMotion then Schedule(entryLegs, egressLegs, 0.0, 0.0, 0.0)
    else
      var gapMs := if entryLegs > 0 && egressLegs > 0 then ROUTE_EGRESS_GAP_MS else 0.0;
      var legMs := Min(ROUTE_LEG_MS, (ROUTE_DRAW_BUDGET_MS - gapMs) / legs as real);
      Schedule(entryLegs, egressLegs, legMs, gapMs, Min(ROUTE_DRAW_BUDGET_MS, legs as real * legMs + gapMs))
  }

  function RouteDrawState(s: Schedule, elapsedMs: real): Drawn {
    if s.totalMs <= 0.0 || s.legMs <= 0.0 || elapsedMs >= s.totalMs then
      Drawn(Stroke(true, s.entryLegs as real), Stroke(true, s.egressLegs as real), true)
    else Underway(s, Max(0.0, elapsedMs), EgressBegins(s))
  }

  /** The second statement starts once the first is whole and the gap has passed. */
  function EgressBegins(s: Schedule): real {
    s.entryLegs as real * s.legMs + s.gapMs
  }

  /** Part of the way through: the entry from the start, the egress from `egressBegins`. */
  function Underway(s: Schedule, elapsed: real, egressBegins: real): Drawn
    requires s.legMs > 0.0
  {
    Drawn(
      Stroke(true, Walked(s.entryLegs, elapsed, s.legMs)),
      Stroke(elapsed >= egressBegins, Walked(s.egressLegs, elapsed - egressBegins, s.legMs)),
      elapsed >= s.totalMs)
  }

  /** Legs walked after `elapsed` at `legMs` a leg: none before the start, never past the end. */
  function Walked(legs: nat, elapsed: real, legMs: real): real
    requires legMs > 0.0
  {
    Min(legs as real, Max(0.0, elapsed / legMs))
  }

  /** What the card waits: the draw and the hold, or nothing when nothing is drawn. */
  function RouteDrawMs(refused: bool, entry: Route, egress: Route, reducedMotion: bool): real {
    var total := RouteDrawSchedule(entry, egress, reducedMotion).totalMs;
    if refused || total <= 0.0 then 0.0 else total + ROUTE_HOLD_MS
  }

  // ---------------------------------------------------------- the schedule

  /** A schedule that draws something. */
  predicate Draws(s: Schedule) {
    s.legMs > 0.0 && s.entryLegs + s.egressLegs > 0 && s.gapMs >= 0.0
    && s.totalMs == (s.entryLegs + s.egressLegs) as real * s.legMs + s.gapMs
    && (s.egressLegs == 0 ==> s.gapMs == 0.0)
  }

  lemma Share(budget: real, legs: nat)
    requires legs > 0 && budget > 0.0
    ensures budget / legs as real > 0.0
    ensures legs as real * (budget / legs as real) == budget
  {
  }

  lemma Scaled(n: nat, x: real, y: real)
    requires x <= y
    ensures n as real * x <= n as real * y
  {
  }

  /**
   For all leg counts the draw takes its legs and its gap exactly, within the
   budget; it takes nothing only for an empty overlay or a reader who asked for
   no motion.
  */
  lemma ScheduleFitsTheBudget(entry: Route, egress: Route, reducedMotion: bool)
    ensures var s := RouteDrawSchedule(entry, egress, reducedMotion);
      && 0.0 <= s.totalMs <= ROUTE_DRAW_BUDGET_MS
      && s.legMs <= ROUTE_LEG_MS
      && (Draws(s) || s.totalMs == 0.0)
      && (s.totalMs == 0.0 <==> reducedMotion || (LegCount(entry) == 0 && LegCount(egress) == 0))
      && (s.gapMs > 0.0 <==> !reducedMotion && LegCount(entry) > 0 && LegCount(egress) > 0)
  {
    var s := RouteDrawSchedule(entry, egress, reducedMotion);
    var legs := s.entryLegs + s.egressLegs;
    if legs > 0 && !reducedMotion {
      var budget := ROUTE_DRAW_BUDGET_MS - s.gapMs;
      Share(budget, legs);
      Scaled(legs, s.legMs, budget / legs as real);
      Scaled(legs, 0.0, s.legMs);
      Positive(legs, s.legMs);
    }
  }

  lemma Positive(n: nat, x: real)
    requires n > 0 && x > 0.0
    ensures n as real * x > 0.0
  {
  }

  function Waypoints(r: Route): nat {
    if r.Absent? then 0 else r.waypoints
  }

  /** A leg between each waypoint and the next: 220 ms each where the budget allows, else an equal share of all of it. */
  lemma PaceExactly(entry: Route, egress: Route, reducedMotion: bool)
    ensures var s := RouteDrawSchedule(entry, egress, reducedMotion);
            var legs := s.entryLegs + s.egressLegs;
            && (if Waypoints(entry) == 0 then s.entryLegs == 0 else s.entryLegs + 1 == Waypoints(entry))
            && (if Waypoints(egress) == 0 then s.egressLegs == 0 else s.egressLegs + 1 == Waypoints(egress))
            && (s.gapMs == if !reducedMotion && s.entryLegs > 0 && s.egressLegs > 0 then 160.0 else 0.0)
            && (reducedMotion ==> s.legMs == s.totalMs == 0.0)
            && (!reducedMotion && legs > 0 ==>
                  && s.totalMs == legs as real * s.legMs + s.gapMs
                  && (if legs as real * 220.0 + s.gapMs <= 1600.0 then s.legMs == 220.0 else s.totalMs == 1600.0))
  {
    var s := RouteDrawSchedule(entry, egress, reducedMotion);
    var legs := s.entryLegs + s.egressLegs;
    ScheduleFitsTheBudget(entry, egress, reducedMotion);
    if legs > 0 && !reducedMotion {
      ShareExceeds(ROUTE_DRAW_BUDGET_MS - s.gapMs, legs, ROUTE_LEG_MS);
      Share(ROUTE_DRAW_BUDGET_MS - s.gapMs, legs);
    }
  }

  lemma ShareExceeds(budget: real, legs: nat, x: real)
    requires legs > 0
    ensures legs as real * x <= budget <==> x <= budget / legs as real
  {
    QuotientBelow(budget, 0, legs as real);
    var q := budget / legs as real;
    assert q * legs as real == budget;
    if x <= q {
      Scaled(legs, x, q);
    } else {
      Positive(legs, x - q);
      assert legs as real * (x - q) == legs as real * x - legs as real * q;
    }
  }

  /** Poll, draw and hold together stay inside the delivery allowance. */
  lemma CardArrivesInsideTheAllowance(refused: bool, entry: Route, egress: Route, reducedMotion: bool)
    ensures var wait := RouteDrawMs(refused, entry, egress, reducedMotion);
      && (wait == 0.0 || wait == RouteDrawSchedule(entry, egress, reducedMotion).totalMs + 2000.0)
      && ENTRY_PACKAGE_POLL_MS + wait <= 6600.0 < DELIVERY_ALLOWANCE_MS
      && (wait == 0.0 <==> refused || reducedMotion || (LegCount(entry) == 0 && LegCount(egress) == 0))
  {
    ScheduleFitsTheBudget(entry, egress, reducedMotion);
  }

  // --------------------------------------------------------------- the draw

  lemma Quotients(x: real, y: real, d: real)
    requires d > 0.0 && x <= y
    ensures x / d <= y / d
  {
    assert y / d - x / d == (y - x) / d;
    QuotientBelow(x - y, 0, d);
  }

  lemma QuotientBelow(x: real, n: nat, d: real)
    requires d > 0.0
    ensures x / d < n as real <==> x < n as real * d
    ensures x / d <= 0.0 <==> x <= 0.0
  {
    var q := x / d;
    assert q * d == x;
    if q < n as real {
      assert (n as real - q) * d > 0.0;
    } else {
      assert (q - n as real) * d >= 0.0;
    }
    if q > 0.0 {
      assert q * d > 0.0;
    } else {
      assert (0.0 - q) * d >= 0.0;
    }
  }

  /** Drawn legs never shrink as the clock runs. */
  lemma LegsNeverDecrease(s: Schedule, t: real, u: real)
    requires t <= u
    ensures RouteDrawState(s, t).entry.legs <= RouteDrawState(s, u).entry.legs
    ensures RouteDrawState(s, t).egress.legs <= RouteDrawState(s, u).egress.legs
    ensures RouteDrawState(s, t).complete ==> RouteDrawState(s, u).complete
  {
    if s.legMs > 0.0 {
      UnderwayGrows(s, Max(0.0, t), Max(0.0, u), EgressBegins(s));
      StateBeforeTheEnd(s, t);
      StateBeforeTheEnd(s, u);
    }
  }

  lemma StateBeforeTheEnd(s: Schedule, t: real)
    requires s.legMs > 0.0
    ensures RouteDrawState(s, t) ==
            if t < s.totalMs && s.totalMs > 0.0 then Underway(s, Max(0.0, t), EgressBegins(s))
            else Drawn(Stroke(true, s.entryLegs as real), Stroke(true, s.egressLegs as real), true)
  {
  }

  lemma UnderwayGrows(s: Schedule, t: real, u: real, begins: real)
    requires s.legMs > 0.0 && t <= u
    ensures Underway(s, t, begins).entry.legs <= Underway(s, u, begins).entry.legs <= s.entryLegs as real
    ensures Underway(s, t, begins).egress.legs <= Underway(s, u, begins).egress.legs <= s.egressLegs as real
  {
    WalkedGrows(s.entryLegs, t, u, s.legMs);
    WalkedGrows(s.egressLegs, t - begins, u - begins, s.legMs);
  }

  lemma WalkedGrows(legs: nat, t: real, u: real, legMs: real)
    requires legMs > 0.0 && t <= u
    ensures Walked(legs, t, legMs) <= Walked(legs, u, legMs) <= legs as real
  {
    Quotients(t, u, legMs);
  }

  /** The second way out is a second statement: nothing of it before the first is whole and the gap has passed. */
  lemma EgressWaits(s: Schedule, t: real)
    requires Draws(s)
    ensures RouteDrawState(s, t).egress.legs > 0.0 ==>
      && RouteDrawState(s, t).entry.legs == s.entryLegs as real
      && t > EgressBegins(s)
  {
    EgressComesLast(s);
    StateBeforeTheEnd(s, t);
    WaitsUnderway(s, Max(0.0, t), EgressBegins(s));
  }

  lemma EgressComesLast(s: Schedule)
    requires Draws(s)
    ensures EgressBegins(s) >= s.entryLegs as real * s.legMs >= 0.0
    ensures s.egressLegs > 0 ==> s.totalMs > EgressBegins(s)
  {
    Scaled(s.entryLegs, 0.0, s.legMs);
    Sum(s.entryLegs, s.egressLegs, s.legMs);
    if s.egressLegs > 0 {
      Positive(s.egressLegs, s.legMs);
    }
  }

  lemma WaitsUnderway(s: Schedule, t: real, begins: real)
    requires s.legMs > 0.0 && begins >= s.entryLegs as real * s.legMs
    ensures Underway(s, t, begins).egress.legs > 0.0 ==>
      t > begins && Underway(s, t, begins).entry.legs == s.entryLegs as real
  {
    WalkedAtAll(s.egressLegs, t - begins, s.legMs);
    WalkedWhole(s.entryLegs, t, s.legMs);
  }

  lemma WalkedAtAll(legs: nat, t: real, legMs: real)
    requires legMs > 0.0
    ensures Walked(legs, t, legMs) > 0.0 ==> t > 0.0
  {
    QuotientBelow(t, 0, legMs);
  }

  lemma WalkedWhole(legs: nat, t: real, legMs: real)
    requires legMs > 0.0
    ensures Walked(legs, t, legMs) == legs as real <==> legs == 0 || t >= legs as real * legMs
  {
    QuotientBelow(t, legs, legMs);
  }

  lemma Sum(m: nat, n: nat, x: real)
    ensures (m + n) as real * x == m as real * x + n as real * x
  {
  }

  /** `x`, or zero below it, or `top` above that. */
  function Within(x: real, top: real): real {
    if x <= 0.0 then 0.0 else if x >= top then top else x
  }

  /** As many of `legs` as `t` allows at `legMs` each, the last in part. */
  predicate TakesItsTime(stroke: real, legs: nat, t: real, legMs: real) {
    stroke * legMs == Within(t, legs as real * legMs)
  }

  lemma WalkedExactly(legs: nat, t: real, legMs: real)
    requires legMs > 0.0
    ensures TakesItsTime(Walked(legs, t, legMs), legs, t, legMs)
  {
    QuotientBelow(t, 0, legMs);
    QuotientBelow(t, legs, legMs);
    Scaled(legs, 0.0, legMs);
    assert t / legMs * legMs == t;
  }

  lemma WholeExactly(legs: nat, t: real, legMs: real)
    requires legMs > 0.0 && t >= legs as real * legMs
    ensures TakesItsTime(legs as real, legs, t, legMs)
  {
    Scaled(legs, 0.0, legMs);
  }

  /** Each statement takes its time from its own start: the entry at once, the egress when the entry and the gap are over. */
  lemma DrawnExactly(s: Schedule, t: real, begins: real)
    requires Draws(s) && t >= 0.0 && begins == s.entryLegs as real * s.legMs + s.gapMs
    ensures RouteDrawState(s, t).entry.begun
    ensures TakesItsTime(RouteDrawState(s, t).entry.legs, s.entryLegs, t, s.legMs)
    ensures RouteDrawState(s, t).egress.begun <==> t >= begins
    ensures TakesItsTime(RouteDrawState(s, t).egress.legs, s.egressLegs, t - begins, s.legMs)
  {
    EndIsAfterBoth(s);
    assert EgressBegins(s) == begins;
    DrawnByState(s, t, begins);
  }

  lemma DrawnByState(s: Schedule, t: real, begins: real)
    requires s.legMs > 0.0 && s.totalMs > 0.0 && t >= 0.0 && begins == EgressBegins(s) <= s.totalMs
    requires s.totalMs >= s.entryLegs as real * s.legMs && s.totalMs - begins >= s.egressLegs as real * s.legMs
    ensures RouteDrawState(s, t).entry.begun && (RouteDrawState(s, t).egress.begun <==> t >= begins)
    ensures TakesItsTime(RouteDrawState(s, t).entry.legs, s.entryLegs, t, s.legMs)
    ensures TakesItsTime(RouteDrawState(s, t).egress.legs, s.egressLegs, t - begins, s.legMs)
  {
    StateBeforeTheEnd(s, t);
    if t < s.totalMs {
      WalkedExactly(s.entryLegs, t, s.legMs);
      WalkedExactly(s.egressLegs, t - begins, s.legMs);
    } else {
      WholeExactly(s.entryLegs, t, s.legMs);
      WholeExactly(s.egressLegs, t - begins, s.legMs);
    }
  }

  lemma EndIsAfterBoth(s: Schedule)
    requires Draws(s)
    ensures s.totalMs > 0.0 && s.totalMs >= s.entryLegs as real * s.legMs
    ensures s.totalMs - EgressBegins(s) >= s.egressLegs as real * s.legMs && s.totalMs >= EgressBegins(s)
  {
    Sum(s.entryLegs, s.egressLegs, s.legMs);
    Positive(s.entryLegs + s.egressLegs, s.legMs);
    Scaled(s.entryLegs, 0.0, s.legMs);
    Scaled(s.egressLegs, 0.0, s.legMs);
  }

  /** `complete` is true exactly when both routes are whole. */
  lemma CompleteExactlyWhenWhole(s: Schedule, t: real)
    requires Draws(s)
    ensures RouteDrawState(s, t).complete <==>
      RouteDrawState(s, t).entry.legs == s.entryLegs as real
      && RouteDrawState(s, t).egress.legs == s.egressLegs as real
  {
    StateBeforeTheEnd(s, t);
    if t < s.totalMs {
      Sum(s.entryLegs, s.egressLegs, s.legMs);
      Positive(s.entryLegs + s.egressLegs, s.legMs);
      WalkedWhole(s.entryLegs, Max(0.0, t), s.legMs);
      WalkedWhole(s.egressLegs, Max(0.0, t) - EgressBegins(s), s.legMs);
    }
  }
}
