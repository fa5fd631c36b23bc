/**
 The console's identity token: cached, refreshed ahead of its expiry, and minted
 by one request at a time however many calls are waiting for it.
*/
module TokenCache {
  import opened Options

  const REFRESH_MARGIN_MS := 300_000

  datatype Token = Token(value: string, expiresAtMs: int)

  /** How a call was answered, and by which rule. */
  datatype Credential =
    | FromCache(token: Token)
    | Minted(token: Token)
    | InsideMargin(token: Token)
    | Static(value: string)
    | Unavailable

  /** A call suspended on a mint, with the clock it read when it came in. */
  datatype Wait = Wait(mint: nat, now: int)

  /** An answer, with the mint it waited for, if any, and the cache as it stood when it was given. */
  datatype Answer = Answer(now: int, credential: Credential, waitedFor: Option<nat>, cachedThen: Option<Token>)

  predicate Fresh(cached: Option<Token>, now: int) {
    cached.Some? && now < cached.value.expiresAtMs - REFRESH_MARGIN_MS
  }

  predicate Unexpired(cached: Option<Token>, now: int) {
    cached.Some? && now < cached.value.expiresAtMs
  }

  /** What a call answers once its mint has settled. */
  function AfterMint(minted: Option<Token>, cached: Option<Token>, staticToken: Option<string>, now: int): Credential {
    if minted.Some? then Minted(minted.value)
    else if Unexpired(cached, now) then InsideMargin(cached.value)
    else if staticToken.Some? then Static(staticToken.value)
    else Unavailable
  }

  /** `settled` maps every finished mint to what it returned. */
  datatype State = State(
    staticToken: Option<string>,
    cached: Option<Token>,
    inflight: Option<nat>,
    started: nat,
    settled: map<nat, Option<Token>>,
    waiting: map<nat, Wait>,
    answers: map<nat, Answer>)

  datatype Step = Calls(call: nat, now: int) | Settles(result: Option<Token>) | Resumes(call: nat)

  predicate Possible(s: State, step: Step) {
    match step
    case Calls(call, _) => call !in s.waiting && call !in s.answers
    case Settles(_) => s.inflight.Some?
    case Resumes(call) => call in s.waiting && s.waiting[call].mint in s.settled
  }

  function Advance(s: State, step: Step): State
    requires Possible(s, step)
  {
    match step
    case Calls(call, now) =>
      if Fresh(s.cached, now) then s.(answers := s.answers[call := Answer(now, FromCache(s.cached.value), None, s.cached)])
      else if s.inflight.Some? then s.(waiting := s.waiting[call := Wait(s.inflight.value, now)])
      else s.(inflight := Some(s.started), started := s.started + 1,
              waiting := s.waiting[call := Wait(s.started, now)])
    case Settles(result) => s.(inflight := None, settled := s.settled[s.inflight.value := result])
    case Resumes(call) =>
      var wait := s.waiting[call];
      var minted := s.settled[wait.mint];
      s.(cached := if minted.Some? then minted else s.cached,
         waiting := s.waiting - {call},
         answers := s.answers[call := Answer(wait.now, AfterMint(minted, s.cached, s.staticToken, wait.now),
                                             Some(wait.mint), s.cached)])
  }

  function Start(staticToken: Option<string>): State {
    State(staticToken, None, None, 0, map[], map[], map[])
  }

  ghost predicate Run(states: seq<State>, steps: seq<Step>) {
    && |states| == |steps| + 1
    && (exists staticToken :: states[0] == Start(staticToken))
    && forall i :: 0 <= i < |steps| ==> Possible(states[i], steps[i]) && states[i + 1] == Advance(states[i], steps[i])
  }

  /** The module's own variables, and the halves of its function around the await. */
  class BackendAuth {
    const staticToken: Option<string>
    var cached: Option<Token>
    var inflight: Option<nat>
    var started: nat

    constructor (staticToken: Option<string>)
      ensures this.staticToken == staticToken && cached == None && inflight == None && started == 0
    {
      this.staticToken := staticToken;
      cached, inflight, started := None, None, 0;
    }

    /** Up to the await: a credential at once, or the mint to wait for. */
    method Begin(now: int) returns (credential: Option<Credential>, mint: nat)
      modifies this`inflight, this`started
      ensures credential.Some? <==> cached.Some? && now + 300_000 < cached.value.expiresAtMs
      ensures credential.Some? ==> credential.value == FromCache(cached.value)
      ensures credential.Some? || old(inflight).Some? ==> inflight == old(inflight) && started == old(started)
      ensures credential.None? ==> inflight == Some(mint)
      ensures credential.None? && old(inflight).None? ==> mint == old(started) && started == old(started) + 1
    {
      if Fresh(cached, now) {
        return Some(FromCache(cached.value)), 0;
      }
      if inflight.None? {
        inflight := Some(started);
        started := started + 1;
      }
      return None, inflight.value;
    }

    method OnSettled()
      modifies this`inflight
      ensures inflight == None
    {
      inflight := None;
    }

    /** After the await. */
    method Finish(minted: Option<Token>, now: int) returns (credential: Credential)
      modifies this`cached
      ensures credential == AfterMint(minted, old(cached), staticToken, now)
      ensures minted.Some? ==> credential == Minted(minted.value)
      ensures minted.None? && old(cached).Some? && now < old(cached).value.expiresAtMs ==> credential == InsideMargin(old(cached).value)
      ensures minted.None? && (old(cached).Some? ==> old(cached).value.expiresAtMs <= now) ==>
                credential == if staticToken.Some? then Static(staticToken.value) else Unavailable
      ensures cached == if minted.Some? then minted else old(cached)
    {
      if minted.Some? {
        cached := minted;
        return Minted(minted.value);
      }
      if Unexpired(cached, now) { return InsideMargin(cached.value); }
      if staticToken.Some? { return Static(staticToken.value); }
      return Unavailable;
    }
  }

  // ----------------------------------------------------------- single flight

  /** Mints asked for and not yet settled. */
  predicate Outstanding(s: State, mint: nat) {
    mint < s.started && mint !in s.settled
  }

  /** A token some mint returned. */
  predicate WasMinted(s: State, token: Token) {
    exists m: nat :: m < s.started && m in s.settled && s.settled[m] == Some(token)
  }

  /** The mint an answer waited for failed. */
  predicate ItsMintFailed(s: State, a: Answer) {
    a.waitedFor.Some? && a.waitedFor.value in s.settled && s.settled[a.waitedFor.value].None?
  }

  /** Why an answer may have been given, on the clock its call read and the cache it found. */
  predicate Justified(s: State, a: Answer) {
    && (a.cachedThen.Some? ==> WasMinted(s, a.cachedThen.value))
    && match a.credential
       case FromCache(token) => a.waitedFor.None? && a.cachedThen == Some(token) && Fresh(a.cachedThen, a.now)
       case Minted(token) =>
         a.waitedFor.Some? && a.waitedFor.value in s.settled && s.settled[a.waitedFor.value] == Some(token)
       case InsideMargin(token) => ItsMintFailed(s, a) && a.cachedThen == Some(token) && Unexpired(a.cachedThen, a.now)
       case Static(value) => ItsMintFailed(s, a) && !Unexpired(a.cachedThen, a.now) && s.staticToken == Some(value)
       case Unavailable => ItsMintFailed(s, a) && !Unexpired(a.cachedThen, a.now) && s.staticToken.None?
  }

  ghost predicate Inv(s: State) {
    && (forall m :: m in s.settled ==> m < s.started)
    && (forall m: nat :: Outstanding(s, m) <==> s.inflight == Some(m))
    && (s.cached.Some? ==> WasMinted(s, s.cached.value))
    && (forall c :: c in s.waiting ==> s.waiting[c].mint < s.started && c !in s.answers)
    && (forall c :: c in s.answers ==> Justified(s, s.answers[c]))
  }

  /** Every mint that settled stays settled the same way. */
  predicate Extends(s: State, t: State) {
    && s.started <= t.started && s.staticToken == t.staticToken
    && forall m :: m in s.settled ==> m in t.settled && t.settled[m] == s.settled[m]
  }

  lemma MintedStays(s: State, t: State, token: Token)
    requires Extends(s, t) && WasMinted(s, token)
    ensures WasMinted(t, token)
  {
  }

  lemma JustifiedStays(s: State, t: State, a: Answer)
    requires Extends(s, t) && Justified(s, a)
    ensures Justified(t, a)
  {
  }

  lemma StepKeepsInv(s: State, step: Step)
    requires Inv(s) && Possible(s, step)
    ensures Inv(Advance(s, step)) && Extends(s, Advance(s, step))
  {
    var t := Advance(s, step);
    match step
    case Calls(call, now) =>
      assert forall m: nat :: Outstanding(t, m) <==> t.inflight == Some(m);
      AnswersStay(s, t, call);
    case Settles(result) =>
      assert Outstanding(s, s.inflight.value);
      assert forall m: nat :: Outstanding(t, m) ==> Outstanding(s, m);
      assert Extends(s, t);
      if s.cached.Some? { MintedStays(s, t, s.cached.value); }
      forall c | c in t.answers ensures Justified(t, t.answers[c]) {
        JustifiedStays(s, t, s.answers[c]);
      }
    case Resumes(call) =>
      assert forall m: nat :: Outstanding(t, m) <==> Outstanding(s, m);
      var mint := s.waiting[call].mint;
      assert s.settled[mint].Some? ==> WasMinted(t, s.settled[mint].value);
      AnswersStay(s, t, call);
  }

  lemma AnswersStay(s: State, t: State, call: nat)
    requires Extends(s, t) && forall c :: c in s.answers ==> Justified(s, s.answers[c])
    ensures forall c :: c in s.answers && c != call ==> Justified(t, s.answers[c])
  {
    forall c | c in s.answers && c != call ensures Justified(t, s.answers[c]) {
      JustifiedStays(s, t, s.answers[c]);
    }
  }

  /**
   Under every interleaving: one mint outstanding at most, every token served was
   minted and unexpired on its call's clock where it came from the cache, and a
   refusal means the mint it waited for failed, the cache held nothing unexpired
   when it was given, and there was no static token.
  */
  lemma {:induction false} EveryInterleavingIsSafe(states: seq<State>, steps: seq<Step>)
    requires Run(states, steps)
    ensures Inv(states[|steps|])
    ensures forall m: nat, n: nat :: Outstanding(states[|steps|], m) && Outstanding(states[|steps|], n) ==> m == n
    decreases |steps|
  {
    if steps != [] {
      var n := |steps|;
      EveryInterleavingIsSafe(states[..n], steps[..n - 1]);
      StepKeepsInv(states[n - 1], steps[n - 1]);
    }
  }

  /** What an answer comes to in milliseconds, whichever rule gave it. */
  predicate InTime(s: State, a: Answer) {
    match a.credential
    case FromCache(token) => a.cachedThen == Some(token) && a.now + 300_000 < token.expiresAtMs
    case Minted(token) => a.waitedFor.Some? && a.waitedFor.value in s.settled && s.settled[a.waitedFor.value] == Some(token)
    case InsideMargin(token) => a.cachedThen == Some(token) && a.now < token.expiresAtMs
    case Static(value) => s.staticToken == Some(value) && (a.cachedThen.Some? ==> a.cachedThen.value.expiresAtMs <= a.now)
    case Unavailable => s.staticToken.None? && (a.cachedThen.Some? ==> a.cachedThen.value.expiresAtMs <= a.now)
  }

  /**
   In every run a token from the cache had more than five minutes left on its call's
   clock, one served inside the margin had some time left, and a call turned to the
   static token, or away, found nothing in the cache with any.
  */
  lemma EveryAnswerIsInTime(states: seq<State>, steps: seq<Step>, call: nat)
    requires Run(states, steps) && call in states[|steps|].answers
    ensures InTime(states[|steps|], states[|steps|].answers[call])
  {
    EveryInterleavingIsSafe(states, steps);
    assert Justified(states[|steps|], states[|steps|].answers[call]);
  }

  /** A call is answered at once exactly when the cached token has more than five minutes left, and then with it. */
  lemma AnsweredAtOnceExactly(s: State, call: nat, now: int)
    requires Possible(s, Calls(call, now))
    ensures call in Advance(s, Calls(call, now)).answers <==> s.cached.Some? && now + 300_000 < s.cached.value.expiresAtMs
    ensures call in Advance(s, Calls(call, now)).answers ==>
              Advance(s, Calls(call, now)).answers[call] == Answer(now, FromCache(s.cached.value), None, s.cached)
    ensures call !in Advance(s, Calls(call, now)).answers ==>
              call in Advance(s, Calls(call, now)).waiting && Advance(s, Calls(call, now)).waiting[call].now == now
  {
  }

  /** The cache holds what the last successful resumption brought, and the answer records what it found there. */
  lemma CacheIsWhatCameLast(s: State, step: Step)
    requires Possible(s, step)
    ensures step.Resumes? && s.settled[s.waiting[step.call].mint].Some? ==>
              Advance(s, step).cached == s.settled[s.waiting[step.call].mint]
    ensures !(step.Resumes? && s.settled[s.waiting[step.call].mint].Some?) ==> Advance(s, step).cached == s.cached
    ensures step.Resumes? ==> step.call in Advance(s, step).answers && step.call !in Advance(s, step).waiting
                              && Advance(s, step).answers[step.call].cachedThen == s.cached
                              && Advance(s, step).answers[step.call].now == s.waiting[step.call].now
  {
  }

  /** Step `i` of the run is the resumption of `call`. */
  predicate ResumesAt(states: seq<State>, steps: seq<Step>, i: int, call: nat) {
    0 <= i < |steps| < |states| && steps[i] == Resumes(call) && Possible(states[i], steps[i])
  }

  /** The mint this resumption waited for failed, and the cache it finds is no help. */
  predicate NothingCached(s: State, call: nat)
    requires Possible(s, Resumes(call))
  {
    s.settled[s.waiting[call].mint].None? && !Unexpired(s.cached, s.waiting[call].now)
  }

  function Resumption(s: State, call: nat): Credential
    requires Possible(s, Resumes(call))
  {
    AfterMint(s.settled[s.waiting[call].mint], s.cached, s.staticToken, s.waiting[call].now)
  }

  /** An answer, once given, is never given again or changed. */
  lemma {:induction false} AnswerStands(states: seq<State>, steps: seq<Step>, i: nat, call: nat)
    requires Run(states, steps) && i <= |steps| && call in states[i].answers
    ensures call in states[|steps|].answers && states[|steps|].answers[call] == states[i].answers[call]
    decreases |steps|
  {
    if i < |steps| {
      var n := |steps|;
      AnswerStands(states[..n], steps[..n - 1], i, call);
      EveryInterleavingIsSafe(states[..n], steps[..n - 1]);
    }
  }

  /** A call answered after waiting was answered by a resumption. */
  lemma {:induction false} AnsweredSomewhere(states: seq<State>, steps: seq<Step>, call: nat) returns (i: nat)
    requires Run(states, steps) && call in states[|steps|].answers
    requires states[|steps|].answers[call].waitedFor.Some?
    ensures ResumesAt(states, steps, i, call)
    decreases |steps|
  {
    var n := |steps|;
    if call in states[n - 1].answers {
      EveryInterleavingIsSafe(states[..n], steps[..n - 1]);
      i := AnsweredSomewhere(states[..n], steps[..n - 1], call);
    } else {
      i := n - 1;
    }
  }

  /**
   Over a whole run a call is refused, or given the static token, exactly when it
   resumed from a mint that failed while the cache held nothing unexpired on its
   clock; which of the two, by whether there is a static token.
  */
  lemma RefusedExactly(states: seq<State>, steps: seq<Step>, call: nat)
    requires Run(states, steps)
    ensures var end := states[|steps|];
            && (call in end.answers && end.answers[call].credential == Unavailable <==>
                  exists i :: ResumesAt(states, steps, i, call) && NothingCached(states[i], call) && end.staticToken.None?)
            && (call in end.answers && end.answers[call].credential.Static? <==>
                  exists i :: ResumesAt(states, steps, i, call) && NothingCached(states[i], call) && end.staticToken.Some?)
  {
    var end := states[|steps|];
    EveryInterleavingIsSafe(states, steps);
    forall i | ResumesAt(states, steps, i, call)
      ensures call in end.answers && end.answers[call].credential == Resumption(states[i], call)
      ensures end.staticToken == states[i].staticToken
    {
      assert states[i + 1] == Advance(states[i], Resumes(call));
      AnswerStands(states, steps, i + 1, call);
      StaticTokenStands(states, steps, i);
    }
    if call in end.answers && (end.answers[call].credential == Unavailable || end.answers[call].credential.Static?) {
      assert Justified(end, end.answers[call]);
      var i := AnsweredSomewhere(states, steps, call);
      assert ResumesAt(states, steps, i, call);
    }
  }

  lemma {:induction false} StaticTokenStands(states: seq<State>, steps: seq<Step>, i: nat)
    requires Run(states, steps) && i <= |steps|
    ensures states[|steps|].staticToken == states[i].staticToken
    decreases |steps|
  {
    if i < |steps| {
      StaticTokenStands(states[..|steps|], steps[..|steps| - 1], i);
    }
  }

  /** Calls the console has not seen: what a burst of panel loads brings. */
  predicate NewCalls(s: State, calls: seq<(nat, int)>) {
    && (forall i :: 0 <= i < |calls| ==> calls[i].0 !in s.waiting && calls[i].0 !in s.answers)
    && (forall i, j :: 0 <= i < j < |calls| ==> calls[i].0 != calls[j].0)
  }

  function Burst(s: State, calls: seq<(nat, int)>): State
    requires NewCalls(s, calls)
    decreases |calls|
  {
    if calls == [] then s
    else
      var step := Calls(calls[0].0, calls[0].1);
      assert Possible(s, step);
      OthersStillNew(s, calls);
      Burst(Advance(s, step), calls[1..])
  }

  lemma OthersStillNew(s: State, calls: seq<(nat, int)>)
    requires NewCalls(s, calls) && calls != []
    ensures NewCalls(Advance(s, Calls(calls[0].0, calls[0].1)), calls[1..])
  {
    var t := Advance(s, Calls(calls[0].0, calls[0].1));
    forall i | 0 <= i < |calls[1..]| ensures calls[1..][i].0 !in t.waiting && calls[1..][i].0 !in t.answers {
      assert calls[1..][i] == calls[i + 1];
    }
  }

  /** However many calls a burst brings, it costs at most one mint, and only when one is not already out. */
  lemma {:induction false} BurstCostsOneMint(s: State, calls: seq<(nat, int)>)
    requires NewCalls(s, calls)
    ensures Burst(s, calls).started <= s.started + (if s.inflight.Some? then 0 else 1)
    ensures s.inflight.Some? ==> Burst(s, calls).inflight == s.inflight
    decreases |calls|
  {
    if calls != [] {
      OthersStillNew(s, calls);
      BurstCostsOneMint(Advance(s, Calls(calls[0].0, calls[0].1)), calls[1..]);
    }
  }
}
