/** The activity stream: a replayed log turned into one canonical list of messages. */
module ActivityStream {
  import opened Options
  import opened Decimals
  import opened Sorting
  import Strings

  // ------------------------------------------------------------ the entries

  datatype Pointer = Pointer(kind: string, ref: string, reason: string, priority: int)

  /** One `per_agent` record of a focus. */
  datatype AgentFocus = AgentFocus(agentId: Option<string>, headline: Option<string>, pointers: seq<Pointer>)

  /** `content` stands for the fields that only words are made from. */
  datatype Entry = Entry(
    sequence: nat,
    entryType: string,
    occurredAt: string,
    agentRef: Option<string>,
    writers: seq<(string, string)>,
    agentIds: seq<string>,
    focus: seq<AgentFocus>,
    content: int)

  datatype Kind = Action | Handoff

  function KindName(k: Kind): string {
    match k
    case Action => "action"
    case Handoff => "handoff"
  }

  datatype Message = Message(
    id: string,
    sequence: nat,
    at: string,
    agentId: string,
    version: Option<string>,
    kind: Kind,
    source: Entry,
    handoffHeadline: Option<string>,
    pointers: seq<Pointer>)

  const FOCUS_COMPOSED := "FOCUS_COMPOSED"
  const RECORDER := "incident-recorder"

  // ------------------------------------------------------------ attribution

  predicate IsJsSpace(c: char) {
    '\t' <= c <= '\r' || c == ' ' || c == '\U{a0}' || c == '\U{1680}' || '\U{2000}' <= c <= '\U{200a}'
    || c == '\U{2028}' || c == '\U{2029}' || c == '\U{202f}' || c == '\U{205f}' || c == '\U{3000}'
    || c == '\U{feff}'
  }

  /** A string that says something, or nothing. */
  function Str(value: Option<string>): Option<string> {
    if value.Some? && (exists i :: 0 <= i < |value.value| && !IsJsSpace(value.value[i])) then value else None
  }

  /** `lastIndexOf('@')`, or minus one. */
  function LastAt(ref: string): (i: int)
    ensures -1 <= i < |ref|
    ensures i >= 0 ==> ref[i] == '@'
    ensures forall j :: i < j < |ref| ==> ref[j] != '@'
  {
    if ref == [] then -1
    else if ref[|ref| - 1] == '@' then |ref| - 1
    else LastAt(ref[..|ref| - 1])
  }

  function SplitAgentRef(ref: string): (string, Option<string>) {
    var at := LastAt(ref);
    if at <= 0 then (ref, None) else (ref[..at], Some(ref[at + 1..]))
  }

  /** The first writer that is not the recorder, which writes everything. */
  function Specific(writers: seq<(string, string)>): Option<(string, string)> {
    if writers == [] then None
    else if writers[0].0 != RECORDER then Some(writers[0])
    else Specific(writers[1..])
  }

  /** Which single agent an entry belongs to: its subject where it names one. */
  function ActorFor(e: Entry): (string, Option<string>) {
    var ref := Str(e.agentRef);
    if (e.entryType == "AGENT_ANALYSIS" || e.entryType == "AGENT_HANDOFF") && ref.Some? then
      SplitAgentRef(ref.value)
    else if e.entryType == "NOTIFICATION_SENT" then ("agency-notifier", None)
    else if e.writers == [] then ("unattributed", None)
    else
      var writer := if Specific(e.writers).Some? then Specific(e.writers).value else e.writers[0];
      (writer.0, if writer.1 == "" then None else Some(writer.1))
  }

  /** A reference gives an id and a version exactly when it is the two joined by its last at sign. */
  lemma SplitExactly(ref: string, id: string, version: string)
    ensures SplitAgentRef(ref) == (id, Some(version)) <==> id != [] && '@' !in version && ref == id + "@" + version
  {
    var at := LastAt(ref);
    if at > 0 {
      assert ref == ref[..at] + "@" + ref[at + 1..];
    }
    if id != [] && '@' !in version && ref == id + "@" + version {
      assert ref[|id|] == '@';
      assert forall j :: |id| < j < |ref| ==> ref[j] == version[j - |id| - 1];
      assert at == |id|;
      assert ref[..at] == id && ref[at + 1..] == version;
    }
  }

  /** The entry itself says whose it is. */
  predicate NamesSubject(e: Entry) {
    || ((e.entryType == "AGENT_ANALYSIS" || e.entryType == "AGENT_HANDOFF") && Str(e.agentRef).Some?)
    || e.entryType == "NOTIFICATION_SENT"
  }

  lemma {:induction false} SpecificIsFirst(writers: seq<(string, string)>) returns (n: nat)
    ensures n <= |writers| && forall j :: 0 <= j < n ==> writers[j].0 == RECORDER
    ensures n < |writers| ==> writers[n].0 != RECORDER && Specific(writers) == Some(writers[n])
    ensures n == |writers| ==> Specific(writers) == None
  {
    if writers == [] || writers[0].0 != RECORDER {
      n := 0;
    } else {
      var m := SpecificIsFirst(writers[1..]);
      n := m + 1;
      assert forall j :: 1 <= j < n ==> writers[j] == writers[1..][j - 1];
    }
  }

  /** Without a subject the actor is a writer: the first besides the recorder, or the recorder if it wrote alone. */
  lemma ActorIsAWriter(e: Entry) returns (n: nat)
    requires !NamesSubject(e) && e.writers != []
    ensures n < |e.writers| && ActorFor(e).0 == e.writers[n].0
    ensures ActorFor(e).1 == if e.writers[n].1 == "" then None else Some(e.writers[n].1)
    ensures if e.writers[n].0 == RECORDER then n == 0 && forall w :: w in e.writers ==> w.0 == RECORDER
            else forall j :: 0 <= j < n ==> e.writers[j].0 == RECORDER
  {
    n := SpecificIsFirst(e.writers);
    if n == |e.writers| {
      n := 0;
    }
  }

  /** Somewhere in it a character is printed. */
  predicate Printed(text: string) {
    exists i :: 0 <= i < |text| && '!' <= text[i] <= '~'
  }

  /** Nothing in it but the spaces, tabs and line ends a keyboard has. */
  predicate Blank(text: string) {
    forall i :: 0 <= i < |text| ==> text[i] in " \t\r\n"
  }

  /** An analysis or a handoff is credited to its own reference, cut at the last at sign, whoever wrote it. */
  lemma CreditedToItsReference(e: Entry, id: string, version: string)
    requires e.entryType == "AGENT_ANALYSIS" || e.entryType == "AGENT_HANDOFF"
    requires e.agentRef.Some? && Printed(e.agentRef.value)
    ensures (ActorFor(e) == (id, Some(version))
             <==> id != [] && '@' !in version && e.agentRef.value == id + "@" + version)
    ensures (ActorFor(e) == (id, None)
             <==> id == e.agentRef.value && forall i :: 0 < i < |id| ==> id[i] != '@')
  {
    var ref := e.agentRef.value;
    assert Str(e.agentRef) == Some(ref);
    SplitExactly(ref, id, version);
    var at := LastAt(ref);
  }

  /** A notification is the notifier's; any other entry nobody signed or wrote, a blank reference among them, is nobody's. */
  lemma CreditedToNoWriter(e: Entry)
    ensures e.entryType == "NOTIFICATION_SENT" ==> ActorFor(e) == ("agency-notifier", None)
    ensures (e.entryType != "NOTIFICATION_SENT" && e.writers == []
             && (e.agentRef == None || Blank(e.agentRef.value)
                 || (e.entryType != "AGENT_ANALYSIS" && e.entryType != "AGENT_HANDOFF"))
             ==> ActorFor(e) == ("unattributed", None))
    ensures (e.entryType != "AGENT_ANALYSIS" && e.entryType != "AGENT_HANDOFF")
            || e.agentRef == None || Blank(e.agentRef.value)
            ==> NamesSubject(e) == (e.entryType == "NOTIFICATION_SENT")
  {
  }

  // --------------------------------------------------------------- ordering

  /** `localeCompare`, as far as this stream needs it: a strict total order. */
  ghost predicate Locale(less: (string, string) -> bool) {
    && Ordering(less)
    && (forall a, b :: less(a, b) || a == b || less(b, a))
    && less("action", "handoff")
  }

  function PointerBefore(less: (string, string) -> bool): (Pointer, Pointer) -> bool {
    (a: Pointer, b: Pointer) => a.priority < b.priority || (a.priority == b.priority && less(a.ref, b.ref))
  }

  /** Newest first; a composition above the handoffs it produced. */
  predicate Above(less: (string, string) -> bool, a: Message, b: Message) {
    || a.sequence > b.sequence
    || (a.sequence == b.sequence && less(KindName(a.kind), KindName(b.kind)))
    || (a.sequence == b.sequence && a.kind == b.kind && less(a.id, b.id))
  }

  function Before(less: (string, string) -> bool): (Message, Message) -> bool {
    (a: Message, b: Message) => Above(less, a, b)
  }

  lemma KindsCompare(less: (string, string) -> bool, a: Message, b: Message)
    requires Locale(less)
    ensures less(KindName(a.kind), KindName(b.kind)) <==> a.kind == Action && b.kind == Handoff
    ensures Above(less, a, b) || Above(less, b, a) || a.id == b.id
  {
    assert less("action", "handoff") && !less("handoff", "action");
    assert !less("action", "action") && !less("handoff", "handoff") by {
      assert less("action", "action") ==> !less("action", "action");
      assert less("handoff", "handoff") ==> !less("handoff", "handoff");
    }
    assert less(a.id, b.id) || a.id == b.id || less(b.id, a.id);
  }

  lemma BeforeIsOrdering(less: (string, string) -> bool)
    requires Locale(less)
    ensures Ordering(Before(less))
  {
    var before := Before(less);
    forall x, y | before(x, y) ensures !before(y, x) {
      KindsCompare(less, x, y);
      KindsCompare(less, y, x);
      assert less(x.id, y.id) ==> !less(y.id, x.id);
    }
    forall x, y, z | before(x, y) && before(y, z) ensures before(x, z) {
      KindsCompare(less, x, y);
      KindsCompare(less, y, z);
      KindsCompare(less, x, z);
      assert less(x.id, y.id) && less(y.id, z.id) ==> less(x.id, z.id);
    }
    forall x, y, z | !before(x, y) && !before(y, z) ensures !before(x, z) {
      KindsCompare(less, x, y);
      KindsCompare(less, y, z);
      KindsCompare(less, x, z);
      assert !less(x.id, y.id) && !less(y.id, z.id) ==> !less(x.id, z.id);
    }
  }

  // ------------------------------------------------------------ the messages

  function PointersWithRef(pointers: seq<Pointer>): seq<Pointer> {
    if pointers == [] then []
    else
      var before := PointersWithRef(pointers[..|pointers| - 1]);
      if pointers[|pointers| - 1].ref != "" then before + [pointers[|pointers| - 1]] else before
  }

  /** The focus's first record for one agent: its headline, its pointers in read order. */
  function PointersFor(less: (string, string) -> bool, focus: seq<AgentFocus>, agentId: string)
    : (Option<string>, seq<Pointer>)
  {
    if focus == [] then (None, [])
    else if focus[0].agentId == Some(agentId) then
      (Str(focus[0].headline), Sort(PointerBefore(less), PointersWithRef(focus[0].pointers)))
    else PointersFor(less, focus[1..], agentId)
  }

  lemma {:induction false} WithRefMembers(pointers: seq<Pointer>, p: Pointer)
    ensures p in PointersWithRef(pointers) <==> p in pointers && p.ref != ""
  {
    if pointers != [] {
      var front, last := pointers[..|pointers| - 1], pointers[|pointers| - 1];
      assert pointers == front + [last];
      WithRefMembers(front, p);
    }
  }

  lemma PointerBeforeIsOrdering(less: (string, string) -> bool)
    requires Locale(less)
    ensures Ordering(PointerBefore(less))
  {
    forall x: Pointer, y: Pointer, z: Pointer
      ensures PointerBefore(less)(x, y) ==> !PointerBefore(less)(y, x)
      ensures PointerBefore(less)(x, y) && PointerBefore(less)(y, z) ==> PointerBefore(less)(x, z)
      ensures !PointerBefore(less)(x, y) && !PointerBefore(less)(y, z) ==> !PointerBefore(less)(x, z)
    {
      assert less(x.ref, y.ref) ==> !less(y.ref, x.ref);
      assert less(x.ref, y.ref) && less(y.ref, z.ref) ==> less(x.ref, z.ref);
      assert !less(x.ref, y.ref) && !less(y.ref, z.ref) ==> !less(x.ref, z.ref);
    }
  }

  /** An agent is handed the first record that names it: its referenced pointers, by priority and then reference. */
  lemma {:induction false} FocusIsReadInOrder(less: (string, string) -> bool, focus: seq<AgentFocus>, agentId: string, n: nat)
    requires Locale(less) && n < |focus| && focus[n].agentId == Some(agentId)
    requires forall j :: 0 <= j < n ==> focus[j].agentId != Some(agentId)
    ensures var (headline, pointers) := PointersFor(less, focus, agentId);
            && headline == Str(focus[n].headline)
            && (forall p :: p in pointers <==> p in focus[n].pointers && p.ref != "")
            && (forall i, j :: 0 <= i < j < |pointers| ==>
                  || pointers[i].priority < pointers[j].priority
                  || (pointers[i].priority == pointers[j].priority && !less(pointers[j].ref, pointers[i].ref)))
  {
    if n > 0 {
      FocusIsReadInOrder(less, focus[1..], agentId, n - 1);
    } else {
      ReadOrder(less, focus[0].pointers);
    }
  }

  lemma ReadOrder(less: (string, string) -> bool, recorded: seq<Pointer>)
    requires Locale(less)
    ensures var pointers := Sort(PointerBefore(less), PointersWithRef(recorded));
            && (forall p :: p in pointers <==> p in recorded && p.ref != "")
            && (forall i, j :: 0 <= i < j < |pointers| ==>
                  || pointers[i].priority < pointers[j].priority
                  || (pointers[i].priority == pointers[j].priority && !less(pointers[j].ref, pointers[i].ref)))
  {
    var withRef := PointersWithRef(recorded);
    PointerBeforeIsOrdering(less);
    SortSorts(PointerBefore(less), withRef);
    SortKeeps(PointerBefore(less), withRef);
    forall p ensures p in withRef <==> p in recorded && p.ref != "" {
      WithRefMembers(recorded, p);
    }
    var pointers := Sort(PointerBefore(less), withRef);
    forall i, j | 0 <= i < j < |pointers| ensures !PointerBefore(less)(pointers[j], pointers[i]) {
    }
  }

  function Like(p: Pointer): Pointer -> bool {
    (q: Pointer) => q.priority == p.priority && q.ref == p.ref
  }

  lemma {:induction false} WithRefKeeps(pointers: seq<Pointer>, p: Pointer)
    requires p.ref != ""
    ensures Only(Like(p), PointersWithRef(pointers)) == Only(Like(p), pointers)
  {
    if pointers != [] {
      var front, last := pointers[..|pointers| - 1], pointers[|pointers| - 1];
      assert pointers == front + [last];
      WithRefKeeps(front, p);
      OnlyJoin(Like(p), front, [last]);
      OnlyJoin(Like(p), PointersWithRef(front), [last]);
    }
  }

  /** Pointers of one priority and one reference are handed over in the order the record lists them. */
  lemma {:induction false} TiesKeepTheirOrder(less: (string, string) -> bool, focus: seq<AgentFocus>, agentId: string, n: nat,
                                              p: Pointer)
    requires Locale(less) && n < |focus| && focus[n].agentId == Some(agentId)
    requires forall j :: 0 <= j < n ==> focus[j].agentId != Some(agentId)
    ensures p.ref != "" ==> Only(Like(p), PointersFor(less, focus, agentId).1) == Only(Like(p), focus[n].pointers)
  {
    if n > 0 {
      TiesKeepTheirOrder(less, focus[1..], agentId, n - 1, p);
    } else if p.ref != "" {
      LikeAreEquals(less, p);
      SortIsStable(PointerBefore(less), Like(p), PointersWithRef(focus[0].pointers));
      WithRefKeeps(focus[0].pointers, p);
    }
  }

  lemma LikeAreEquals(less: (string, string) -> bool, p: Pointer)
    requires Locale(less)
    ensures Ordering(PointerBefore(less)) && Equals(PointerBefore(less), Like(p))
  {
    PointerBeforeIsOrdering(less);
    assert less(p.ref, p.ref) ==> !less(p.ref, p.ref);
  }

  predicate HasContent(less: (string, string) -> bool, e: Entry, target: string) {
    var (headline, pointers) := PointersFor(less, e.focus, target);
    headline.Some? || pointers != []
  }

  /** An agent has something to be shown exactly when its first record has a headline that says something, or a reference. */
  lemma {:induction false} ContentExactly(less: (string, string) -> bool, e: Entry, target: string, n: nat)
    requires Locale(less) && n <= |e.focus| && (n < |e.focus| ==> e.focus[n].agentId == Some(target))
    requires forall j :: 0 <= j < n ==> e.focus[j].agentId != Some(target)
    ensures HasContent(less, e, target) <==>
            n < |e.focus| && (Str(e.focus[n].headline).Some? || exists p :: p in e.focus[n].pointers && p.ref != "")
  {
    if n < |e.focus| {
      FocusIsReadInOrder(less, e.focus, target, n);
      var pointers := PointersFor(less, e.focus, target).1;
      if pointers != [] {
        assert pointers[0] in pointers;
      }
    } else {
      NobodyIsHandedNothing(less, e.focus, target);
    }
  }

  lemma {:induction false} NobodyIsHandedNothing(less: (string, string) -> bool, focus: seq<AgentFocus>, agentId: string)
    requires forall j :: 0 <= j < |focus| ==> focus[j].agentId != Some(agentId)
    ensures PointersFor(less, focus, agentId) == (None, [])
  {
    if focus != [] {
      NobodyIsHandedNothing(less, focus[1..], agentId);
    }
  }

  function ActionOf(e: Entry): Message {
    var (agentId, version) := ActorFor(e);
    Message(Decimal(e.sequence) + ":" + agentId, e.sequence, e.occurredAt, agentId, version, Action, e, None, [])
  }

  function HandoffOf(less: (string, string) -> bool, e: Entry, target: string): Message {
    var (headline, pointers) := PointersFor(less, e.focus, target);
    Message(Decimal(e.sequence) + ":handoff:" + target, e.sequence, e.occurredAt, target, None, Handoff, e,
            headline, pointers)
  }

  function HandoffsOf(less: (string, string) -> bool, e: Entry, targets: seq<string>): seq<Message> {
    if targets == [] then []
    else
      var before := HandoffsOf(less, e, targets[..|targets| - 1]);
      var target := targets[|targets| - 1];
      if HasContent(less, e, target) then before + [HandoffOf(less, e, target)] else before
  }

  function Candidates(less: (string, string) -> bool, e: Entry): seq<Message> {
    [ActionOf(e)] + if e.entryType == FOCUS_COMPOSED then HandoffsOf(less, e, e.agentIds) else []
  }

  predicate HasId(messages: seq<Message>, id: string) {
    exists i :: 0 <= i < |messages| && messages[i].id == id
  }

  function Push(messages: seq<Message>, m: Message): seq<Message> {
    if HasId(messages, m.id) then messages else messages + [m]
  }

  function PushAll(messages: seq<Message>, more: seq<Message>): seq<Message> {
    if more == [] then messages else Push(PushAll(messages, more[..|more| - 1]), more[|more| - 1])
  }

  lemma IdsAfterPush(messages: seq<Message>, m: Message)
    ensures forall id :: HasId(messages, id) || id == m.id ==> HasId(messages + [m], id)
  {
    var next := messages + [m];
    assert next[|messages|] == m;
    forall i | 0 <= i < |messages| ensures next[i] == messages[i] {}
  }

  function Collect(less: (string, string) -> bool, entries: seq<Entry>): seq<Message> {
    if entries == [] then []
    else PushAll(Collect(less, entries[..|entries| - 1]), Candidates(less, entries[|entries| - 1]))
  }

  function Stream(less: (string, string) -> bool, entries: seq<Entry>): seq<Message> {
    Sort(Before(less), Collect(less, entries))
  }

  predicate Tracks(seen: set<string>, messages: seq<Message>) {
    && (forall id :: id in seen ==> HasId(messages, id))
    && (forall i :: 0 <= i < |messages| ==> messages[i].id in seen)
  }

  /** A reconnect replays frames: a message already held is not held twice. */
  method PushOnce(messages: seq<Message>, seen: set<string>, m: Message)
    returns (messages': seq<Message>, seen': set<string>)
    requires Tracks(seen, messages)
    ensures Tracks(seen', messages') && messages' == Push(messages, m)
  {
    messages', seen' := messages, seen;
    if m.id in seen { return; }
    IdsAfterPush(messages, m);
    messages', seen' := messages + [m], seen + {m.id};
  }

  /** One entry: its action, then one handoff per agent its focus has content for. */
  method PushEntry(less: (string, string) -> bool, messages: seq<Message>, seen: set<string>, entry: Entry)
    returns (messages': seq<Message>, seen': set<string>)
    requires Tracks(seen, messages)
    ensures Tracks(seen', messages') && messages' == PushAll(messages, Candidates(less, entry))
  {
    PushAllOne(messages, [], ActionOf(entry));
    assert [] + [ActionOf(entry)] == [ActionOf(entry)];
    messages', seen' := PushOnce(messages, seen, ActionOf(entry));
    if entry.entryType == FOCUS_COMPOSED {
      assert Upto(less, entry, 0) == [ActionOf(entry)];
      for k := 0 to |entry.agentIds|
        invariant Tracks(seen', messages') && messages' == PushAll(messages, Upto(less, entry, k))
      {
        NextTarget(less, entry, k, messages);
        var target := entry.agentIds[k];
        var (composed, pointers) := PointersFor(less, entry.focus, target);
        if composed.None? && pointers == [] { continue; }
        messages', seen' := PushOnce(messages', seen', HandoffOf(less, entry, target));
      }
      assert entry.agentIds[..|entry.agentIds|] == entry.agentIds;
    }
  }

  /** The action, and the handoffs of the first `k` targets. */
  function Upto(less: (string, string) -> bool, e: Entry, k: nat): seq<Message>
    requires k <= |e.agentIds|
  {
    [ActionOf(e)] + HandoffsOf(less, e, e.agentIds[..k])
  }

  lemma NextTarget(less: (string, string) -> bool, e: Entry, k: nat, messages: seq<Message>)
    requires k < |e.agentIds|
    ensures var target := e.agentIds[k];
            PushAll(messages, Upto(less, e, k + 1)) ==
              if HasContent(less, e, target) then Push(PushAll(messages, Upto(less, e, k)), HandoffOf(less, e, target))
              else PushAll(messages, Upto(less, e, k))
  {
    assert e.agentIds[..k + 1][..k] == e.agentIds[..k];
    var target := e.agentIds[k];
    if HasContent(less, e, target) {
      PushAllOne(messages, Upto(less, e, k), HandoffOf(less, e, target));
      assert Upto(less, e, k + 1) == Upto(less, e, k) + [HandoffOf(less, e, target)];
    }
  }

  lemma PushAllOne(messages: seq<Message>, more: seq<Message>, m: Message)
    ensures PushAll(messages, more + [m]) == Push(PushAll(messages, more), m)
  {
    assert (more + [m])[..|more + [m]| - 1] == more;
  }

  /** The loop the console runs over the log, then its sort. */
  method ActivityStreamFrom(less: (string, string) -> bool, entries: seq<Entry>) returns (messages: seq<Message>)
    ensures messages == Stream(less, entries)
  {
    messages := [];
    var seen: set<string> := {};
    for n := 0 to |entries|
      invariant Tracks(seen, messages) && messages == Collect(less, entries[..n])
    {
      assert entries[..n + 1][..n] == entries[..n];
      messages, seen := PushEntry(less, messages, seen, entries[n]);
    }
    assert entries[..|entries|] == entries;
    messages := Sort(Before(less), messages);
  }

  // --------------------------------------------------------------- one entry

  lemma {:induction false} HandoffsMembers(less: (string, string) -> bool, e: Entry, targets: seq<string>, m: Message)
    ensures m in HandoffsOf(less, e, targets) <==>
      exists t :: t in targets && HasContent(less, e, t) && m == HandoffOf(less, e, t)
  {
    if targets != [] {
      var front, last := targets[..|targets| - 1], targets[|targets| - 1];
      assert targets == front + [last];
      HandoffsMembers(less, e, front, m);
    }
  }

  /** Ids tell sequences apart: everything before the first colon is the sequence. */
  lemma CandidateIds(less: (string, string) -> bool, e: Entry, m: Message)
    requires m in Candidates(less, e)
    ensures m.sequence == e.sequence && m.source == e
    ensures exists rest :: m.id == Decimal(e.sequence) + [':'] + rest
  {
    if m == ActionOf(e) {
      assert m.id == Decimal(e.sequence) + [':'] + m.agentId;
    } else {
      HandoffsMembers(less, e, e.agentIds, m);
      var t :| t in e.agentIds && HasContent(less, e, t) && m == HandoffOf(less, e, t);
      assert m.id == Decimal(e.sequence) + [':'] + ("handoff:" + t);
    }
  }

  lemma IdsTellSequences(less: (string, string) -> bool, d: Entry, e: Entry, m: Message, n: Message)
    requires m in Candidates(less, d) && n in Candidates(less, e)
    ensures m.id == n.id ==> d.sequence == e.sequence
  {
    CandidateIds(less, d, m);
    CandidateIds(less, e, n);
    var x :| m.id == Decimal(d.sequence) + [':'] + x;
    var y :| n.id == Decimal(e.sequence) + [':'] + y;
    DecimalHasNoColon(d.sequence);
    DecimalHasNoColon(e.sequence);
    if m.id == n.id {
      Strings.HeadIsUnique(Decimal(d.sequence), Decimal(e.sequence), x, y, ':');
      DecimalInjective(d.sequence, e.sequence);
    }
  }

  /** A writer whose own id reads as a handoff id. */
  predicate Clash(e: Entry, target: string) {
    ActorFor(e).0 == "handoff:" + target
  }

  lemma HandoffIds(less: (string, string) -> bool, e: Entry, s: string, t: string)
    ensures HandoffOf(less, e, s).id == HandoffOf(less, e, t).id <==> s == t
    ensures HandoffOf(less, e, t).id == ActionOf(e).id <==> Clash(e, t)
  {
    var p := Decimal(e.sequence) + ":handoff:";
    assert HandoffOf(less, e, s).id == p + s && HandoffOf(less, e, t).id == p + t;
    assert (p + s)[|p|..] == s && (p + t)[|p|..] == t;
    var q := Decimal(e.sequence) + ":";
    assert HandoffOf(less, e, t).id == q + ("handoff:" + t);
    assert ActionOf(e).id == q + ActorFor(e).0;
    assert (q + ("handoff:" + t))[|q|..] == "handoff:" + t && (q + ActorFor(e).0)[|q|..] == ActorFor(e).0;
  }

  /** What one entry contributes, said without the loop. */
  predicate Contributes(less: (string, string) -> bool, e: Entry, m: Message) {
    || m == ActionOf(e)
    || (e.entryType == FOCUS_COMPOSED && m.agentId in e.agentIds && HasContent(less, e, m.agentId)
        && !Clash(e, m.agentId) && m == HandoffOf(less, e, m.agentId))
  }

  predicate UniqueIds(messages: seq<Message>) {
    forall i, j :: 0 <= i < j < |messages| ==> messages[i].id != messages[j].id
  }

  lemma {:induction false} PushAllShape(messages: seq<Message>, more: seq<Message>)
    requires UniqueIds(messages)
    ensures UniqueIds(PushAll(messages, more))
    ensures messages <= PushAll(messages, more)
    ensures forall m :: m in PushAll(messages, more) ==> m in messages || m in more
    ensures forall m :: m in more ==> HasId(PushAll(messages, more), m.id)
  {
    if more != [] {
      var front, last := more[..|more| - 1], more[|more| - 1];
      assert more == front + [last];
      PushAllShape(messages, front);
      var sofar := PushAll(messages, front);
      var next := PushAll(messages, more);
      forall id | HasId(sofar, id) ensures HasId(next, id) {
        var i :| 0 <= i < |sofar| && sofar[i].id == id;
        assert next[i].id == id;
      }
      if next == sofar + [last] {
        assert next[|sofar|].id == last.id;
      }
    }
  }

  lemma {:induction false} FirstWithItsIdIsKept(messages: seq<Message>, more: seq<Message>, m: Message)
    requires m in more && !HasId(messages, m.id)
    requires forall n :: n in more && n.id == m.id ==> n == m
    ensures m in PushAll(messages, more)
  {
    var front, last := more[..|more| - 1], more[|more| - 1];
    assert more == front + [last];
    if m in front {
      FirstWithItsIdIsKept(messages, front, m);
    } else {
      NoneWithId(messages, front, m.id);
    }
  }

  lemma {:induction false} NoneWithId(messages: seq<Message>, more: seq<Message>, id: string)
    requires !HasId(messages, id) && forall n :: n in more ==> n.id != id
    ensures !HasId(PushAll(messages, more), id)
  {
    if more != [] {
      NoneWithId(messages, more[..|more| - 1], id);
    }
  }

  lemma {:induction false} FirstPushWins(messages: seq<Message>, head: Message, rest: seq<Message>)
    requires !HasId(messages, head.id)
    ensures head in PushAll(messages, [head] + rest)
    ensures forall m :: m in PushAll(messages, [head] + rest) && m.id == head.id ==> m == head || m in messages
  {
    if rest == [] {
      assert [head] + rest == [head];
      assert [head][..0] == [];
      assert PushAll(messages, []) == messages;
    } else {
      var front := rest[..|rest| - 1];
      assert ([head] + rest)[..|rest|] == [head] + front;
      FirstPushWins(messages, head, front);
      var sofar := PushAll(messages, [head] + front);
      var k :| 0 <= k < |sofar| && sofar[k] == head;
      assert HasId(sofar, head.id);
    }
  }

  /** Exactly one action, and a handoff for each target unless its id is taken. */
  lemma EntryContributes(less: (string, string) -> bool, sofar: seq<Message>, e: Entry, m: Message)
    requires UniqueIds(sofar)
    requires forall n :: n in Candidates(less, e) ==> !HasId(sofar, n.id)
    ensures m in PushAll(sofar, Candidates(less, e)) <==> m in sofar || Contributes(less, e, m)
  {
    var cs := Candidates(less, e);
    var rest := if e.entryType == FOCUS_COMPOSED then HandoffsOf(less, e, e.agentIds) else [];
    var pushed := PushAll(sofar, cs);
    assert cs == [ActionOf(e)] + rest;
    assert ActionOf(e) in cs;
    PushAllShape(sofar, cs);
    FirstPushWins(sofar, ActionOf(e), rest);
    HandoffsMembers(less, e, e.agentIds, m);
    HandoffIds(less, e, m.agentId, m.agentId);
    if m in pushed && m !in sofar {
      if m != ActionOf(e) {
        assert m in rest;
        var t :| t in e.agentIds && HasContent(less, e, t) && m == HandoffOf(less, e, t);
        assert m.agentId == t;
        assert m.id != ActionOf(e).id;
      }
    }
    if Contributes(less, e, m) && m != ActionOf(e) {
      assert m in rest && m in cs;
      forall n | n in cs && n.id == m.id ensures n == m {
        if n != ActionOf(e) {
          HandoffsMembers(less, e, e.agentIds, n);
          var t :| t in e.agentIds && HasContent(less, e, t) && n == HandoffOf(less, e, t);
          HandoffIds(less, e, m.agentId, t);
        }
      }
      FirstWithItsIdIsKept(sofar, cs, m);
    }
    if m in sofar {
      assert sofar <= pushed;
      var k :| 0 <= k < |sofar| && sofar[k] == m;
      assert pushed[k] == m;
    }
  }

  // ------------------------------------------------------------- the whole log

  /** The log's own guarantee: a sequence names one entry. */
  ghost predicate Consistent(entries: seq<Entry>) {
    forall d, e :: d in entries && e in entries && d.sequence == e.sequence ==> d == e
  }

  lemma {:induction false} CollectMembers(less: (string, string) -> bool, entries: seq<Entry>)
    requires Consistent(entries)
    ensures UniqueIds(Collect(less, entries))
    ensures forall m :: m in Collect(less, entries) <==> exists e :: e in entries && Contributes(less, e, m)
    ensures forall e, c :: e in entries && c in Candidates(less, e) ==> HasId(Collect(less, entries), c.id)
  {
    if entries != [] {
      var front, last := entries[..|entries| - 1], entries[|entries| - 1];
      assert entries == front + [last];
      CollectMembers(less, front);
      var sofar := Collect(less, front);
      var next := Collect(less, entries);
      PushAllShape(sofar, Candidates(less, last));
      if last in front {
        ReplayPushesNothing(sofar, Candidates(less, last));
      } else {
        forall c | c in Candidates(less, last) ensures !HasId(sofar, c.id) {
          NewSequenceNewIds(less, front, last, c);
        }
        forall m ensures m in next <==> exists e :: e in entries && Contributes(less, e, m) {
          EntryContributes(less, sofar, last, m);
        }
      }
      forall e, c | e in entries && c in Candidates(less, e) ensures HasId(next, c.id) {
        if e in front {
          var i :| 0 <= i < |sofar| && sofar[i].id == c.id;
          assert next[i].id == c.id;
        }
      }
    }
  }

  lemma NewSequenceNewIds(less: (string, string) -> bool, front: seq<Entry>, last: Entry, c: Message)
    requires Consistent(front + [last]) && last !in front && c in Candidates(less, last)
    requires forall m :: m in Collect(less, front) <==> exists e :: e in front && Contributes(less, e, m)
    ensures !HasId(Collect(less, front), c.id)
  {
    var sofar := Collect(less, front);
    forall i | 0 <= i < |sofar| ensures sofar[i].id != c.id {
      assert sofar[i] in sofar;
      var e :| e in front && Contributes(less, e, sofar[i]);
      ContributesIsCandidate(less, e, sofar[i]);
      assert e in front + [last] && last in front + [last];
      IdsTellSequences(less, e, last, sofar[i], c);
    }
  }

  lemma ContributesIsCandidate(less: (string, string) -> bool, e: Entry, m: Message)
    requires Contributes(less, e, m)
    ensures m in Candidates(less, e)
  {
    HandoffsMembers(less, e, e.agentIds, m);
  }

  lemma {:induction false} ReplayPushesNothing(messages: seq<Message>, more: seq<Message>)
    requires forall m :: m in more ==> HasId(messages, m.id)
    ensures PushAll(messages, more) == messages
  {
    if more != [] {
      assert more[|more| - 1] in more;
      ReplayPushesNothing(messages, more[..|more| - 1]);
    }
  }

  /**
   The stream is strictly ordered and holds exactly one action per entry and one
   handoff per target with content, a target whose id is taken excepted.
  */
  lemma StreamIsExact(less: (string, string) -> bool, entries: seq<Entry>)
    requires Locale(less) && Consistent(entries)
    ensures StrictlySorted(Before(less), Stream(less, entries)) && UniqueIds(Stream(less, entries))
    ensures forall m :: m in Stream(less, entries) <==> exists e :: e in entries && Contributes(less, e, m)
  {
    var collected, stream := Collect(less, entries), Stream(less, entries);
    CollectMembers(less, entries);
    BeforeIsOrdering(less);
    SortKeeps(Before(less), collected);
    SortSorts(Before(less), collected);
    KeysStayApart((m: Message) => m.id, collected, stream);
    forall i, j | 0 <= i < j < |stream| ensures Before(less)(stream[i], stream[j]) {
      assert !Before(less)(stream[j], stream[i]);
      assert stream[i].id != stream[j].id;
      KindsCompare(less, stream[i], stream[j]);
    }
  }

  /** Newest first; within an entry its action, then its handoffs by id. */
  lemma StreamIsNewestFirst(less: (string, string) -> bool, entries: seq<Entry>)
    requires Locale(less) && Consistent(entries)
    ensures var stream := Stream(less, entries);
            forall i, j :: 0 <= i < j < |stream| ==>
              && stream[i].sequence >= stream[j].sequence
              && (stream[i].sequence == stream[j].sequence ==> stream[j].kind == Handoff)
              && (stream[i].sequence == stream[j].sequence && stream[i].kind == Handoff ==> less(stream[i].id, stream[j].id))
  {
    StreamIsExact(less, entries);
    var stream := Stream(less, entries);
    forall i, j | 0 <= i < j < |stream|
      ensures stream[i].sequence >= stream[j].sequence
      ensures stream[i].sequence == stream[j].sequence ==> stream[j].kind == Handoff
      ensures stream[i].sequence == stream[j].sequence && stream[i].kind == Handoff ==> less(stream[i].id, stream[j].id)
    {
      assert Before(less)(stream[i], stream[j]);
      KindsCompare(less, stream[i], stream[j]);
      if stream[i].sequence == stream[j].sequence && stream[j].kind == Action {
        OneActionAnEntry(less, entries, stream[i], stream[j]);
      }
    }
  }

  lemma OneActionAnEntry(less: (string, string) -> bool, entries: seq<Entry>, m: Message, n: Message)
    requires Locale(less) && Consistent(entries) && m in Stream(less, entries) && n in Stream(less, entries)
    requires m.sequence == n.sequence && m.kind == n.kind == Action
    ensures m == n
  {
    EveryMessageIsItsEntrys(less, entries, m);
    EveryMessageIsItsEntrys(less, entries, n);
  }

  /** Every message says what its entry says: whose it is, when it was, and to an agent handed over to, what for. */
  lemma EveryMessageIsItsEntrys(less: (string, string) -> bool, entries: seq<Entry>, m: Message)
    requires Locale(less) && Consistent(entries) && m in Stream(less, entries)
    ensures m.source in entries && m.sequence == m.source.sequence && m.at == m.source.occurredAt
    ensures m.kind == Action ==>
              && m.id == Decimal(m.sequence) + ":" + m.agentId && (m.agentId, m.version) == ActorFor(m.source)
              && m.handoffHeadline.None? && m.pointers == []
    ensures m.kind == Handoff ==>
              && m.source.entryType == "FOCUS_COMPOSED" && m.agentId in m.source.agentIds
              && m.id == Decimal(m.sequence) + ":handoff:" + m.agentId && m.version.None?
              && (m.handoffHeadline, m.pointers) == PointersFor(less, m.source.focus, m.agentId)
  {
    StreamIsExact(less, entries);
    var e :| e in entries && Contributes(less, e, m);
  }

  /** Any reordering or duplication of the log yields the same list. */
  lemma StreamIsCanonical(less: (string, string) -> bool, entries: seq<Entry>, replay: seq<Entry>)
    requires Locale(less) && Consistent(entries)
    requires forall e :: e in entries <==> e in replay
    ensures Stream(less, entries) == Stream(less, replay)
  {
    StreamIsExact(less, entries);
    StreamIsExact(less, replay);
    BeforeIsOrdering(less);
    StrictlySortedUnique(Before(less), Stream(less, entries), Stream(less, replay));
  }

  /** A target's handoff is shown if and only if the writer is not named like it. */
  lemma HandoffShownExactly(less: (string, string) -> bool, entries: seq<Entry>, e: Entry, target: string)
    requires Locale(less) && Consistent(entries) && e in entries
    requires e.entryType == FOCUS_COMPOSED && target in e.agentIds && HasContent(less, e, target)
    ensures HandoffOf(less, e, target) in Stream(less, entries) <==> !Clash(e, target)
  {
    StreamIsExact(less, entries);
    var m := HandoffOf(less, e, target);
    if m in Stream(less, entries) {
      var d :| d in entries && Contributes(less, d, m);
      assert m.source == d;
    } else {
      assert !Contributes(less, e, m);
    }
  }

  /** Who composes every focus the backend logs, and so its entry's one writer. */
  const COMPOSER_ID := "incident-interceptor"

  /** The composer is named like no handoff, so each agent a composed focus has something for is shown it. */
  lemma ComposedFocusIsShown(less: (string, string) -> bool, entries: seq<Entry>, e: Entry, version: string)
    requires Locale(less) && Consistent(entries) && e in entries
    requires e.entryType == FOCUS_COMPOSED && e.writers == [(COMPOSER_ID, version)]
    ensures ActorFor(e).0 == COMPOSER_ID && forall target :: !Clash(e, target)
    ensures forall target :: target in e.agentIds && HasContent(less, e, target) ==> HandoffOf(less, e, target) in Stream(less, entries)
  {
    var n := ActorIsAWriter(e);
    forall target ensures !Clash(e, target) {
      assert COMPOSER_ID[0] != ("handoff:" + target)[0];
    }
    forall target | target in e.agentIds && HasContent(less, e, target) ensures HandoffOf(less, e, target) in Stream(less, entries) {
      HandoffShownExactly(less, entries, e, target);
    }
  }
}
