/** The console's role bindings, read strictly from one comma-separated setting. */
module RoleBindings {
  import opened Options
  import opened Strings

  const CONSOLE_ROLE_NAMES := {"viewer", "captain", "chief"}

  datatype Fault = Malformed(binding: string) | UnknownRole(binding: string) | TwoRoles(principal: string, first: string, second: string)

  datatype Result = Bound(bindings: map<string, string>) | Refused(fault: Fault)

  /** What one entry says on its own. */
  datatype Reading = Blank | Grant(principal: string, role: string) | Unreadable(fault: Fault)

  /** The text before and after the first colon, if there is one. */
  function Partition(s: string): Option<(string, string)> {
    if s == [] then None
    else if s[0] == ':' then Some(([], s[1..]))
    else
      match Partition(s[1..])
      case None => None
      case Some((head, tail)) => Some(([s[0]] + head, tail))
  }

  function ReadEntry(entry: string): Reading {
    var binding := Trim(entry);
    if binding == [] then Blank
    else
      match Partition(binding)
      case None => Unreadable(Malformed(binding))
      case Some((before, after)) =>
        var principal, role := Lower(Trim(before)), Lower(Trim(after));
        if principal == [] || role == [] || '@' !in principal then Unreadable(Malformed(binding))
        else if role !in CONSOLE_ROLE_NAMES then Unreadable(UnknownRole(binding))
        else Grant(principal, role)
  }

  /** The text before the first colon, and the text after it. */
  predicate Cuts(s: string, before: string, after: string) {
    ':' !in before && s == before + ":" + after
  }

  lemma {:induction false} PartitionCuts(s: string)
    ensures Partition(s).None? <==> ':' !in s
    ensures Partition(s).Some? ==> Cuts(s, Partition(s).value.0, Partition(s).value.1)
  {
    if s != [] && s[0] != ':' {
      PartitionCuts(s[1..]);
      assert s == [s[0]] + s[1..];
    }
  }

  /** A cut is the only one. */
  lemma OneCut(s: string, before: string, after: string)
    requires Cuts(s, before, after)
    ensures Partition(s) == Some((before, after))
  {
    PartitionCuts(s);
    assert s[|before|] == ':';
    HeadIsUnique(Partition(s).value.0, before, Partition(s).value.1, after, ':');
  }

  /** What stands before and after the first colon of an entry, trimmed and in small letters. */
  ghost predicate Says(entry: string, principal: string, role: string) {
    exists before, after :: Cuts(Trim(entry), before, after) && principal == Lower(Trim(before)) && role == Lower(Trim(after))
  }

  lemma SaysExactly(entry: string, principal: string, role: string)
    ensures Says(entry, principal, role) <==>
            && Partition(Trim(entry)).Some?
            && principal == Lower(Trim(Partition(Trim(entry)).value.0)) && role == Lower(Trim(Partition(Trim(entry)).value.1))
  {
    PartitionCuts(Trim(entry));
    if Says(entry, principal, role) {
      var before, after :| Cuts(Trim(entry), before, after) && principal == Lower(Trim(before)) && role == Lower(Trim(after));
      OneCut(Trim(entry), before, after);
    }
  }

  lemma ReadsByCut(entry: string)
    ensures ReadEntry(entry) == Blank <==> Trim(entry) == ""
    ensures Trim(entry) != "" && ':' !in Trim(entry) ==> ReadEntry(entry) == Unreadable(Malformed(Trim(entry)))
    ensures Trim(entry) != "" && Partition(Trim(entry)).Some? ==>
              var (before, after) := Partition(Trim(entry)).value;
              ReadEntry(entry) == ReadSides(Trim(entry), Lower(Trim(before)), Lower(Trim(after)))
  {
    PartitionCuts(Trim(entry));
  }

  /** The reading of a binding by its two sides. */
  function ReadSides(binding: string, principal: string, role: string): Reading {
    if '@' !in principal || role == "" then Unreadable(Malformed(binding))
    else if role in {"viewer", "captain", "chief"} then Grant(principal, role)
    else Unreadable(UnknownRole(binding))
  }

  /**
   An entry grants a role exactly when what stands before its first colon holds an at sign and what
   stands after is one of the three; with any other role it is an unknown one, and without a
   principal like that, or a role at all, malformed.
  */
  lemma EntryReadsExactly(entry: string, principal: string, role: string)
    ensures ReadEntry(entry) == Blank <==> Trim(entry) == ""
    ensures ReadEntry(entry) == Grant(principal, role) <==>
            Says(entry, principal, role) && '@' in principal && role in {"viewer", "captain", "chief"}
    ensures Says(entry, principal, role) && '@' in principal && role != "" && role !in {"viewer", "captain", "chief"} ==>
              ReadEntry(entry) == Unreadable(UnknownRole(Trim(entry)))
    ensures Trim(entry) != "" && (':' !in Trim(entry) || (Says(entry, principal, role) && ('@' !in principal || role == ""))) ==>
              ReadEntry(entry) == Unreadable(Malformed(Trim(entry)))
  {
    SaysExactly(entry, principal, role);
    PartitionCuts(Trim(entry));
    ReadsByCut(entry);
  }

  function ReadAll(entries: seq<string>): (readings: seq<Reading>)
    ensures |readings| == |entries|
    ensures forall i :: 0 <= i < |entries| ==> readings[i] == ReadEntry(entries[i])
  {
    if entries == [] then [] else [ReadEntry(entries[0])] + ReadAll(entries[1..])
  }

  /** One entry more, on bindings that hold so far. */
  function Accept(bindings: map<string, string>, reading: Reading): Result {
    match reading
    case Blank => Bound(bindings)
    case Unreadable(fault) => Refused(fault)
    case Grant(principal, role) =>
      if principal in bindings && bindings[principal] != role
      then Refused(TwoRoles(principal, bindings[principal], role))
      else Bound(bindings[principal := role])
  }

  /** The entries in order, up to the first that cannot be accepted. */
  function Accumulate(readings: seq<Reading>): Result {
    if readings == [] then Bound(map[])
    else
      match Accumulate(readings[..|readings| - 1])
      case Refused(fault) => Refused(fault)
      case Bound(bindings) => Accept(bindings, readings[|readings| - 1])
  }

  function ParseText(raw: string): Result {
    Accumulate(ReadAll(Split(raw, ',')))
  }

  lemma {:induction false} RefusalStands(readings: seq<Reading>, n: nat)
    requires n <= |readings| && Accumulate(readings[..n]).Refused?
    ensures Accumulate(readings) == Accumulate(readings[..n])
    decreases |readings|
  {
    if n < |readings| {
      assert readings[..|readings| - 1][..n] == readings[..n];
      RefusalStands(readings[..|readings| - 1], n);
    } else {
      assert readings[..n] == readings;
    }
  }

  /** `parse_console_role_bindings`. */
  method Parse(raw: string) returns (result: Result)
    ensures result == ParseText(raw)
  {
    var entries := Split(raw, ',');
    ghost var readings := ReadAll(entries);
    var bindings: map<string, string> := map[];
    var n := 0;
    while n < |entries|
      invariant 0 <= n <= |entries|
      invariant Accumulate(readings[..n]) == Bound(bindings)
    {
      assert readings[..n + 1][..n] == readings[..n];
      var reading := ReadEntry(entries[n]);
      assert readings[n] == reading;
      n := n + 1;
      match reading {
        case Blank =>
        case Unreadable(fault) =>
          RefusalStands(readings, n);
          return Refused(fault);
        case Grant(principal, role) =>
          if principal in bindings && bindings[principal] != role {
            RefusalStands(readings, n);
            return Refused(TwoRoles(principal, bindings[principal], role));
          }
          bindings := bindings[principal := role];
      }
    }
    assert readings[..n] == readings;
    return Bound(bindings);
  }

  // --------------------------------------------- exactly when, and what comes

  predicate Readable(readings: seq<Reading>) {
    forall i :: 0 <= i < |readings| ==> !readings[i].Unreadable?
  }

  /** No principal is granted two roles. */
  predicate Agree(readings: seq<Reading>) {
    forall i, j :: 0 <= i < |readings| && 0 <= j < |readings| ==> Compatible(readings[i], readings[j])
  }

  predicate Compatible(a: Reading, b: Reading) {
    a.Grant? && b.Grant? && a.principal == b.principal ==> a.role == b.role
  }

  /** The bindings are the grants the entries make, no more and no fewer. */
  ghost predicate HoldsTheGrants(bindings: map<string, string>, readings: seq<Reading>) {
    forall p, r :: (p in bindings && bindings[p] == r) <==> Grant(p, r) in readings
  }

  /**
   Parsing succeeds exactly when every entry that is not blank can be read and no principal is
   given two roles; and what comes out is then exactly the grants the entries make.
  */
  lemma {:induction false} AcceptedExactly(readings: seq<Reading>)
    ensures Accumulate(readings).Bound? <==> Readable(readings) && Agree(readings)
    ensures Accumulate(readings).Bound? ==> HoldsTheGrants(Accumulate(readings).bindings, readings)
  {
    if readings != [] {
      var front, last := readings[..|readings| - 1], readings[|readings| - 1];
      assert readings == front + [last];
      AcceptedExactly(front);
      assert Readable(readings) <==> Readable(front) && !last.Unreadable?;
      if Accumulate(front).Bound? {
        LastAgrees(front, last, Accumulate(front).bindings);
      } else {
        assert Agree(readings) ==> Agree(front) by {
          assert forall i :: 0 <= i < |front| ==> front[i] == readings[i];
        }
      }
    }
  }

  lemma LastAgrees(front: seq<Reading>, last: Reading, held: map<string, string>)
    requires Agree(front) && HoldsTheGrants(held, front)
    ensures Agree(front + [last]) <==> (last.Grant? && last.principal in held ==> held[last.principal] == last.role)
  {
    var all := front + [last];
    if last.Grant? && last.principal in held {
      assert Grant(last.principal, held[last.principal]) in front;
      var i :| 0 <= i < |front| && front[i] == Grant(last.principal, held[last.principal]);
      if Agree(all) {
        assert Compatible(all[i], all[|front|]);
      }
    }
    if last.Grant? && last.principal in held ==> held[last.principal] == last.role {
      forall i, j | 0 <= i < |all| && 0 <= j < |all| ensures Compatible(all[i], all[j]) {
        if i < |front| && j < |front| {
          assert Compatible(front[i], front[j]);
        }
      }
    }
  }

  /** Two unreadable entries are alike here whatever their text: both stop the start-up. */
  predicate SameReading(a: Reading, b: Reading) {
    a == b || (a.Unreadable? && b.Unreadable?)
  }

  predicate SameOutcome(a: Result, b: Result) {
    a == b || (a.Refused? && b.Refused?)
  }

  /** Everything `a` says, blanks aside, `b` says too: in any order, any number of times. */
  predicate Covers(b: seq<Reading>, a: seq<Reading>) {
    forall i :: 0 <= i < |a| && a[i] != Blank ==> exists j :: 0 <= j < |b| && SameReading(a[i], b[j])
  }

  lemma CoversKeeps(a: seq<Reading>, b: seq<Reading>)
    requires Covers(b, a) && Readable(b)
    ensures Readable(a)
    ensures forall p, r :: Grant(p, r) in a ==> Grant(p, r) in b
    ensures Agree(b) ==> Agree(a)
  {
    forall x | x in a && x != Blank ensures x in b {
      var i :| 0 <= i < |a| && a[i] == x;
      var j :| 0 <= j < |b| && SameReading(a[i], b[j]);
    }
    if Agree(b) {
      forall i, j | 0 <= i < |a| && 0 <= j < |a| ensures Compatible(a[i], a[j]) {
        if a[i].Grant? && a[j].Grant? {
          var k :| 0 <= k < |b| && b[k] == a[i];
          var l :| 0 <= l < |b| && b[l] == a[j];
          assert Compatible(b[k], b[l]);
        }
      }
    }
  }

  lemma CoversReadable(a: seq<Reading>, b: seq<Reading>)
    requires Covers(a, b) && Readable(a)
    ensures Readable(b)
  {
  }

  /** Order, repeats and blank entries change neither whether the setting is accepted nor what it binds. */
  lemma OrderAndRepeatsDoNotMatter(a: seq<Reading>, b: seq<Reading>)
    requires Covers(a, b) && Covers(b, a)
    ensures SameOutcome(Accumulate(a), Accumulate(b))
  {
    AcceptedExactly(a);
    AcceptedExactly(b);
    if Readable(a) {
      CoversReadable(a, b);
    }
    if Readable(b) {
      CoversReadable(b, a);
      CoversKeeps(a, b);
      CoversKeeps(b, a);
      if Agree(a) {
        SameGrantsSameMap(Accumulate(a).bindings, Accumulate(b).bindings, a, b);
      }
    }
  }

  lemma SameGrantsSameMap(m: map<string, string>, n: map<string, string>, a: seq<Reading>, b: seq<Reading>)
    requires HoldsTheGrants(m, a) && HoldsTheGrants(n, b)
    requires forall p, r :: Grant(p, r) in a <==> Grant(p, r) in b
    ensures m == n
  {
    forall p | p in m ensures p in n && n[p] == m[p] {
      assert Grant(p, m[p]) in a;
    }
    forall p | p in n ensures p in m {
      assert Grant(p, n[p]) in b;
    }
  }

  /** Why the fault names what it names. */
  predicate Explains(fault: Fault, before: seq<Reading>, reading: Reading) {
    match reading
    case Blank => false
    case Unreadable(own) => fault == own
    case Grant(principal, role) =>
      fault.TwoRoles? && fault.principal == principal && fault.second == role != fault.first
      && Grant(principal, fault.first) in before
  }

  /** A refusal reports the first entry at which the setting stops being acceptable, and why. */
  lemma {:induction false} FaultIsTheFirst(readings: seq<Reading>) returns (n: nat)
    requires Accumulate(readings).Refused?
    ensures n < |readings|
    ensures Readable(readings[..n]) && Agree(readings[..n])
    ensures Explains(Accumulate(readings).fault, readings[..n], readings[n])
  {
    var front := readings[..|readings| - 1];
    if Accumulate(front).Refused? {
      n := FaultIsTheFirst(front);
      assert front[..n] == readings[..n];
    } else {
      n := |readings| - 1;
      AcceptedExactly(front);
    }
  }

  // -------------------------------------------------------------- letter case

  lemma {:induction false} LowerSplit(s: string, sep: char)
    requires !('A' <= sep <= 'Z' || 'a' <= sep <= 'z')
    ensures |Split(Lower(s), sep)| == |Split(s, sep)|
    ensures forall i :: 0 <= i < |Split(s, sep)| ==> Split(Lower(s), sep)[i] == Lower(Split(s, sep)[i])
  {
    if s != [] {
      LowerSplit(s[1..], sep);
      LowerRest(s);
      LowerSplitHead(s, sep);
    }
  }

  lemma LowerSplitHead(s: string, sep: char)
    requires s != [] && !('A' <= sep <= 'Z' || 'a' <= sep <= 'z')
    ensures LowerChar(s[0]) == sep <==> s[0] == sep
    ensures Lower([s[0]] + Split(s[1..], sep)[0]) == [LowerChar(s[0])] + Lower(Split(s[1..], sep)[0])
  {
    LowerPush(s[0], Split(s[1..], sep)[0]);
  }

  lemma LowerRest(s: string)
    requires s != []
    ensures Lower(s)[1..] == Lower(s[1..])
  {
  }

  lemma LowerPush(c: char, s: string)
    ensures Lower([c] + s) == [LowerChar(c)] + Lower(s)
  {
  }

  lemma {:induction false} LowerTrimLeft(s: string)
    ensures TrimLeft(Lower(s)) == Lower(TrimLeft(s))
  {
    if s != [] && IsSpace(s[0]) {
      LowerRest(s);
      LowerTrimLeft(s[1..]);
    }
  }

  lemma {:induction false} LowerTrimRight(s: string)
    ensures TrimRight(Lower(s)) == Lower(TrimRight(s))
  {
    if s != [] && IsSpace(s[|s| - 1]) {
      assert Lower(s)[..|s| - 1] == Lower(s[..|s| - 1]);
      LowerTrimRight(s[..|s| - 1]);
    }
  }

  lemma LowerTrim(s: string)
    ensures Trim(Lower(s)) == Lower(Trim(s))
  {
    LowerTrimLeft(s);
    LowerTrimRight(TrimLeft(s));
  }

  lemma {:induction false} LowerPartition(s: string)
    ensures Partition(s).None? <==> Partition(Lower(s)).None?
    ensures Partition(s).Some? ==> Partition(Lower(s)) == Some((Lower(Partition(s).value.0), Lower(Partition(s).value.1)))
  {
    if s != [] {
      LowerRest(s);
      LowerPartition(s[1..]);
      if s[0] != ':' && Partition(s[1..]).Some? {
        LowerPush(s[0], Partition(s[1..]).value.0);
      }
    }
  }

  lemma LowerReads(entry: string)
    ensures SameReading(ReadEntry(Lower(entry)), ReadEntry(entry))
  {
    var binding := Trim(entry);
    LowerTrim(entry);
    LowerPartition(binding);
    if Partition(binding).Some? {
      var (before, after) := Partition(binding).value;
      LowerTrim(before);
      LowerTrim(after);
      LowerTwice(Trim(before));
      LowerTwice(Trim(after));
    }
  }

  /** Letter case changes neither whether the setting is accepted nor what it binds. */
  lemma CaseDoesNotMatter(raw: string)
    ensures SameOutcome(ParseText(Lower(raw)), ParseText(raw))
  {
    LowerSplit(raw, ',');
    var a, b := ReadAll(Split(Lower(raw), ',')), ReadAll(Split(raw, ','));
    forall i | 0 <= i < |a| ensures SameReading(a[i], b[i]) && SameReading(b[i], a[i]) {
      LowerReads(Split(raw, ',')[i]);
    }
    OrderAndRepeatsDoNotMatter(a, b);
  }

  // --------------------------------------------------------------- round trip

  /** The principals a binding can name. */
  predicate Printable(principal: string) {
    && Trimmed(principal) && Lower(principal) == principal && '@' in principal
    && ',' !in principal && ':' !in principal
  }

  function PrintAll(items: seq<(string, string)>): (entries: seq<string>)
    ensures |entries| == |items|
    ensures forall i :: 0 <= i < |items| ==> entries[i] == items[i].0 + ":" + items[i].1
  {
    if items == [] then [] else [items[0].0 + ":" + items[0].1] + PrintAll(items[1..])
  }

  function Print(items: seq<(string, string)>): string {
    Join(PrintAll(items), ',')
  }

  predicate SmallLetters(word: string) {
    forall i :: 0 <= i < |word| ==> 'a' <= word[i] <= 'z'
  }

  lemma RolesAreWords(role: string)
    requires role in CONSOLE_ROLE_NAMES
    ensures role != [] && SmallLetters(role)
  {
  }

  lemma SmallLettersArePlain(word: string)
    requires SmallLetters(word)
    ensures Trimmed(word) && Lower(word) == word && ',' !in word
  {
    assert forall i :: 0 <= i < |word| ==> Lower(word)[i] == word[i];
  }

  lemma RoleNames(role: string)
    requires role in CONSOLE_ROLE_NAMES
    ensures role != [] && Trimmed(role) && Lower(role) == role && ',' !in role
  {
    RolesAreWords(role);
    SmallLettersArePlain(role);
  }

  lemma PrintedReads(principal: string, role: string)
    requires Printable(principal) && role in CONSOLE_ROLE_NAMES
    ensures ReadEntry(principal + ":" + role) == Grant(principal, role)
  {
    RoleNames(role);
    var entry := principal + ":" + role;
    assert Trimmed(entry);
    TrimShape(entry);
    OneCut(principal + ":" + role, principal, role);
    TrimShape(principal);
    TrimShape(role);
  }

  lemma LowerKeepsEnds(s: string)
    requires Trimmed(s)
    ensures Trimmed(Lower(s))
  {
  }

  lemma LowerAddsNoSign(s: string, sign: char)
    requires sign in Lower(s) && !('a' <= sign <= 'z')
    ensures sign in s
  {
    var i :| 0 <= i < |Lower(s)| && Lower(s)[i] == sign;
    assert s[i] == sign;
  }

  lemma GrantsArePrintable(entry: string)
    requires ReadEntry(entry).Grant? && ',' !in entry
    ensures Printable(ReadEntry(entry).principal) && ReadEntry(entry).role in CONSOLE_ROLE_NAMES
  {
    var binding := Trim(entry);
    TrimShape(entry);
    var before := Partition(binding).value.0;
    PartitionCuts(binding);
    TrimShape(before);
    LowerTwice(Trim(before));
    LowerKeepsEnds(Trim(before));
    if ',' in Lower(Trim(before)) {
      LowerAddsNoSign(Trim(before), ',');
    }
    if ':' in Lower(Trim(before)) {
      LowerAddsNoSign(Trim(before), ':');
    }
  }

  predicate Listing(items: seq<(string, string)>, bindings: map<string, string>) {
    && (forall i :: 0 <= i < |items| ==> items[i].0 in bindings && bindings[items[i].0] == items[i].1)
    && (forall p :: p in bindings ==> (p, bindings[p]) in items)
  }

  predicate PrintableMap(bindings: map<string, string>) {
    forall p :: p in bindings ==> Printable(p) && bindings[p] in CONSOLE_ROLE_NAMES
  }

  lemma PrintedReadsAll(items: seq<(string, string)>, bindings: map<string, string>)
    requires Listing(items, bindings) && PrintableMap(bindings)
    ensures forall i :: 0 <= i < |items| ==> ReadEntry(PrintAll(items)[i]) == Grant(items[i].0, items[i].1)
    ensures AllFree(PrintAll(items), ',')
  {
    forall i | 0 <= i < |items|
      ensures ReadEntry(PrintAll(items)[i]) == Grant(items[i].0, items[i].1) && ',' !in PrintAll(items)[i]
    {
      PrintedReads(items[i].0, items[i].1);
      RoleNames(items[i].1);
    }
  }

  /** Printing bindings, in any order and with any repeats, and parsing gives them back. */
  lemma RoundTrip(items: seq<(string, string)>, bindings: map<string, string>)
    requires Listing(items, bindings) && PrintableMap(bindings)
    ensures ParseText(Print(items)) == Bound(bindings)
  {
    if items == [] {
      assert bindings == map[];
      assert Split([], ',') == [[]];
      assert ReadAll([[]]) == [Blank];
      assert Accumulate([Blank]) == Accept(map[], Blank);
    } else {
      PrintedReadsAll(items, bindings);
      SplitOfJoin(PrintAll(items), ',');
      var readings := ReadAll(PrintAll(items));
      ListingIsAccepted(items, bindings, readings);
      AcceptedExactly(readings);
      SameGrantsSameMap(bindings, Accumulate(readings).bindings, readings, readings);
    }
  }

  lemma ListingIsAccepted(items: seq<(string, string)>, bindings: map<string, string>, readings: seq<Reading>)
    requires Listing(items, bindings) && |readings| == |items|
    requires forall i :: 0 <= i < |items| ==> readings[i] == Grant(items[i].0, items[i].1)
    ensures Readable(readings) && Agree(readings) && HoldsTheGrants(bindings, readings)
  {
    forall p, r ensures (p in bindings && bindings[p] == r) <==> Grant(p, r) in readings {
      if p in bindings && bindings[p] == r {
        var i :| 0 <= i < |items| && items[i] == (p, r);
        assert readings[i] == Grant(p, r);
      }
    }
  }

  lemma ParsedIsPrintable(raw: string)
    requires ParseText(raw).Bound?
    ensures PrintableMap(ParseText(raw).bindings)
  {
    var entries := Split(raw, ',');
    var readings := ReadAll(entries);
    JoinOfSplit(raw, ',');
    AcceptedExactly(readings);
    var bindings := ParseText(raw).bindings;
    forall p | p in bindings ensures Printable(p) && bindings[p] in CONSOLE_ROLE_NAMES {
      assert Grant(p, bindings[p]) in readings;
      var i :| 0 <= i < |readings| && readings[i] == Grant(p, bindings[p]);
      GrantsArePrintable(entries[i]);
    }
  }

  lemma {:induction false} ListingExists(bindings: map<string, string>) returns (items: seq<(string, string)>)
    ensures Listing(items, bindings)
    decreases |bindings|
  {
    if bindings == map[] {
      items := [];
    } else {
      var p :| p in bindings;
      var rest := ListingExists(bindings - {p});
      items := rest + [(p, bindings[p])];
      assert items[|rest|] == (p, bindings[p]);
      forall q | q in bindings ensures (q, bindings[q]) in items {
        if q != p {
          assert q in bindings - {p};
          assert (q, bindings[q]) in rest;
        }
      }
    }
  }

  /** The bindings some setting can express are exactly the printable ones. */
  lemma ExpressibleExactly(bindings: map<string, string>)
    ensures (exists raw :: ParseText(raw) == Bound(bindings)) <==> PrintableMap(bindings)
  {
    if PrintableMap(bindings) {
      var items := ListingExists(bindings);
      RoundTrip(items, bindings);
      assert ParseText(Print(items)) == Bound(bindings);
    }
    if raw :| ParseText(raw) == Bound(bindings) {
      ParsedIsPrintable(raw);
    }
  }
}
