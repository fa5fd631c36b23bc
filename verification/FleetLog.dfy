/** The fleet's audit memory: overlapping newest-first pages merged by record id. */
module FleetLog {

  /** How much of the audit log is remembered across polls. */
  const FLEET_MEMORY := 3000

  datatype Record = Record(id: string, content: int)

  predicate HasId(records: seq<Record>, id: string) {
    exists i :: 0 <= i < |records| && records[i].id == id
  }

  predicate Distinct(records: seq<Record>) {
    forall i, j :: 0 <= i < j < |records| ==> records[i].id != records[j].id
  }

  /** The first record of each id, in order. */
  function Firsts(records: seq<Record>): seq<Record> {
    if records == [] then []
    else
      var before := Firsts(records[..|records| - 1]);
      var last := records[|records| - 1];
      if HasId(before, last.id) then before else before + [last]
  }

  function Newest(records: seq<Record>): seq<Record> {
    if |records| > FLEET_MEMORY then records[..FLEET_MEMORY] else records
  }

  function Merged(current: seq<Record>, incoming: seq<Record>): seq<Record> {
    Newest(Firsts(incoming + current))
  }

  /** A body that is not a list leaves what is held alone. */
  datatype Body = NotAList | Page(records: seq<Record>)

  function AfterRead(current: seq<Record>, body: Body): seq<Record> {
    match body
    case NotAList => current
    case Page(records) => Merged(current, records)
  }

  method MergeById(current: seq<Record>, incoming: Body) returns (merged: seq<Record>)
    ensures merged == AfterRead(current, incoming)
  {
    if incoming.NotAList? { return current; }
    var items := incoming.records + current;
    var seen: set<string> := {};
    merged := [];
    for n := 0 to |items|
      invariant merged == Firsts(items[..n])
      invariant forall i :: 0 <= i < |merged| ==> merged[i].id in seen
      invariant forall id :: id in seen ==> HasId(merged, id)
    {
      assert items[..n + 1][..n] == items[..n];
      if items[n].id in seen { continue; }
      seen := seen + {items[n].id};
      HasIdAfter(merged, items[n]);
      merged := merged + [items[n]];
    }
    assert items[..|items|] == items;
    if |merged| > FLEET_MEMORY {
      merged := merged[..FLEET_MEMORY];
    }
  }

  lemma HasIdAfter(records: seq<Record>, r: Record)
    ensures HasId(records + [r], r.id)
    ensures forall id :: HasId(records, id) ==> HasId(records + [r], id)
    ensures forall id :: HasId(records + [r], id) ==> HasId(records, id) || id == r.id
  {
    var next := records + [r];
    assert next[|records|] == r;
    forall i | 0 <= i < |records| ensures next[i] == records[i] {}
  }

  // ---------------------------------------------------------- the dedupe

  lemma {:induction false} FirstsShape(records: seq<Record>)
    ensures Distinct(Firsts(records))
    ensures forall id :: HasId(Firsts(records), id) <==> HasId(records, id)
  {
    if records != [] {
      var front, last := records[..|records| - 1], records[|records| - 1];
      assert records == front + [last];
      FirstsShape(front);
      HasIdAfter(front, last);
      HasIdAfter(Firsts(front), last);
    }
  }

  lemma {:induction false} FirstsOfDistinct(records: seq<Record>)
    requires Distinct(records)
    ensures Firsts(records) == records
  {
    if records != [] {
      var front, last := records[..|records| - 1], records[|records| - 1];
      assert records == front + [last];
      FirstsOfDistinct(front);
      assert !HasId(front, last.id);
    }
  }

  /** What the second list adds: its own firsts, less the ids the first list had. */
  function Adds(a: seq<Record>, b: seq<Record>): seq<Record> {
    if b == [] then []
    else
      var before := Adds(a, b[..|b| - 1]);
      var last := b[|b| - 1];
      if HasId(a, last.id) || HasId(before, last.id) then before else before + [last]
  }

  lemma {:induction false} FirstsSplit(a: seq<Record>, b: seq<Record>)
    ensures Firsts(a + b) == Firsts(a) + Adds(a, b)
  {
    if b == [] {
      assert a + b == a;
    } else {
      var front, last := b[..|b| - 1], b[|b| - 1];
      assert (a + b)[..|a + b| - 1] == a + front;
      FirstsSplit(a, front);
      FirstsShape(a);
      HasIdSplit(Firsts(a), Adds(a, front), last.id);
    }
  }

  lemma HasIdSplit(a: seq<Record>, b: seq<Record>, id: string)
    ensures HasId(a + b, id) <==> HasId(a, id) || HasId(b, id)
  {
    var s := a + b;
    forall i | 0 <= i < |a| ensures s[i] == a[i] {}
    forall i | 0 <= i < |b| ensures s[|a| + i] == b[i] {}
    if HasId(s, id) {
      var i :| 0 <= i < |s| && s[i].id == id;
      assert if i < |a| then a[i].id == id else b[i - |a|].id == id;
    }
  }

  lemma {:induction false} AddsNothing(a: seq<Record>, b: seq<Record>)
    requires forall i :: 0 <= i < |b| ==> HasId(a, b[i].id)
    ensures Adds(a, b) == []
  {
    if b != [] {
      AddsNothing(a, b[..|b| - 1]);
    }
  }

  lemma {:induction false} AddsAll(a: seq<Record>, b: seq<Record>)
    requires Distinct(b) && forall i :: 0 <= i < |b| ==> !HasId(a, b[i].id)
    ensures Adds(a, b) == b
  {
    if b != [] {
      var front, last := b[..|b| - 1], b[|b| - 1];
      assert b == front + [last];
      AddsAll(a, front);
      assert !HasId(front, last.id);
    }
  }

  lemma {:induction false} AddsSplit(a: seq<Record>, b: seq<Record>, c: seq<Record>)
    requires Distinct(b + c)
    ensures Adds(a, b + c) == Adds(a, b) + Adds(a, c)
  {
    if c == [] {
      assert b + c == b;
    } else {
      var front, last := c[..|c| - 1], c[|c| - 1];
      assert (b + c)[..|b + c| - 1] == b + front;
      assert Distinct(b + front) by {
        forall i, j | 0 <= i < j < |b + front| ensures (b + front)[i].id != (b + front)[j].id {
          assert (b + c)[i] == (b + front)[i] && (b + c)[j] == (b + front)[j];
        }
      }
      AddsSplit(a, b, front);
      HasIdSplit(Adds(a, b), Adds(a, front), last.id);
      AddsComeFrom(a, b, last.id);
      forall i | 0 <= i < |b| ensures b[i].id != last.id {
        assert (b + c)[i] == b[i] && (b + c)[|b + c| - 1] == last;
      }
    }
  }

  lemma {:induction false} AddsComeFrom(a: seq<Record>, b: seq<Record>, id: string)
    ensures HasId(Adds(a, b), id) ==> HasId(b, id) && !HasId(a, id)
  {
    if b != [] {
      var front, last := b[..|b| - 1], b[|b| - 1];
      assert b == front + [last];
      AddsComeFrom(a, front, id);
      HasIdAfter(front, last);
      HasIdAfter(Adds(a, front), last);
    }
  }

  // ------------------------------------------------------- whose record stands

  /** No earlier record has its id. */
  predicate IsFirst(records: seq<Record>, i: nat)
    requires i < |records|
  {
    forall k :: 0 <= k < i ==> records[k].id != records[i].id
  }

  /** The places of the records that are first of their id. */
  function FirstPlaces(records: seq<Record>): (from: seq<nat>)
    ensures forall j :: 0 <= j < |from| ==> from[j] < |records|
    ensures forall j, k :: 0 <= j < k < |from| ==> from[j] < from[k]
  {
    if records == [] then []
    else
      var n := |records| - 1;
      FirstPlaces(records[..n]) + if IsFirst(records, n) then [n] else []
  }

  lemma {:induction false} FirstPlacesExactly(records: seq<Record>, i: nat)
    requires i < |records|
    ensures i in FirstPlaces(records) <==> IsFirst(records, i)
  {
    var n := |records| - 1;
    if i < n {
      FirstPlacesExactly(records[..n], i);
    }
  }

  lemma {:induction false} FirstsStandThere(records: seq<Record>, j: nat)
    ensures |Firsts(records)| == |FirstPlaces(records)|
    ensures j < |Firsts(records)| ==> Firsts(records)[j] == records[FirstPlaces(records)[j]]
  {
    if records != [] {
      var n := |records| - 1;
      FirstsStandThere(records[..n], j);
      LastIsFirst(records);
    }
  }

  lemma LastIsFirst(records: seq<Record>)
    requires records != []
    ensures var n := |records| - 1; IsFirst(records, n) <==> !HasId(Firsts(records[..n]), records[n].id)
  {
    var n := |records| - 1;
    FirstsShape(records[..n]);
    if !IsFirst(records, n) {
      var k :| 0 <= k < n && records[k].id == records[n].id;
      assert records[..n][k] == records[k];
    }
  }

  /**
   After a read the memory is, in order, the first record of each id: those of the page as the
   page gives them, then those only held; three thousand of them at most.
  */
  lemma FirstRecordStands(current: seq<Record>, page: seq<Record>) returns (from: seq<nat>)
    ensures forall j :: 0 <= j < |from| ==> from[j] < |page + current|
    ensures forall j, k :: 0 <= j < k < |from| ==> from[j] < from[k]
    ensures forall i: nat | i < |page + current| :: i in from <==> IsFirst(page + current, i)
    ensures |AfterRead(current, Page(page))| == if |from| > 3000 then 3000 else |from|
    ensures forall j :: 0 <= j < |AfterRead(current, Page(page))| ==>
              AfterRead(current, Page(page))[j] == (page + current)[from[j]]
  {
    from := FirstPlaces(page + current);
    FirstsStandThere(page + current, 0);
    forall j: nat | j < |AfterRead(current, Page(page))|
      ensures AfterRead(current, Page(page))[j] == (page + current)[from[j]]
    {
      FirstsStandThere(page + current, j);
    }
    forall i: nat | i < |page + current| ensures i in from <==> IsFirst(page + current, i) {
      FirstPlacesExactly(page + current, i);
    }
  }

  // --------------------------------------------------- one page, twice merged

  lemma {:induction false} AddsIsStable(a: seq<Record>, b: seq<Record>)
    ensures Distinct(Adds(a, b))
    ensures forall i :: 0 <= i < |Adds(a, b)| ==> !HasId(a, Adds(a, b)[i].id)
  {
    if b != [] {
      AddsIsStable(a, b[..|b| - 1]);
    }
  }

  /** Merging again the page just merged changes nothing, whatever is held. */
  lemma RemergeChangesNothing(current: seq<Record>, page: seq<Record>)
    ensures AfterRead(AfterRead(current, Page(page)), Page(page)) == AfterRead(current, Page(page))
    ensures AfterRead(current, NotAList) == current
  {
    var once := Merged(current, page);
    var fs, added := Firsts(page), Adds(page, current);
    FirstsSplit(page, current);
    FirstsSplit(page, once);
    FirstsShape(page);
    AddsIsStable(page, current);
    if |fs| >= FLEET_MEMORY {
      assert once == fs[..FLEET_MEMORY];
      assert Firsts(page + once)[..FLEET_MEMORY] == fs[..FLEET_MEMORY];
      assert Merged(once, page) == fs[..FLEET_MEMORY] by {
        if |Firsts(page + once)| == FLEET_MEMORY {
          assert Firsts(page + once) == fs;
        }
      }
    } else {
      var kept := if |fs + added| > FLEET_MEMORY then added[..FLEET_MEMORY - |fs|] else added;
      assert once == fs + kept;
      FirstsThenAdded(page, fs, kept);
      assert Firsts(page + once) == fs + kept;
    }
  }

  lemma FirstsThenAdded(page: seq<Record>, fs: seq<Record>, kept: seq<Record>)
    requires fs == Firsts(page)
    requires Distinct(kept) && forall i :: 0 <= i < |kept| ==> !HasId(page, kept[i].id)
    ensures Adds(page, fs + kept) == kept
  {
    FirstsShape(page);
    forall i, j | 0 <= i < j < |fs + kept| ensures (fs + kept)[i].id != (fs + kept)[j].id {
      if i < |fs| <= j {
        assert HasId(fs, fs[i].id);
      }
    }
    AddsSplit(page, fs, kept);
    forall i | 0 <= i < |fs| ensures HasId(page, fs[i].id) {
      assert HasId(fs, fs[i].id);
    }
    AddsNothing(page, fs);
    AddsAll(page, kept);
  }

  // ------------------------------------------ pages of an append-only log

  /** The entries `lo` up to `hi` of the log, newest first: what a read or a memory of it holds. */
  function Run(log: seq<Record>, lo: nat, hi: nat): (r: seq<Record>)
    requires lo <= hi <= |log|
    ensures |r| == hi - lo
    ensures forall i :: 0 <= i < |r| ==> r[i] == log[hi - 1 - i]
  {
    seq(hi - lo, i requires 0 <= i < hi - lo => log[hi - 1 - i])
  }

  lemma RunSplit(log: seq<Record>, lo: nat, mid: nat, hi: nat)
    requires lo <= mid <= hi <= |log|
    ensures Run(log, lo, hi) == Run(log, mid, hi) + Run(log, lo, mid)
  {
  }

  /** The newest-first run of the log from `lo`, at most the memory's worth of it. */
  function Remembered(log: seq<Record>, lo: nat, hi: nat): (r: seq<Record>)
    requires lo <= hi <= |log|
  {
    Run(log, if hi - lo > FLEET_MEMORY then hi - FLEET_MEMORY else lo, hi)
  }

  lemma RunsAreDistinct(log: seq<Record>, lo: nat, hi: nat)
    requires Distinct(log) && lo <= hi <= |log|
    ensures Distinct(Run(log, lo, hi))
  {
    var r := Run(log, lo, hi);
    forall i, j | 0 <= i < j < |r| ensures r[i].id != r[j].id {
      assert r[i] == log[hi - 1 - i] && r[j] == log[hi - 1 - j];
    }
  }

  /** An id of the log is in a run exactly when its position is. */
  lemma IdInRun(log: seq<Record>, lo: nat, hi: nat, k: nat)
    requires Distinct(log) && lo <= hi <= |log| && k < |log|
    ensures HasId(Run(log, lo, hi), log[k].id) <==> lo <= k < hi
  {
    var r := Run(log, lo, hi);
    forall i | 0 <= i < |r| ensures r[i] == log[hi - 1 - i] {}
    if lo <= k < hi {
      assert r[hi - 1 - k] == log[k];
    }
  }

  /** What the merge keeps: the page, then whatever was held and is older than the page. */
  lemma MergeOfRuns(log: seq<Record>, a: nat, b: nat, c: nat, d: nat)
    requires Distinct(log)
    requires a <= b <= |log| && c <= d <= |log| && b <= d
    ensures Firsts(Run(log, c, d) + Run(log, a, b)) ==
      Run(log, c, d) + Run(log, a, if a > c then a else if c > b then b else c)
  {
    var page, held := Run(log, c, d), Run(log, a, b);
    RunsAreDistinct(log, c, d);
    RunsAreDistinct(log, a, b);
    FirstsOfDistinct(page);
    FirstsSplit(page, held);
    PageAddsOlder(log, a, b, c, d);
  }

  lemma PageAddsOlder(log: seq<Record>, a: nat, b: nat, c: nat, d: nat)
    requires Distinct(log)
    requires a <= b <= |log| && c <= d <= |log| && b <= d
    ensures Adds(Run(log, c, d), Run(log, a, b)) == Run(log, a, if a > c then a else if c > b then b else c)
  {
    var m := if a > c then a else if c > b then b else c;
    RunSplit(log, a, m, b);
    RunsAreDistinct(log, a, b);
    AddsSplit(Run(log, c, d), Run(log, m, b), Run(log, a, m));
    RunInsidePage(log, m, b, c, d);
    RunOutsidePage(log, a, m, c, d);
  }

  lemma RunInsidePage(log: seq<Record>, m: nat, b: nat, c: nat, d: nat)
    requires Distinct(log) && m <= b <= d <= |log| && c <= d && (m < b ==> c <= m)
    ensures Adds(Run(log, c, d), Run(log, m, b)) == []
  {
    var newer := Run(log, m, b);
    forall i | 0 <= i < |newer| ensures HasId(Run(log, c, d), newer[i].id) {
      IdInRun(log, c, d, b - 1 - i);
    }
    AddsNothing(Run(log, c, d), newer);
  }

  lemma RunOutsidePage(log: seq<Record>, a: nat, m: nat, c: nat, d: nat)
    requires Distinct(log) && a <= m <= |log| && c <= d <= |log| && (a < m ==> m <= c)
    ensures Adds(Run(log, c, d), Run(log, a, m)) == Run(log, a, m)
  {
    var older := Run(log, a, m);
    RunsAreDistinct(log, a, m);
    forall i | 0 <= i < |older| ensures !HasId(Run(log, c, d), older[i].id) {
      IdInRun(log, c, d, m - 1 - i);
    }
    AddsAll(Run(log, c, d), older);
  }

  /** A page that reaches back to what is held leaves a gap-free run of the newest entries. */
  lemma OverlappingPagesLeaveNoGap(log: seq<Record>, a: nat, b: nat, c: nat, d: nat)
    requires Distinct(log)
    requires a <= b <= d <= |log| && c <= d
    requires c <= b
    ensures AfterRead(Run(log, a, b), Page(Run(log, c, d))) == Remembered(log, if a < c then a else c, d)
  {
    MergeOfRuns(log, a, b, c, d);
    if a > c {
      assert Run(log, c, d) + Run(log, a, a) == Run(log, c, d);
    } else {
      RunSplit(log, a, c, d);
    }
  }

  /** And only then, a page that fills the memory by itself excepted. */
  lemma GapExactlyWhenPagesDoNotMeet(log: seq<Record>, a: nat, b: nat, c: nat, d: nat)
    requires Distinct(log)
    requires a < b <= d <= |log| && c <= d
    ensures c <= b || d - c >= FLEET_MEMORY <==>
      exists lo :: 0 <= lo <= d && AfterRead(Run(log, a, b), Page(Run(log, c, d))) == Run(log, lo, d)
  {
    MergeOfRuns(log, a, b, c, d);
    var merged := AfterRead(Run(log, a, b), Page(Run(log, c, d)));
    if c <= b {
      OverlappingPagesLeaveNoGap(log, a, b, c, d);
    } else if d - c >= FLEET_MEMORY {
      assert merged == Run(log, d - FLEET_MEMORY, d);
    } else {
      assert merged[d - c] == log[b - 1];
      forall lo | 0 <= lo <= d ensures merged != Run(log, lo, d) {
        if |Run(log, lo, d)| == |merged| {
          assert Run(log, lo, d)[d - c] == log[c - 1];
          assert log[c - 1].id != log[b - 1].id;
        }
      }
    }
  }

  /** One poll after another over a growing log, each page reaching what is held. */
  predicate InOrder(log: seq<Record>, lo: nat, hi: nat, pages: seq<(nat, nat)>)
    decreases |pages|
  {
    && lo <= hi <= |log|
    && (pages != [] ==>
          pages[0].0 <= hi <= pages[0].1 <= |log|
          && InOrder(log, if lo < pages[0].0 then lo else pages[0].0, pages[0].1, pages[1..]))
  }

  function MergeAll(log: seq<Record>, held: seq<Record>, pages: seq<(nat, nat)>): seq<Record>
    requires forall i :: 0 <= i < |pages| ==> pages[i].0 <= pages[i].1 <= |log|
    decreases |pages|
  {
    if pages == [] then held else MergeAll(log, AfterRead(held, Page(Run(log, pages[0].0, pages[0].1))), pages[1..])
  }

  /** Remembered from `lo`, a page deeper than that memory still reaches it. */
  lemma MergeIntoMemory(log: seq<Record>, lo: nat, hi: nat, c: nat, d: nat)
    requires Distinct(log) && lo <= hi <= d <= |log| && c <= hi
    ensures AfterRead(Remembered(log, lo, hi), Page(Run(log, c, d))) == Remembered(log, if lo < c then lo else c, d)
  {
    var a := if hi - lo > FLEET_MEMORY then hi - FLEET_MEMORY else lo;
    OverlappingPagesLeaveNoGap(log, a, hi, c, d);
  }

  /** How far back, and up to where, the pages of a session reach. */
  function Oldest(lo: nat, pages: seq<(nat, nat)>): nat {
    if pages == [] then lo else Oldest(if lo < pages[0].0 then lo else pages[0].0, pages[1..])
  }

  function UpTo(hi: nat, pages: seq<(nat, nat)>): nat {
    if pages == [] then hi else pages[|pages| - 1].1
  }

  lemma {:induction false} OldestIsLeast(lo: nat, pages: seq<(nat, nat)>)
    ensures Oldest(lo, pages) <= lo && forall i :: 0 <= i < |pages| ==> Oldest(lo, pages) <= pages[i].0
    ensures Oldest(lo, pages) == lo || exists i :: 0 <= i < |pages| && Oldest(lo, pages) == pages[i].0
    decreases |pages|
  {
    if pages != [] {
      var next := if lo < pages[0].0 then lo else pages[0].0;
      OldestIsLeast(next, pages[1..]);
      forall i | 0 <= i < |pages| ensures Oldest(lo, pages) <= pages[i].0 {
        assert i > 0 ==> pages[i] == pages[1..][i - 1];
      }
      if Oldest(lo, pages) != lo && Oldest(lo, pages) != pages[0].0 {
        var i :| 0 <= i < |pages[1..]| && Oldest(next, pages[1..]) == pages[1..][i].0;
        assert pages[i + 1].0 == Oldest(lo, pages);
      }
    }
  }

  /**
   Over a whole session of such polls the memory is the run of the log from the
   oldest entry any of them reached up to the end of the last page: duplicate-free,
   newest first, gap-free, and at most three thousand.
  */
  lemma {:induction false} SessionIsAGapFreeRun(log: seq<Record>, lo: nat, hi: nat, pages: seq<(nat, nat)>)
    requires Distinct(log) && InOrder(log, lo, hi, pages)
    requires forall i :: 0 <= i < |pages| ==> pages[i].0 <= pages[i].1 <= |log|
    ensures Oldest(lo, pages) <= UpTo(hi, pages) <= |log| && hi <= UpTo(hi, pages)
    ensures MergeAll(log, Remembered(log, lo, hi), pages) == Remembered(log, Oldest(lo, pages), UpTo(hi, pages))
    ensures |MergeAll(log, Remembered(log, lo, hi), pages)| <= FLEET_MEMORY
    ensures Distinct(MergeAll(log, Remembered(log, lo, hi), pages))
    decreases |pages|
  {
    if pages == [] {
      var a := if hi - lo > FLEET_MEMORY then hi - FLEET_MEMORY else lo;
      RunsAreDistinct(log, a, hi);
    } else {
      var (c, d) := pages[0];
      MergeIntoMemory(log, lo, hi, c, d);
      SessionIsAGapFreeRun(log, if lo < c then lo else c, d, pages[1..]);
    }
  }
}
