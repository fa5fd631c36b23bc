/** When each line of the brief first appeared, over emissions that may arrive in any order. */
module BriefLines {
  import opened Sorting
  import Strings

  datatype Item = Item(lineLabel: string, valueRender: string, provenance: string)

  datatype Section = Section(key: string, items: seq<Item>)

  datatype Emission = Emission(version: int, stage: string, sections: seq<Section>)

  /** A line, the version it first appeared in, and the stage of that version. */
  datatype Tracked = Tracked(item: Item, firstSeen: int, stage: string)

  function ItemKey(sectionKey: string, item: Item): string {
    sectionKey + "::" + item.lineLabel + "::" + item.valueRender
  }

  function ByVersion(): (Emission, Emission) -> bool {
    (a: Emission, b: Emission) => a.version < b.version
  }

  function Put(seen: map<string, Tracked>, e: Emission, sectionKey: string, item: Item): map<string, Tracked> {
    var key := ItemKey(sectionKey, item);
    if key in seen then seen else seen[key := Tracked(item, e.version, e.stage)]
  }

  function PutItems(seen: map<string, Tracked>, e: Emission, sectionKey: string, items: seq<Item>): map<string, Tracked> {
    if items == [] then seen
    else Put(PutItems(seen, e, sectionKey, items[..|items| - 1]), e, sectionKey, items[|items| - 1])
  }

  function PutSections(seen: map<string, Tracked>, e: Emission, sections: seq<Section>): map<string, Tracked> {
    if sections == [] then seen
    else
      var last := sections[|sections| - 1];
      PutItems(PutSections(seen, e, sections[..|sections| - 1]), e, last.key, last.items)
  }

  function PutEmissions(emissions: seq<Emission>): map<string, Tracked> {
    if emissions == [] then map[]
    else
      var last := emissions[|emissions| - 1];
      PutSections(PutEmissions(emissions[..|emissions| - 1]), last, last.sections)
  }

  /** What `trackItems` builds: the emissions by version, the first line under a key standing. */
  function Track(emissions: seq<Emission>): map<string, Tracked> {
    PutEmissions(Sort(ByVersion(), emissions))
  }

  method TrackItems(emissions: seq<Emission>) returns (seen: map<string, Tracked>)
    ensures seen == Track(emissions)
  {
    var sorted := Sort(ByVersion(), emissions);
    seen := map[];
    for n := 0 to |sorted|
      invariant seen == PutEmissions(sorted[..n])
    {
      var e := sorted[n];
      ghost var before := seen;
      for k := 0 to |e.sections|
        invariant seen == PutSections(before, e, e.sections[..k])
      {
        var section := e.sections[k];
        ghost var entering := seen;
        for i := 0 to |section.items|
          invariant seen == PutItems(entering, e, section.key, section.items[..i])
        {
          assert section.items[..i + 1][..i] == section.items[..i];
          var item := section.items[i];
          var key := ItemKey(section.key, item);
          if key in seen {
            continue;
          }
          seen := seen[key := Tracked(item, e.version, e.stage)];
        }
        assert section.items[..|section.items|] == section.items;
        assert e.sections[..k + 1][..k] == e.sections[..k];
      }
      assert e.sections[..|e.sections|] == e.sections;
      assert sorted[..n + 1][..n] == sorted[..n];
    }
    assert sorted[..|sorted|] == sorted;
  }

  // ------------------------------------------------------- first appearance

  predicate Among(section: Section, n: nat, key: string)
    requires n <= |section.items|
  {
    exists i :: 0 <= i < n && ItemKey(section.key, section.items[i]) == key
  }

  predicate SectionCarries(section: Section, key: string) {
    Among(section, |section.items|, key)
  }

  predicate Carries(e: Emission, key: string) {
    exists k :: 0 <= k < |e.sections| && SectionCarries(e.sections[k], key)
  }

  /** What one emission adds under a key it carries: nothing if it is known, else a line of its own. */
  predicate Adds(before: map<string, Tracked>, after: map<string, Tracked>, e: Emission, key: string, carries: bool) {
    && (key in after <==> key in before || carries)
    && (key in before ==> after[key] == before[key])
    && (key in after && key !in before ==> Brings(e, key, after[key]))
  }

  /** The line as this emission carries it, with its version and stage. */
  predicate Brings(e: Emission, key: string, line: Tracked) {
    && line.firstSeen == e.version && line.stage == e.stage
    && exists k :: 0 <= k < |e.sections| && line.item in e.sections[k].items && ItemKey(e.sections[k].key, line.item) == key
  }

  lemma {:induction false} ItemsAdd(seen: map<string, Tracked>, e: Emission, k: nat, n: nat, key: string)
    requires k < |e.sections| && n <= |e.sections[k].items|
    ensures var section := e.sections[k];
            Adds(seen, PutItems(seen, e, section.key, section.items[..n]), e, key, Among(section, n, key))
  {
    if n > 0 {
      var section := e.sections[k];
      var before := section.items[..n - 1];
      ItemsAdd(seen, e, k, n - 1, key);
      PutOneMore(seen, e, section.key, section.items, n - 1);
      var mid := PutItems(seen, e, section.key, before);
      OneItemAdds(mid, e, k, n - 1, key);
      AddsTwice(seen, mid, PutItems(seen, e, section.key, section.items[..n]), e, key,
                Among(section, n - 1, key), ItemKey(section.key, section.items[n - 1]) == key);
    }
  }

  lemma PutOneMore(seen: map<string, Tracked>, e: Emission, sectionKey: string, items: seq<Item>, n: nat)
    requires n < |items|
    ensures PutItems(seen, e, sectionKey, items[..n + 1]) == Put(PutItems(seen, e, sectionKey, items[..n]), e, sectionKey, items[n])
  {
    assert items[..n + 1][..n] == items[..n];
  }

  lemma OneItemAdds(mid: map<string, Tracked>, e: Emission, k: nat, i: nat, key: string)
    requires k < |e.sections| && i < |e.sections[k].items|
    ensures var section := e.sections[k];
            Adds(mid, Put(mid, e, section.key, section.items[i]), e, key, ItemKey(section.key, section.items[i]) == key)
  {
    assert e.sections[k].items[i] in e.sections[k].items;
  }

  lemma AddsTwice(before: map<string, Tracked>, mid: map<string, Tracked>, after: map<string, Tracked>,
                  e: Emission, key: string, a: bool, b: bool)
    requires Adds(before, mid, e, key, a) && Adds(mid, after, e, key, b)
    ensures Adds(before, after, e, key, a || b)
  {
  }

  predicate CarriedUpto(e: Emission, n: nat, key: string)
    requires n <= |e.sections|
  {
    exists k :: 0 <= k < n && SectionCarries(e.sections[k], key)
  }

  lemma {:induction false} SectionsAdd(seen: map<string, Tracked>, e: Emission, n: nat, key: string)
    requires n <= |e.sections|
    ensures Adds(seen, PutSections(seen, e, e.sections[..n]), e, key, CarriedUpto(e, n, key))
  {
    if n > 0 {
      var last, mid := e.sections[n - 1], PutSections(seen, e, e.sections[..n - 1]);
      SectionsAdd(seen, e, n - 1, key);
      assert e.sections[..n][..n - 1] == e.sections[..n - 1];
      ItemsAdd(mid, e, n - 1, |last.items|, key);
      assert last.items[..|last.items|] == last.items;
      AddsTwice(seen, mid, PutItems(mid, e, last.key, last.items), e, key,
                CarriedUpto(e, n - 1, key), SectionCarries(last, key));
      assert CarriedUpto(e, n, key) <==> CarriedUpto(e, n - 1, key) || SectionCarries(last, key);
    }
  }

  lemma EmissionAdds(seen: map<string, Tracked>, e: Emission, key: string)
    ensures Adds(seen, PutSections(seen, e, e.sections), e, key, Carries(e, key))
  {
    SectionsAdd(seen, e, |e.sections|, key);
    assert e.sections[..|e.sections|] == e.sections;
  }

  /** The first emission of a list to carry a key dates it. */
  ghost predicate DatedBy(emissions: seq<Emission>, key: string, n: int) {
    0 <= n < |emissions| && Carries(emissions[n], key) && forall i :: 0 <= i < n ==> !Carries(emissions[i], key)
  }

  lemma {:induction false} FirstCarrierDates(emissions: seq<Emission>, key: string)
    ensures key in PutEmissions(emissions) <==> exists n :: DatedBy(emissions, key, n)
    ensures forall n :: DatedBy(emissions, key, n) ==>
              Brings(emissions[n], key, PutEmissions(emissions)[key])
  {
    if emissions != [] {
      var front, last := emissions[..|emissions| - 1], emissions[|emissions| - 1];
      FirstCarrierDates(front, key);
      EmissionAdds(PutEmissions(front), last, key);
      assert forall i :: 0 <= i < |front| ==> front[i] == emissions[i];
      forall n ensures DatedBy(emissions, key, n) && n < |front| <==> DatedBy(front, key, n) {
      }
      forall n | DatedBy(emissions, key, n) && n == |front| ensures key !in PutEmissions(front) {
        assert forall k :: !DatedBy(front, key, k);
      }
      if Carries(last, key) && key !in PutEmissions(front) {
        NoneCarries(front, key);
        assert DatedBy(emissions, key, |front|);
      }
    }
  }

  lemma {:induction false} NoneCarries(emissions: seq<Emission>, key: string)
    requires !exists n :: DatedBy(emissions, key, n)
    ensures forall i :: 0 <= i < |emissions| ==> !Carries(emissions[i], key)
  {
    if emissions != [] {
      var front := emissions[..|emissions| - 1];
      forall n ensures DatedBy(front, key, n) ==> DatedBy(emissions, key, n) {
      }
      NoneCarries(front, key);
      if Carries(emissions[|front|], key) {
        assert DatedBy(emissions, key, |front|);
      }
    }
  }

  ghost predicate Carried(emissions: seq<Emission>, key: string) {
    exists e :: e in emissions && Carries(e, key)
  }

  /**
   Whatever order the emissions came in: a line is tracked exactly when some emission carries it,
   and its date is the least version that does.
  */
  lemma FirstSeenIsLeast(emissions: seq<Emission>, key: string)
    ensures key in Track(emissions) <==> Carried(emissions, key)
    ensures key in Track(emissions) ==>
              var seen := Track(emissions)[key];
              && (exists e :: e in emissions && Carries(e, key) && Brings(e, key, seen))
              && (forall e :: e in emissions && Carries(e, key) ==> seen.firstSeen <= e.version)
  {
    var sorted := Sort(ByVersion(), emissions);
    assert Ordering(ByVersion());
    SortSorts(ByVersion(), emissions);
    SortKeeps(ByVersion(), emissions);
    FirstCarrierDates(sorted, key);
    if n :| DatedBy(sorted, key, n) {
      assert sorted[n] in emissions;
      forall e | e in emissions && Carries(e, key) ensures sorted[n].version <= e.version {
        var i :| 0 <= i < |sorted| && sorted[i] == e;
        assert n < i ==> !ByVersion()(sorted[i], sorted[n]);
      }
    } else {
      NoneCarries(sorted, key);
    }
  }

  /** The dates do not depend on the order the emissions arrived in, or on repeats of one. */
  lemma ArrivalOrderDoesNotMatter(a: seq<Emission>, b: seq<Emission>, key: string)
    requires forall e :: e in a <==> e in b
    ensures key in Track(a) <==> key in Track(b)
    ensures key in Track(a) ==> Track(a)[key].firstSeen == Track(b)[key].firstSeen
  {
    FirstSeenIsLeast(a, key);
    FirstSeenIsLeast(b, key);
  }

  /** What an emission writes under a key nobody carried before it does not depend on what came before. */
  lemma {:induction false} PutsAlike(seen: map<string, Tracked>, e: Emission, sectionKey: string, items: seq<Item>, key: string, other: map<string, Tracked>)
    requires key in seen <==> key in other
    requires key in seen ==> seen[key] == other[key]
    ensures var a, b := PutItems(seen, e, sectionKey, items), PutItems(other, e, sectionKey, items);
            (key in a <==> key in b) && (key in a ==> a[key] == b[key])
  {
    if items != [] {
      PutsAlike(seen, e, sectionKey, items[..|items| - 1], key, other);
    }
  }

  lemma {:induction false} SectionsAlike(seen: map<string, Tracked>, e: Emission, sections: seq<Section>, key: string, other: map<string, Tracked>)
    requires key in seen <==> key in other
    requires key in seen ==> seen[key] == other[key]
    ensures var a, b := PutSections(seen, e, sections), PutSections(other, e, sections);
            (key in a <==> key in b) && (key in a ==> a[key] == b[key])
  {
    if sections != [] {
      var front, last := sections[..|sections| - 1], sections[|sections| - 1];
      SectionsAlike(seen, e, front, key, other);
      PutsAlike(PutSections(seen, e, front), e, last.key, last.items, key, PutSections(other, e, front));
    }
  }

  /** An emission's own line under a key it carries: its first. */
  function LineOf(e: Emission, key: string): Tracked
    requires Carries(e, key)
  {
    EmissionAdds(map[], e, key);
    PutSections(map[], e, e.sections)[key]
  }

  lemma {:induction false} FirstCarrierWrites(emissions: seq<Emission>, key: string, n: nat)
    requires DatedBy(emissions, key, n)
    ensures key in PutEmissions(emissions) && PutEmissions(emissions)[key] == LineOf(emissions[n], key)
  {
    var front, last := emissions[..|emissions| - 1], emissions[|emissions| - 1];
    FirstCarrierDates(front, key);
    EmissionAdds(PutEmissions(front), last, key);
    if n < |front| {
      assert DatedBy(front, key, n) by {
        assert forall i :: 0 <= i < |front| ==> front[i] == emissions[i];
      }
      FirstCarrierWrites(front, key, n);
    } else {
      forall k ensures !DatedBy(front, key, k) {
        assert 0 <= k < |front| ==> front[k] == emissions[k];
      }
      SectionsAlike(PutEmissions(front), last, last.sections, key, map[]);
    }
  }

  /** Each version was emitted once. */
  predicate OnePerVersion(emissions: seq<Emission>) {
    forall i, j :: 0 <= i < |emissions| && 0 <= j < |emissions| && emissions[i].version == emissions[j].version ==>
      emissions[i] == emissions[j]
  }

  /** A tracked line is written whole by an emission of least version carrying it. */
  lemma LeastCarrierWrites(emissions: seq<Emission>, key: string) returns (e: Emission)
    requires Carried(emissions, key)
    ensures e in emissions && Carries(e, key)
    ensures forall d :: d in emissions && Carries(d, key) ==> e.version <= d.version
    ensures key in Track(emissions) && Track(emissions)[key] == LineOf(e, key)
  {
    var sorted := Sort(ByVersion(), emissions);
    assert Ordering(ByVersion());
    SortSorts(ByVersion(), emissions);
    SortKeeps(ByVersion(), emissions);
    FirstSeenIsLeast(emissions, key);
    FirstCarrierDates(sorted, key);
    var n :| DatedBy(sorted, key, n);
    FirstCarrierWrites(sorted, key, n);
    e := sorted[n];
    forall d | d in emissions && Carries(d, key) ensures e.version <= d.version {
      var i :| 0 <= i < |sorted| && sorted[i] == d;
      assert n < i ==> !ByVersion()(sorted[i], sorted[n]);
    }
  }

  /** With one emission a version the whole map is the same for every order and repetition of arrivals. */
  lemma TrackedAlikeInAnyOrder(a: seq<Emission>, b: seq<Emission>)
    requires OnePerVersion(a) && forall e :: e in a <==> e in b
    ensures Track(a) == Track(b)
  {
    forall key ensures key in Track(a) <==> key in Track(b)
               ensures key in Track(a) ==> Track(a)[key] == Track(b)[key]
    {
      ArrivalOrderDoesNotMatter(a, b, key);
      FirstSeenIsLeast(a, key);
      FirstSeenIsLeast(b, key);
      if key in Track(a) {
        var d := LeastCarrierWrites(a, key);
        var e := LeastCarrierWrites(b, key);
        assert d in a && e in a && d.version == e.version;
      }
    }
  }

  /** One more emission re-dates a tracked line exactly when it carries the line under a smaller version. */
  lemma RedatedExactly(emissions: seq<Emission>, e: Emission, key: string)
    requires key in Track(emissions)
    ensures key in Track(emissions + [e])
    ensures var was, now := Track(emissions)[key].firstSeen, Track(emissions + [e])[key].firstSeen;
            now != was <==> Carries(e, key) && e.version < was
  {
    FirstSeenIsLeast(emissions, key);
    FirstSeenIsLeast(emissions + [e], key);
    assert forall x :: x in emissions + [e] <==> x in emissions || x == e;
    var first :| first in emissions && Carries(first, key) && Brings(first, key, Track(emissions)[key]);
    assert first in emissions + [e];
  }

  // -------------------------------------------------------------- just arrived

  /** The history the panel dates lines against. */
  function History(emissions: seq<Emission>, shown: Emission): seq<Emission> {
    if emissions != [] then emissions else [shown]
  }

  predicate JustArrived(emissions: seq<Emission>, shown: Emission, key: string) {
    var tracked := Track(History(emissions, shown));
    key in tracked && tracked[key].firstSeen == shown.version && shown.version > 1
  }

  /**
   A line of the brief on show is marked as just arrived exactly when this is not the first
   version and no version before it carried the line.
  */
  lemma JustArrivedExactly(emissions: seq<Emission>, shown: Emission, key: string)
    requires shown in History(emissions, shown) && Carries(shown, key)
    ensures JustArrived(emissions, shown, key) <==>
            shown.version > 1 && forall e :: e in emissions && e.version < shown.version ==> !Carries(e, key)
  {
    FirstSeenIsLeast(History(emissions, shown), key);
  }

  // --------------------------------------------------------- what a key tells

  /** A line's key, up to its value. */
  function Head(sectionKey: string, lineLabel: string): string {
    sectionKey + "::" + lineLabel + "::"
  }

  lemma KeyIsHeadAndValue(sectionKey: string, item: Item)
    ensures ItemKey(sectionKey, item) == Head(sectionKey, item.lineLabel) + item.valueRender
  {
  }

  lemma Completions(a: string, b: string)
    ensures (exists x, y :: a + x == b + y) <==> a <= b || b <= a
  {
    if x, y :| a + x == b + y {
      assert (a + x)[..|a|] == a && (b + y)[..|b|] == b;
      if |a| <= |b| {
        assert b[..|a|] == a;
      } else {
        assert a[..|b|] == b;
      }
    }
    if a <= b {
      assert a + b[|a|..] == b + [];
    }
    if b <= a {
      assert a + [] == b + a[|b|..];
    }
  }

  /**
   Lines under two different labels or sections are told apart, whatever their values, exactly
   when neither head is a prefix of the other.
  */
  lemma KeysTellExactly(s: string, l: string, t: string, m: string)
    ensures (forall v, w :: ItemKey(s, Item(l, v, "")) != ItemKey(t, Item(m, w, ""))) <==>
            !(Head(s, l) <= Head(t, m)) && !(Head(t, m) <= Head(s, l))
  {
    Completions(Head(s, l), Head(t, m));
    forall v, w
      ensures ItemKey(s, Item(l, v, "")) == ItemKey(t, Item(m, w, "")) <==> Head(s, l) + v == Head(t, m) + w
    {
      KeyIsHeadAndValue(s, Item(l, v, ""));
      KeyIsHeadAndValue(t, Item(m, w, ""));
    }
    if exists x, y :: Head(s, l) + x == Head(t, m) + y {
      var x, y :| Head(s, l) + x == Head(t, m) + y;
      assert ItemKey(s, Item(l, x, "")) == ItemKey(t, Item(m, y, ""));
    }
  }

  /** Without colons in sections and labels a key tells its line; the value may hold anything. */
  lemma ColonFreeKeysTell(s: string, a: Item, t: string, b: Item)
    requires ':' !in s && ':' !in t && ':' !in a.lineLabel && ':' !in b.lineLabel
    requires ItemKey(s, a) == ItemKey(t, b)
    ensures s == t && a.lineLabel == b.lineLabel && a.valueRender == b.valueRender
  {
    var x, y := ":" + a.lineLabel + "::" + a.valueRender, ":" + b.lineLabel + "::" + b.valueRender;
    assert ItemKey(s, a) == s + [':'] + x && ItemKey(t, b) == t + [':'] + y;
    Strings.HeadIsUnique(s, t, x, y, ':');
    var p, q := ":" + a.valueRender, ":" + b.valueRender;
    assert x[1..] == a.lineLabel + [':'] + p && y[1..] == b.lineLabel + [':'] + q;
    Strings.HeadIsUnique(a.lineLabel, b.lineLabel, p, q, ':');
    assert p[1..] == a.valueRender && q[1..] == b.valueRender;
  }

  /** A brief of one line. */
  function OneLine(version: int, stage: string, sectionKey: string, item: Item): Emission {
    Emission(version, stage, [Section(sectionKey, [item])])
  }

  lemma OneLineCarries(version: int, stage: string, sectionKey: string, item: Item)
    ensures Carries(OneLine(version, stage, sectionKey, item), ItemKey(sectionKey, item))
  {
    var e := OneLine(version, stage, sectionKey, item);
    assert ItemKey(e.sections[0].key, e.sections[0].items[0]) == ItemKey(sectionKey, item);
    assert SectionCarries(e.sections[0], ItemKey(sectionKey, item));
  }

  /** A new line whose key an earlier version already carried arrives unmarked. */
  lemma SameKeyArrivesUnmarked(s: string, a: Item, t: string, b: Item)
    requires ItemKey(s, a) == ItemKey(t, b)
    ensures var first, second := OneLine(1, "INSTANT", s, a), OneLine(2, "AMENDMENT", t, b);
            Carries(second, ItemKey(t, b)) && !JustArrived([first, second], second, ItemKey(t, b))
  {
    var first, second := OneLine(1, "INSTANT", s, a), OneLine(2, "AMENDMENT", t, b);
    OneLineCarries(1, "INSTANT", s, a);
    OneLineCarries(2, "AMENDMENT", t, b);
    assert [first, second][0] == first && [first, second][1] == second;
    JustArrivedExactly([first, second], second, ItemKey(t, b));
  }

  /** With colons a new reading can pass for an old line: these two share a key. */
  lemma CollidingKeysHideALine()
    ensures var was, now := Item("roof", "north::wet", "survey"), Item("roof::north", "wet", "drone");
            && ItemKey("LIFE", was) == ItemKey("LIFE", now)
            && !JustArrived([OneLine(1, "INSTANT", "LIFE", was), OneLine(2, "AMENDMENT", "LIFE", now)],
                            OneLine(2, "AMENDMENT", "LIFE", now), ItemKey("LIFE", now))
  {
    var was, now := Item("roof", "north::wet", "survey"), Item("roof::north", "wet", "drone");
    assert "roof" + "::" + "north::wet" == "roof::north" + "::" + "wet";
    assert ItemKey("LIFE", was) == "LIFE" + "::" + ("roof" + "::" + "north::wet");
    assert ItemKey("LIFE", now) == "LIFE" + "::" + ("roof::north" + "::" + "wet");
    SameKeyArrivesUnmarked("LIFE", was, "LIFE", now);
  }
}
