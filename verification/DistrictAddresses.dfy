/** The district's reference address file, rebuilt from parcel rows over the pinned entries it already holds. */
module DistrictAddresses {
  import opened Options
  import opened Sorting
  import opened Strings

  // ------------------------------------------------------------ parcel rows

  /** A parcel row as the feed gives it; an absent field is empty. */
  datatype Row = Row(
    fromAddressNum: string, streetName: string, streetType: string,
    blockNum: string, lotNum: string, latitude: string, longitude: string,
    districtId: string, ring: seq<(string, string)>)

  predicate IsNumber(s: string) {
    s != [] && forall i :: 0 <= i < |s| ==> '0' <= s[i] <= '9'
  }

  /** The digits of `int(number)`, with nothing for zero. */
  function StripZeros(number: string): string {
    if number != [] && number[0] == '0' then StripZeros(number[1..]) else number
  }

  function Pad(digits: string): string {
    if |digits| < 4 then "0000"[..4 - |digits|] + digits else digits
  }

  /** `f"{int(number):04d}"`. */
  function FourDigits(number: string): string {
    Pad(StripZeros(number))
  }

  function Hyphenated(s: string): (r: string)
    ensures |r| == |s|
    ensures forall i :: 0 <= i < |s| ==> r[i] == if s[i] == ' ' then '-' else s[i]
  {
    if s == [] then [] else [if s[0] == ' ' then '-' else s[0]] + Hyphenated(s[1..])
  }

  function Slug(street: string): string {
    Hyphenated(Lower(street))
  }

  function AddressId(row: Row): Option<string> {
    var number, street := Trim(row.fromAddressNum), Trim(row.streetName);
    if number == [] || street == [] || !IsNumber(number) then None
    else Some("sf-" + FourDigits(number) + "-" + Slug(street))
  }

  lemma {:induction false} StripZerosShape(number: string)
    requires forall i :: 0 <= i < |number| ==> '0' <= number[i] <= '9'
    ensures var digits := StripZeros(number);
            (forall i :: 0 <= i < |digits| ==> '0' <= digits[i] <= '9') && (digits != [] ==> digits[0] != '0')
  {
    if number != [] && number[0] == '0' {
      StripZerosShape(number[1..]);
    }
  }

  lemma PadZeros(digits: string)
    ensures |Pad(digits)| >= |digits| && Pad(digits)[|Pad(digits)| - |digits|..] == digits
    ensures forall i :: 0 <= i < |Pad(digits)| - |digits| ==> Pad(digits)[i] == '0'
    ensures |Pad(digits)| == if |digits| < 4 then 4 else |digits|
  {
    assert forall i :: 0 <= i < 4 ==> "0000"[i] == '0';
  }

  lemma PadTells(x: string, y: string)
    requires x != [] ==> x[0] != '0'
    requires y != [] ==> y[0] != '0'
    ensures Pad(x) == Pad(y) ==> x == y
  {
    PadZeros(x);
    PadZeros(y);
    if Pad(x) == Pad(y) {
      var m, n := |Pad(x)| - |x|, |Pad(y)| - |y|;
      assert x != [] ==> Pad(x)[m..][0] == x[0];
      assert y != [] ==> Pad(y)[n..][0] == y[0];
    }
  }

  lemma PadDigits(digits: string)
    requires '-' !in digits
    ensures '-' !in Pad(digits)
  {
    PadZeros(digits);
    var k := |Pad(digits)| - |digits|;
    assert Pad(digits) == Pad(digits)[..k] + digits;
  }

  lemma IdTells(a: string, b: string, s: string, t: string)
    requires '-' !in a && '-' !in b
    ensures "sf-" + a + "-" + s == "sf-" + b + "-" + t <==> a == b && s == t
  {
    if "sf-" + a + "-" + s == "sf-" + b + "-" + t {
      assert ("sf-" + a + "-" + s)[3..] == a + ['-'] + s;
      assert ("sf-" + b + "-" + t)[3..] == b + ['-'] + t;
      HeadIsUnique(a, b, s, t, '-');
    }
  }

  // -------------------------------------------------------- what an id says

  predicate Digits(s: string) {
    forall i :: 0 <= i < |s| ==> '0' <= s[i] <= '9'
  }

  /** The number a run of digits writes. */
  function Value(digits: string): nat
    requires Digits(digits)
  {
    if digits == [] then 0
    else Value(digits[..|digits| - 1]) * 10 + (digits[|digits| - 1] as int - '0' as int)
  }

  lemma {:induction false} ValueAfterZero(digits: string)
    requires Digits(digits)
    ensures Digits("0" + digits) && Value("0" + digits) == Value(digits)
  {
    if digits != [] {
      var n := |digits| - 1;
      ValueAfterZero(digits[..n]);
      assert ("0" + digits)[..n + 1] == "0" + digits[..n];
    } else {
      assert "0"[..0] == "";
    }
  }

  lemma {:induction false} ValueOfStripped(number: string)
    requires Digits(number)
    ensures Digits(StripZeros(number)) && Value(StripZeros(number)) == Value(number)
  {
    if number != [] && number[0] == '0' {
      ValueOfStripped(number[1..]);
      ValueAfterZero(number[1..]);
      assert number == "0" + number[1..];
    }
  }

  lemma {:induction false} ValueOfPadded(zeros: string, digits: string)
    requires (forall i :: 0 <= i < |zeros| ==> zeros[i] == '0') && Digits(digits)
    ensures Digits(zeros + digits) && Value(zeros + digits) == Value(digits)
  {
    if zeros == [] {
      assert zeros + digits == digits;
    } else {
      ValueOfPadded(zeros[1..], digits);
      ValueAfterZero(zeros[1..] + digits);
      assert zeros + digits == "0" + (zeros[1..] + digits);
    }
  }

  /** Without leading zeros a number is written one way. */
  lemma {:induction false} ValueTells(a: string, b: string)
    requires Digits(a) && Digits(b)
    requires a != [] ==> a[0] != '0'
    requires b != [] ==> b[0] != '0'
    ensures Value(a) == Value(b) ==> a == b
  {
    ValuePositive(a);
    ValuePositive(b);
    if a != [] && b != [] && Value(a) == Value(b) {
      ValueTells(a[..|a| - 1], b[..|b| - 1]);
      assert a == a[..|a| - 1] + [a[|a| - 1]] && b == b[..|b| - 1] + [b[|b| - 1]];
    }
  }

  lemma {:induction false} ValuePositive(a: string)
    requires Digits(a) && (a != [] ==> a[0] != '0')
    ensures Value(a) > 0 <==> a != []
  {
    if a != [] {
      ValuePositive(a[..|a| - 1]);
    }
  }

  /** A letter and its lower case, a blank and its hyphen, or any other character and itself. */
  predicate SpeltAs(c: char, d: char) {
    if 'A' <= c <= 'Z' then d as int == c as int + 32
    else if c == ' ' then d == '-'
    else d == c
  }

  /** A number to be read without its leading zeros, written on four places or more, and no zero before a fifth. */
  predicate WritesNumber(digits: string, number: string) {
    && Digits(digits) && Digits(number) && Value(digits) == Value(number)
    && |digits| >= 4 && (|digits| > 4 ==> digits[0] != '0')
  }

  /** A row has an id exactly when it has a number in digits and a street: the number on four places, then the street. */
  lemma IdSpellsTheRow(row: Row) returns (digits: string, slug: string)
    ensures AddressId(row).Some? <==>
            && Trim(row.fromAddressNum) != [] && Digits(Trim(row.fromAddressNum)) && Trim(row.streetName) != []
    ensures AddressId(row).Some? ==>
            && AddressId(row) == Some("sf-" + digits + "-" + slug)
            && WritesNumber(digits, Trim(row.fromAddressNum))
            && |slug| == |Trim(row.streetName)|
            && forall i :: 0 <= i < |slug| ==> SpeltAs(Trim(row.streetName)[i], slug[i])
  {
    digits, slug := FourDigits(Trim(row.fromAddressNum)), Slug(Trim(row.streetName));
    if AddressId(row).Some? {
      FourDigitsWrite(Trim(row.fromAddressNum));
    }
  }

  lemma FourDigitsWrite(number: string)
    requires Digits(number)
    ensures WritesNumber(FourDigits(number), number)
  {
    var digits := StripZeros(number);
    StripZerosShape(number);
    ValueOfStripped(number);
    PadZeros(digits);
    var k := |Pad(digits)| - |digits|;
    assert Pad(digits) == Pad(digits)[..k] + digits;
    ValueOfPadded(Pad(digits)[..k], digits);
  }

  /** One letter in either case, or one blank or hyphen for another. */
  predicate SameLetter(c: char, d: char) {
    || c == d
    || ('A' <= c <= 'Z' && d as int == c as int + 32) || ('A' <= d <= 'Z' && c as int == d as int + 32)
    || (c in " -" && d in " -")
  }

  predicate SameStreet(s: string, t: string) {
    |s| == |t| && forall i :: 0 <= i < |s| ==> SameLetter(s[i], t[i])
  }

  lemma SlugTells(s: string, t: string)
    ensures Slug(s) == Slug(t) <==> SameStreet(s, t)
  {
    if |s| == |t| {
      forall i | 0 <= i < |s| ensures Slug(s)[i] == Slug(t)[i] <==> SameLetter(s[i], t[i]) {
        SlugAt(s, i);
        SlugAt(t, i);
      }
      SameThroughout(Slug(s), Slug(t));
    }
  }

  lemma SlugAt(street: string, i: nat)
    requires i < |street|
    ensures |Slug(street)| == |street| && SpeltAs(street[i], Slug(street)[i])
  {
  }

  lemma SameThroughout(s: string, t: string)
    requires |s| == |t|
    ensures s == t <==> forall i :: 0 <= i < |s| ==> s[i] == t[i]
  {
  }

  /** Two rows share an id exactly when they have the same number and the same street, up to case and blank or hyphen. */
  lemma SameIdExactly(a: Row, b: Row)
    requires AddressId(a).Some? && AddressId(b).Some?
    ensures AddressId(a) == AddressId(b) <==>
            && Value(Trim(a.fromAddressNum)) == Value(Trim(b.fromAddressNum))
            && SameStreet(Trim(a.streetName), Trim(b.streetName))
  {
    var m, n := StripZeros(Trim(a.fromAddressNum)), StripZeros(Trim(b.fromAddressNum));
    StripZerosShape(Trim(a.fromAddressNum));
    StripZerosShape(Trim(b.fromAddressNum));
    ValueOfStripped(Trim(a.fromAddressNum));
    ValueOfStripped(Trim(b.fromAddressNum));
    ValueTells(m, n);
    PadTells(m, n);
    PadDigits(m);
    PadDigits(n);
    SlugTells(Trim(a.streetName), Trim(b.streetName));
    IdTells(Pad(m), Pad(n), Slug(Trim(a.streetName)), Slug(Trim(b.streetName)));
  }

  /** A row the build can take an address from. */
  predicate Usable(row: Row, id: string) {
    AddressId(row) == Some(id) && row.latitude != [] && row.longitude != []
  }

  // -------------------------------------------------------------- the build

  /** An entry: its id, and the rest of what is written under it. */
  datatype Entry<D> = Entry(addressId: string, details: D)

  datatype Document<D> = Document(jurisdictionId: Option<string>, districts: seq<string>, addresses: seq<Entry<D>>)

  const JURISDICTION_ID := "sf-city-county"

  const PINNED_IDS := {
    "sf-0450-hayes", "sf-1215-fell", "sf-0899-valencia", "sf-2130-mission", "sf-0350-rhode-island",
    "sf-1550-bryant", "sf-0621-clement", "sf-3120-24th", "sf-0415-mission"}

  /** The pinned entries by id; of two under one id the later stands. */
  function Pinned<D>(addresses: seq<Entry<D>>): map<string, Entry<D>> {
    if addresses == [] then map[]
    else
      var kept, entry := Pinned(addresses[..|addresses| - 1]), addresses[|addresses| - 1];
      if entry.addressId in PINNED_IDS then kept[entry.addressId := entry] else kept
  }

  /** The rows in order, each taken only if its id is not yet held. */
  function Grow<D>(kept: map<string, Entry<D>>, rows: seq<Row>, describe: Row -> D): map<string, Entry<D>> {
    if rows == [] then kept
    else
      var held, row := Grow(kept, rows[..|rows| - 1], describe), rows[|rows| - 1];
      var id := AddressId(row);
      if id.None? || id.value in held || row.latitude == [] || row.longitude == [] then held
      else held[id.value := Entry(id.value, describe(row))]
  }

  ghost predicate Keyed<D(!new)>(kept: map<string, Entry<D>>) {
    forall id :: id in kept ==> kept[id].addressId == id
  }

  function Before<D>(): (Entry<D>, Entry<D>) -> bool {
    (a: Entry<D>, b: Entry<D>) => Less(a.addressId, b.addressId)
  }

  /** `addresses` is `kept`, each entry once, in the order of the ids. */
  ghost predicate Lists<D(!new)>(addresses: seq<Entry<D>>, kept: map<string, Entry<D>>) {
    && StrictlySorted(Before(), addresses)
    && (forall e :: e in addresses <==> e.addressId in kept && kept[e.addressId] == e)
  }

  lemma BeforeOrders<D(!new)>()
    ensures Ordering(Before<D>())
  {
    forall a: Entry<D>, b: Entry<D>, c: Entry<D>
      ensures Less(a.addressId, b.addressId) ==> !Less(b.addressId, a.addressId)
      ensures Less(a.addressId, b.addressId) && Less(b.addressId, c.addressId) ==> Less(a.addressId, c.addressId)
      ensures !Less(a.addressId, b.addressId) && !Less(b.addressId, c.addressId) ==> !Less(a.addressId, c.addressId)
    {
      var x, y, z := a.addressId, b.addressId, c.addressId;
      LessTotal(x, y);
      LessTotal(y, z);
      LessTotal(x, z);
      if Less(x, y) && Less(y, z) {
        LessTransitive(x, y, z);
      }
      if Less(z, y) && Less(y, x) {
        LessTransitive(z, y, x);
      }
    }
  }

  lemma ListsOneWay<D(!new)>(a: seq<Entry<D>>, b: seq<Entry<D>>, kept: map<string, Entry<D>>)
    requires Lists(a, kept) && Lists(b, kept)
    ensures a == b
  {
    BeforeOrders<D>();
    StrictlySortedUnique(Before(), a, b);
  }

  /** Distinct ids, sorted, are strictly sorted. */
  lemma SortLists<D(!new)>(entries: seq<Entry<D>>, kept: map<string, Entry<D>>)
    requires Keyed(kept)
    requires forall i, j :: 0 <= i < j < |entries| ==> entries[i].addressId != entries[j].addressId
    requires forall e :: e in entries <==> e.addressId in kept && kept[e.addressId] == e
    ensures Lists(Sort(Before(), entries), kept)
  {
    var sorted := Sort(Before(), entries);
    BeforeOrders<D>();
    SortSorts(Before<D>(), entries);
    SortKeeps(Before<D>(), entries);
    KeysStayApart((e: Entry<D>) => e.addressId, entries, sorted);
    ApartAndSorted(sorted);
  }

  lemma ApartAndSorted<D(!new)>(s: seq<Entry<D>>)
    requires Sorted(Before(), s)
    requires forall i, j :: 0 <= i < j < |s| ==> s[i].addressId != s[j].addressId
    ensures StrictlySorted(Before(), s)
  {
    forall i, j | 0 <= i < j < |s| ensures Before<D>()(s[i], s[j]) {
      LessTotal(s[i].addressId, s[j].addressId);
      assert !Before<D>()(s[j], s[i]);
    }
  }

  /** Everything `build` keeps, by id. */
  function Kept<D>(rows: seq<Row>, addresses: seq<Entry<D>>, describe: Row -> D): map<string, Entry<D>> {
    Grow(Pinned(addresses), rows, describe)
  }

  ghost predicate IsBuild<D(!new)>(document: Document<D>, rows: seq<Row>, existing: Document<D>, describe: Row -> D) {
    && document.jurisdictionId ==
       Some(if existing.jurisdictionId.Some? then existing.jurisdictionId.value else JURISDICTION_ID)
    && document.districts == existing.districts
    && Lists(document.addresses, Kept(rows, existing.addresses, describe))
  }

  ghost predicate HasId<D(!new)>(addresses: seq<Entry<D>>, id: string) {
    exists e :: e in addresses && e.addressId == id
  }

  lemma HasIdStep<D(!new)>(front: seq<Entry<D>>, last: Entry<D>, id: string)
    ensures HasId(front + [last], id) <==> HasId(front, id) || id == last.addressId
  {
    assert last in front + [last];
    if HasId(front, id) {
      var e :| e in front && e.addressId == id;
      assert e in front + [last];
    }
  }

  lemma {:induction false} PinnedShape<D(!new)>(addresses: seq<Entry<D>>, id: string)
    ensures id in Pinned(addresses) <==> id in PINNED_IDS && HasId(addresses, id)
    ensures id in Pinned(addresses) ==> Pinned(addresses)[id].addressId == id && Pinned(addresses)[id] in addresses
  {
    if addresses != [] {
      var front, last := addresses[..|addresses| - 1], addresses[|addresses| - 1];
      assert addresses == front + [last];
      PinnedShape(front, id);
      HasIdStep(front, last, id);
    }
  }

  lemma PinnedKeyed<D(!new)>(addresses: seq<Entry<D>>)
    ensures Keyed(Pinned(addresses))
  {
    forall id | id in Pinned(addresses) ensures Pinned(addresses)[id].addressId == id {
      PinnedShape(addresses, id);
    }
  }

  /** The first usable row for an id. */
  function FirstUsable(rows: seq<Row>, id: string): Option<Row> {
    if rows == [] then None
    else
      var earlier := FirstUsable(rows[..|rows| - 1], id);
      if earlier.Some? then earlier
      else if Usable(rows[|rows| - 1], id) then Some(rows[|rows| - 1])
      else None
  }

  /** What is kept under an id: what was pinned there, or else the first usable row's entry. */
  lemma {:induction false} GrowShape<D(!new)>(kept: map<string, Entry<D>>, rows: seq<Row>, describe: Row -> D, id: string)
    ensures var grown := Grow(kept, rows, describe);
            && (id in grown <==> id in kept || FirstUsable(rows, id).Some?)
            && (id in kept ==> grown[id] == kept[id])
            && (id in grown && id !in kept ==> grown[id] == Entry(id, describe(FirstUsable(rows, id).value)))
  {
    if rows != [] {
      GrowShape(kept, rows[..|rows| - 1], describe, id);
    }
  }

  lemma GrowKeyed<D(!new)>(kept: map<string, Entry<D>>, rows: seq<Row>, describe: Row -> D)
    requires Keyed(kept)
    ensures Keyed(Grow(kept, rows, describe))
  {
    forall id | id in Grow(kept, rows, describe) ensures Grow(kept, rows, describe)[id].addressId == id {
      GrowShape(kept, rows, describe, id);
    }
  }

  // ------------------------------------------------------------ what it gives

  /**
   Every entry of a built file is a pinned one unchanged, or its first usable row; and nothing
   pinned or usable is missing.
  */
  lemma EntriesExactly<D(!new)>(document: Document<D>, rows: seq<Row>, existing: Document<D>, describe: Row -> D,
                         e: Entry<D>)
    requires IsBuild(document, rows, existing, describe)
    ensures e in document.addresses <==>
            || (e.addressId in Pinned(existing.addresses) && e == Pinned(existing.addresses)[e.addressId])
            || (&& e.addressId !in Pinned(existing.addresses)
                && FirstUsable(rows, e.addressId).Some?
                && e.details == describe(FirstUsable(rows, e.addressId).value))
  {
    PinnedShape(existing.addresses, e.addressId);
    GrowShape(Pinned(existing.addresses), rows, describe, e.addressId);
  }

  /** The ids of a built file, in code-point order, none twice. */
  lemma IdsAreSortedAndUnique<D(!new)>(document: Document<D>, rows: seq<Row>, existing: Document<D>, describe: Row -> D)
    requires IsBuild(document, rows, existing, describe)
    ensures forall i, j :: 0 <= i < j < |document.addresses| ==>
              Less(document.addresses[i].addressId, document.addresses[j].addressId)
              && document.addresses[i].addressId != document.addresses[j].addressId
  {
    forall i, j | 0 <= i < j < |document.addresses|
      ensures Less(document.addresses[i].addressId, document.addresses[j].addressId)
      ensures document.addresses[i].addressId != document.addresses[j].addressId
    {
      assert Before<D>()(document.addresses[i], document.addresses[j]);
      LessTotal(document.addresses[i].addressId, document.addresses[j].addressId);
    }
  }

  lemma PinnedOfLists<D(!new)>(addresses: seq<Entry<D>>, kept: map<string, Entry<D>>, id: string)
    requires Lists(addresses, kept) && Keyed(kept)
    ensures id in Pinned(addresses) <==> id in PINNED_IDS && id in kept
    ensures id in Pinned(addresses) ==> Pinned(addresses)[id] == kept[id]
  {
    PinnedShape(addresses, id);
    if id in PINNED_IDS && id in kept {
      assert kept[id] in addresses && kept[id].addressId == id;
    }
  }

  /** Building again from the same rows, over what was just built, changes nothing. */
  lemma BuildIsIdempotent<D(!new)>(once: Document<D>, twice: Document<D>, rows: seq<Row>, existing: Document<D>,
                                   describe: Row -> D)
    requires IsBuild(once, rows, existing, describe) && IsBuild(twice, rows, once, describe)
    ensures twice == once
  {
    var first, second := Kept(rows, existing.addresses, describe), Kept(rows, once.addresses, describe);
    PinnedKeyed(existing.addresses);
    GrowKeyed(Pinned(existing.addresses), rows, describe);
    forall id ensures id in first <==> id in second
              ensures id in first ==> first[id] == second[id]
    {
      PinnedShape(existing.addresses, id);
      GrowShape(Pinned(existing.addresses), rows, describe, id);
      GrowShape(Pinned(once.addresses), rows, describe, id);
      PinnedOfLists(once.addresses, first, id);
    }
    assert first == second;
    ListsOneWay(once.addresses, twice.addresses, first);
  }

  /**
   The script's notes say it may only ever add. It keeps an id already in the file exactly when
   the id is pinned or the feed still gives a usable row for it.
  */
  lemma IdSurvivesExactly<D(!new)>(document: Document<D>, rows: seq<Row>, existing: Document<D>, describe: Row -> D,
                         e: Entry<D>)
    requires IsBuild(document, rows, existing, describe) && e in existing.addresses
    ensures HasId(document.addresses, e.addressId) <==>
            e.addressId in PINNED_IDS || FirstUsable(rows, e.addressId).Some?
  {
    var kept := Kept(rows, existing.addresses, describe);
    PinnedKeyed(existing.addresses);
    PinnedShape(existing.addresses, e.addressId);
    GrowKeyed(Pinned(existing.addresses), rows, describe);
    GrowShape(Pinned(existing.addresses), rows, describe, e.addressId);
    if e.addressId in kept {
      assert kept[e.addressId] in document.addresses;
    }
  }

  /** A feed that comes back empty drops every entry that is not pinned. */
  lemma EmptyFeedDropsTheUnpinned<D(!new)>(document: Document<D>, existing: Document<D>, describe: Row -> D, e: Entry<D>)
    requires IsBuild(document, [], existing, describe) && e in existing.addresses && e.addressId !in PINNED_IDS
    ensures !HasId(document.addresses, e.addressId) && e !in document.addresses
  {
    IdSurvivesExactly(document, [], existing, describe, e);
  }

  predicate NoneUsable(rows: seq<Row>, id: string) {
    forall i :: 0 <= i < |rows| ==> !Usable(rows[i], id)
  }

  lemma NoneUsableStep(rows: seq<Row>, id: string)
    requires rows != []
    ensures NoneUsable(rows, id) <==> NoneUsable(rows[..|rows| - 1], id) && !Usable(rows[|rows| - 1], id)
  {
    assert rows == rows[..|rows| - 1] + [rows[|rows| - 1]];
  }

  lemma {:induction false} FirstUsableIsAny(rows: seq<Row>, id: string)
    ensures FirstUsable(rows, id).None? <==> NoneUsable(rows, id)
  {
    if rows != [] {
      FirstUsableIsAny(rows[..|rows| - 1], id);
      NoneUsableStep(rows, id);
    }
  }

  /** The first usable row comes before every other usable row for its id. */
  lemma FirstUsableIsFirst(rows: seq<Row>, id: string) returns (n: nat)
    requires FirstUsable(rows, id).Some?
    ensures n < |rows| && FirstUsable(rows, id) == Some(rows[n])
    ensures AddressId(rows[n]) == Some(id) && rows[n].latitude != [] && rows[n].longitude != []
    ensures forall i :: 0 <= i < n && AddressId(rows[i]) == Some(id) ==> rows[i].latitude == [] || rows[i].longitude == []
  {
    n := FirstUsableAt(rows, id);
    forall i | 0 <= i < n && AddressId(rows[i]) == Some(id) ensures rows[i].latitude == [] || rows[i].longitude == [] {
      assert !Usable(rows[..n][i], id);
    }
  }

  lemma {:induction false} FirstUsableAt(rows: seq<Row>, id: string) returns (n: nat)
    requires FirstUsable(rows, id).Some?
    ensures n < |rows| && FirstUsable(rows, id) == Some(rows[n])
    ensures Usable(rows[n], id) && NoneUsable(rows[..n], id)
  {
    var front := rows[..|rows| - 1];
    if FirstUsable(front, id).Some? {
      n := FirstUsableAt(front, id);
      assert front[..n] == rows[..n];
    } else {
      n := |rows| - 1;
      FirstUsableIsAny(front, id);
    }
  }

  /** Of the pinned entries under one id the last stands. */
  lemma {:induction false} PinnedIsLast<D(!new)>(addresses: seq<Entry<D>>, id: string) returns (n: nat)
    requires id in PINNED_IDS && HasId(addresses, id)
    ensures n < |addresses| && addresses[n].addressId == id
    ensures id in Pinned(addresses) && Pinned(addresses)[id] == addresses[n]
    ensures forall j :: n < j < |addresses| ==> addresses[j].addressId != id
  {
    n := |addresses| - 1;
    assert addresses == addresses[..n] + [addresses[n]];
    HasIdStep(addresses[..n], addresses[n], id);
    if addresses[n].addressId != id {
      n := PinnedIsLast(addresses[..n], id);
    }
  }

  /** The dictionary a file starts from: its pinned entries, under their ids. */
  method KeepPinned<D(!new)>(addresses: seq<Entry<D>>) returns (kept: map<string, Entry<D>>, order: seq<string>)
    ensures kept == Pinned(addresses) && InsertionOrder(order, kept)
  {
    kept, order := map[], [];
    var n := 0;
    while n < |addresses|
      invariant 0 <= n <= |addresses|
      invariant kept == Pinned(addresses[..n])
      invariant InsertionOrder(order, kept)
    {
      assert addresses[..n + 1][..n] == addresses[..n];
      var entry := addresses[n];
      if entry.addressId in PINNED_IDS {
        if entry.addressId !in kept {
          order := order + [entry.addressId];
        }
        kept := kept[entry.addressId := entry];
      }
      n := n + 1;
    }
    assert addresses[..n] == addresses;
  }

  /** One entry more for each row with an id not kept yet and both coordinates. */
  method FillIn<D(!new)>(pinned: map<string, Entry<D>>, pins: seq<string>, rows: seq<Row>, describe: Row -> D)
    returns (kept: map<string, Entry<D>>, order: seq<string>)
    requires InsertionOrder(pins, pinned)
    ensures kept == Grow(pinned, rows, describe) && InsertionOrder(order, kept)
  {
    kept, order := pinned, pins;
    var n := 0;
    while n < |rows|
      invariant 0 <= n <= |rows|
      invariant kept == Grow(pinned, rows[..n], describe)
      invariant InsertionOrder(order, kept)
    {
      assert rows[..n + 1][..n] == rows[..n];
      var row := rows[n];
      n := n + 1;
      var id := AddressId(row);
      if id.None? || id.value in kept || row.latitude == [] || row.longitude == [] {
        continue;
      }
      order := order + [id.value];
      kept := kept[id.value := Entry(id.value, describe(row))];
    }
    assert rows[..n] == rows;
  }

  /** `build`: a dictionary in insertion order, filled row by row, and read back sorted. */
  method Build<D(!new,==)>(rows: seq<Row>, existing: Document<D>, describe: Row -> D) returns (document: Document<D>)
    ensures IsBuild(document, rows, existing, describe)
  {
    var pinned, pins := KeepPinned(existing.addresses);
    var kept, order := FillIn(pinned, pins, rows, describe);
    PinnedKeyed(existing.addresses);
    GrowKeyed(pinned, rows, describe);
    var entries := seq(|order|, i requires 0 <= i < |order| && order[i] in kept => kept[order[i]]);
    OrderedEntries(order, kept, entries);
    SortLists(entries, kept);
    document := Document(
      Some(if existing.jurisdictionId.Some? then existing.jurisdictionId.value else JURISDICTION_ID),
      existing.districts,
      Sort(Before(), entries));
  }

  ghost predicate InsertionOrder<D(!new)>(order: seq<string>, kept: map<string, Entry<D>>) {
    && (forall i, j :: 0 <= i < j < |order| ==> order[i] != order[j])
    && (forall id :: id in kept <==> id in order)
  }

  lemma OrderedEntries<D(!new)>(order: seq<string>, kept: map<string, Entry<D>>, entries: seq<Entry<D>>)
    requires InsertionOrder(order, kept) && Keyed(kept)
    requires |entries| == |order| && forall i :: 0 <= i < |order| ==> order[i] in kept && entries[i] == kept[order[i]]
    ensures forall i, j :: 0 <= i < j < |entries| ==> entries[i].addressId != entries[j].addressId
    ensures forall e :: e in entries <==> e.addressId in kept && kept[e.addressId] == e
  {
    forall e: Entry<D> | e.addressId in kept && kept[e.addressId] == e ensures e in entries {
      var i :| 0 <= i < |order| && order[i] == e.addressId;
      assert entries[i] == e;
    }
  }
}
