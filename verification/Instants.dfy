/**
 Backend instants as the console compares them: `datetime.isoformat()` strings,
 whose fraction is left out when it is zero, ordered by code units.
*/
module Instants {
  import opened Strings

  // -------------------------------------------------------------- the clock

  predicate Leap(year: nat) {
    year % 4 == 0 && (year % 100 != 0 || year % 400 == 0)
  }

  function DaysInMonth(year: nat, month: nat): nat
    requires 1 <= month <= 12
  {
    if month == 2 then (if Leap(year) then 29 else 28)
    else if month in {4, 6, 9, 11} then 30 else 31
  }

  datatype Instant = Instant(
    year: nat, month: nat, day: nat, hour: nat, minute: nat, second: nat, micro: nat)
  {
    predicate Valid() {
      && 1 <= year <= 9999
      && 1 <= month <= 12
      && 1 <= day <= DaysInMonth(year, month)
      && hour < 24 && minute < 60 && second < 60 && micro < 1_000_000
    }
  }

  function DaysBeforeYear(year: nat): int {
    var y := year - 1;
    y * 365 + y / 4 - y / 100 + y / 400
  }

  function DaysBeforeMonth(year: nat, month: nat): nat
    requires 1 <= month <= 12
  {
    if month == 1 then 0 else DaysBeforeMonth(year, month - 1) + DaysInMonth(year, month - 1)
  }

  function Days(i: Instant): int
    requires i.Valid()
  {
    DaysBeforeYear(i.year) + DaysBeforeMonth(i.year, i.month) + i.day
  }

  /** Microseconds on the backend's clock. */
  function Micros(i: Instant): int
    requires i.Valid()
  {
    (((Days(i) * 24 + i.hour) * 60 + i.minute) * 60 + i.second) * 1_000_000 + i.micro
  }

  const MONTH_LENGTHS := [31, 28, 31, 30, 31, 30, 31, 31, 30, 31, 30, 31]

  /** The day after, by the calendar: thirty days hath September. */
  function NextDay(i: Instant): Instant
    requires i.Valid()
  {
    var leapDay := i.month == 2 && i.year % 4 == 0 && (i.year % 100 != 0 || i.year % 400 == 0);
    if i.day < MONTH_LENGTHS[i.month - 1] + (if leapDay then 1 else 0) then i.(day := i.day + 1)
    else if i.month < 12 then i.(month := i.month + 1, day := 1)
    else i.(year := i.year + 1, month := 1, day := 1)
  }

  /** An instant is its midnight and the time of day past it. */
  lemma TimeOfDay(i: Instant)
    requires i.Valid()
    ensures var midnight := i.(hour := 0, minute := 0, second := 0, micro := 0);
            && midnight.Valid()
            && Micros(i) == Micros(midnight)
                            + i.hour * 3_600_000_000 + i.minute * 60_000_000 + i.second * 1_000_000 + i.micro
  {
  }

  /** From one day to the next is a day of microseconds, over the ends of months and years too. */
  lemma DaysFollowOn(i: Instant)
    requires i.Valid() && NextDay(i).year <= 9999
    ensures NextDay(i).Valid() && Days(NextDay(i)) == Days(i) + 1
    ensures Micros(NextDay(i)) == Micros(i) + 86_400_000_000
  {
    if i.month == 12 && i.day == 31 {
      NextYear(i.year);
      WholeYear(i.year);
    }
  }

  lemma WholeYear(year: nat)
    ensures DaysBeforeMonth(year, 12) + 31 == if Leap(year) then 366 else 365
  {
    assert DaysBeforeMonth(year, 2) == 31;
    assert DaysBeforeMonth(year, 3) == if Leap(year) then 60 else 59;
    assert DaysBeforeMonth(year, 4) == DaysBeforeMonth(year, 3) + 31;
    assert DaysBeforeMonth(year, 6) == DaysBeforeMonth(year, 4) + 61;
    assert DaysBeforeMonth(year, 8) == DaysBeforeMonth(year, 6) + 61;
    assert DaysBeforeMonth(year, 10) == DaysBeforeMonth(year, 8) + 61;
    assert DaysBeforeMonth(year, 12) == DaysBeforeMonth(year, 10) + 61;
  }

  lemma {:induction false} YearsInOrder(x: nat, y: nat)
    requires 1 <= x < y
    ensures DaysBeforeYear(x) + 365 + (if Leap(x) then 1 else 0) <= DaysBeforeYear(y)
    decreases y - x
  {
    NextYear(x);
    if x + 1 < y {
      YearsInOrder(x + 1, y);
    }
  }

  lemma NextYear(x: nat)
    requires 1 <= x
    ensures DaysBeforeYear(x) + 365 + (if Leap(x) then 1 else 0) == DaysBeforeYear(x + 1)
  {
    Every4(x);
    Every100(x);
    Every400(x);
    Nested(x);
  }

  lemma Every4(x: nat)
    requires 1 <= x
    ensures x / 4 - (x - 1) / 4 == if x % 4 == 0 then 1 else 0
  {
  }

  lemma Every100(x: nat)
    requires 1 <= x
    ensures x / 100 - (x - 1) / 100 == if x % 100 == 0 then 1 else 0
  {
  }

  lemma Every400(x: nat)
    requires 1 <= x
    ensures x / 400 - (x - 1) / 400 == if x % 400 == 0 then 1 else 0
  {
  }

  lemma Nested(x: nat)
    ensures x % 400 == 0 ==> x % 100 == 0
    ensures x % 100 == 0 ==> x % 4 == 0
  {
    if x % 400 == 0 {
      Multiple(x, 4, 100);
    }
    if x % 100 == 0 {
      Multiple(x, 25, 4);
    }
  }

  lemma Multiple(x: nat, k: nat, n: nat)
    requires (n == 100 && k == 4 && x % 400 == 0) || (n == 4 && k == 25 && x % 100 == 0)
    ensures x % n == 0
  {
  }

  lemma {:induction false} MonthsInOrder(year: nat, m: nat, n: nat)
    requires 1 <= m < n <= 12
    ensures DaysBeforeMonth(year, m) + DaysInMonth(year, m) <= DaysBeforeMonth(year, n)
    decreases n
  {
    if m + 1 < n {
      MonthsInOrder(year, m, n - 1);
    }
  }

  lemma MonthsFit(year: nat, m: nat)
    requires 1 <= m <= 12
    ensures DaysBeforeMonth(year, m) + DaysInMonth(year, m) <= 365 + (if Leap(year) then 1 else 0)
  {
    if m < 12 {
      MonthsInOrder(year, m, 12);
    }
    assert DaysBeforeMonth(year, 3) == 59 + (if Leap(year) then 1 else 0);
    assert DaysBeforeMonth(year, 6) == DaysBeforeMonth(year, 3) + 92;
    assert DaysBeforeMonth(year, 9) == DaysBeforeMonth(year, 6) + 92;
    assert DaysBeforeMonth(year, 11) == DaysBeforeMonth(year, 9) + 61;
    assert DaysBeforeMonth(year, 12) == DaysBeforeMonth(year, 11) + 30;
  }

  /** Calendar order: the fields from the largest down. */
  predicate DateEarlier(a: Instant, b: Instant) {
    || a.year < b.year
    || (a.year == b.year && a.month < b.month)
    || (a.year == b.year && a.month == b.month && a.day < b.day)
  }

  predicate SameDate(a: Instant, b: Instant) {
    a.year == b.year && a.month == b.month && a.day == b.day
  }

  predicate TimeEarlier(a: Instant, b: Instant) {
    || a.hour < b.hour
    || (a.hour == b.hour && a.minute < b.minute)
    || (a.hour == b.hour && a.minute == b.minute && a.second < b.second)
  }

  predicate SameTime(a: Instant, b: Instant) {
    a.hour == b.hour && a.minute == b.minute && a.second == b.second
  }

  lemma DateOrder(a: Instant, b: Instant)
    requires a.Valid() && b.Valid() && DateEarlier(a, b)
    ensures Days(a) < Days(b)
  {
    if a.year < b.year {
      YearsInOrder(a.year, b.year);
      MonthsFit(a.year, a.month);
    } else if a.month < b.month {
      MonthsInOrder(a.year, a.month, b.month);
    }
  }

  predicate Earlier(a: Instant, b: Instant) {
    || DateEarlier(a, b)
    || (SameDate(a, b) && TimeEarlier(a, b))
    || (SameDate(a, b) && SameTime(a, b) && a.micro < b.micro)
  }

  /** The clock and the calendar agree on which of two instants is earlier. */
  lemma ClockIsCalendar(a: Instant, b: Instant)
    requires a.Valid() && b.Valid()
    ensures Micros(a) < Micros(b) <==> Earlier(a, b)
    ensures Micros(a) == Micros(b) <==> a == b
  {
    if DateEarlier(a, b) {
      DateOrder(a, b);
    } else if DateEarlier(b, a) {
      DateOrder(b, a);
    } else {
      assert SameDate(a, b) && Days(a) == Days(b);
    }
  }

  // ------------------------------------------------------------- the string

  function Digit(d: nat): char
    requires d < 10
  {
    ('0' as int + d) as char
  }

  /** `n` on exactly `width` digits. */
  function Fixed(n: nat, width: nat): (s: string)
    ensures |s| == width
  {
    if width == 0 then [] else Fixed(n / 10, width - 1) + [Digit(n % 10)]
  }

  predicate Fits(n: nat, width: nat) {
    if width == 0 then n == 0 else Fits(n / 10, width - 1)
  }

  lemma Widths(n: nat)
    ensures n < 100 ==> Fits(n, 2)
    ensures n < 10_000 ==> Fits(n, 4)
    ensures n < 1_000_000 ==> Fits(n, 6)
  {
    if n < 1_000_000 {
      assert Fits(n / 100_000, 1) <== n / 100_000 / 10 == 0;
      assert n / 10 / 10 / 10 / 10 / 10 / 10 == 0;
      assert Fits(n / 10 / 10 / 10, 3);
    }
    if n < 10_000 {
      assert Fits(n / 10 / 10, 2);
    }
  }

  /** On one width, digit strings compare as their numbers do. */
  lemma {:induction false} FixedOrder(m: nat, n: nat, width: nat)
    requires Fits(m, width) && Fits(n, width)
    ensures Less(Fixed(m, width), Fixed(n, width)) <==> m < n
    ensures Fixed(m, width) == Fixed(n, width) <==> m == n
  {
    if width > 0 {
      var h, k := Fixed(m / 10, width - 1), Fixed(n / 10, width - 1);
      FixedOrder(m / 10, n / 10, width - 1);
      var x, y := [Digit(m % 10)], [Digit(n % 10)];
      assert Less(x, y) <==> m % 10 < n % 10;
      FieldThenRest(h, k, x, y);
      assert (h + x)[..width - 1] == h && (k + y)[..width - 1] == k;
      assert (h + x)[width - 1] == x[0] && (k + y)[width - 1] == y[0];
      assert m == m / 10 * 10 + m % 10 && n == n / 10 * 10 + n % 10;
    }
  }

  lemma FieldThenRest(h: string, k: string, x: string, y: string)
    requires |h| == |k|
    ensures Less(h + x, k + y) == if h == k then Less(x, y) else Less(h, k)
    ensures h + x == k + y <==> h == k && x == y
  {
    if h == k {
      LessAfterPrefix(h, x, y);
    } else {
      LessOnHeads(h, k, x, y);
    }
    if h + x == k + y {
      assert h == (h + x)[..|h|] && x == (h + x)[|h|..];
    }
  }

  function DatePart(i: Instant): string {
    Fixed(i.year, 4) + ("-" + (Fixed(i.month, 2) + ("-" + Fixed(i.day, 2))))
  }

  function TimePart(i: Instant): string {
    Fixed(i.hour, 2) + (":" + (Fixed(i.minute, 2) + (":" + Fixed(i.second, 2))))
  }

  /** The fraction, six digits, left out when it is exactly zero; then the offset. */
  function Tail(micro: nat, offset: string): string {
    if micro == 0 then offset else "." + (Fixed(micro, 6) + offset)
  }

  function IsoFormat(i: Instant, offset: string): string {
    DatePart(i) + ("T" + (TimePart(i) + Tail(i.micro, offset)))
  }

  /** Two fixed-width fields with a separator between them. */
  lemma TwoFields(m: nat, n: nat, width: nat, sep: string, x: string, y: string)
    requires Fits(m, width) && Fits(n, width)
    ensures Less(Fixed(m, width) + (sep + x), Fixed(n, width) + (sep + y)) <==> m < n || (m == n && Less(x, y))
    ensures Fixed(m, width) + (sep + x) == Fixed(n, width) + (sep + y) <==> m == n && x == y
  {
    FixedOrder(m, n, width);
    FieldThenRest(Fixed(m, width), Fixed(n, width), sep + x, sep + y);
    FieldThenRest(sep, sep, x, y);
  }

  lemma DatePartOrder(a: Instant, b: Instant)
    requires a.Valid() && b.Valid()
    ensures Less(DatePart(a), DatePart(b)) <==> DateEarlier(a, b)
    ensures DatePart(a) == DatePart(b) <==> SameDate(a, b)
  {
    Widths(a.year); Widths(b.year); Widths(a.month); Widths(b.month); Widths(a.day); Widths(b.day);
    var x, y := Fixed(a.month, 2) + ("-" + Fixed(a.day, 2)), Fixed(b.month, 2) + ("-" + Fixed(b.day, 2));
    TwoFields(a.year, b.year, 4, "-", x, y);
    TwoFields(a.month, b.month, 2, "-", Fixed(a.day, 2), Fixed(b.day, 2));
    FixedOrder(a.day, b.day, 2);
  }

  lemma TimePartOrder(a: Instant, b: Instant)
    requires a.Valid() && b.Valid()
    ensures Less(TimePart(a), TimePart(b)) <==> TimeEarlier(a, b)
    ensures TimePart(a) == TimePart(b) <==> SameTime(a, b)
  {
    Widths(a.hour); Widths(b.hour); Widths(a.minute); Widths(b.minute); Widths(a.second); Widths(b.second);
    var x, y := Fixed(a.minute, 2) + (":" + Fixed(a.second, 2)), Fixed(b.minute, 2) + (":" + Fixed(b.second, 2));
    TwoFields(a.hour, b.hour, 2, ":", x, y);
    TwoFields(a.minute, b.minute, 2, ":", Fixed(a.second, 2), Fixed(b.second, 2));
    FixedOrder(a.second, b.second, 2);
  }

  lemma SeparatedParts(i: Instant)
    ensures |DatePart(i)| == 10 && |TimePart(i)| == 8
  {
  }

  /** Within one second, an elided fraction reads as the earliest when the offset sorts before a dot. */
  lemma TailOrder(m: nat, n: nat, offset: string)
    requires m < 1_000_000 && n < 1_000_000
    requires offset != [] && offset[0] < '.'
    ensures Less(Tail(m, offset), Tail(n, offset)) <==> m < n
    ensures Tail(m, offset) == Tail(n, offset) <==> m == n
  {
    LessTotal(offset, offset);
    if m != 0 && n != 0 {
      Widths(m); Widths(n);
      FieldThenRest(".", ".", Fixed(m, 6) + offset, Fixed(n, 6) + offset);
      FixedOrder(m, n, 6);
      FieldThenRest(Fixed(m, 6), Fixed(n, 6), offset, offset);
    }
  }

  /** Code-unit order of the strings is the order of the instants. */
  lemma IsoOrderIsTime(a: Instant, b: Instant, offset: string)
    requires a.Valid() && b.Valid()
    requires offset != [] && offset[0] < '.'
    ensures Less(IsoFormat(a, offset), IsoFormat(b, offset)) <==> Micros(a) < Micros(b)
    ensures IsoFormat(a, offset) == IsoFormat(b, offset) <==> a == b
  {
    ClockIsCalendar(a, b);
    SeparatedParts(a); SeparatedParts(b);
    DatePartOrder(a, b);
    TimePartOrder(a, b);
    TailOrder(a.micro, b.micro, offset);
    var x, y := TimePart(a) + Tail(a.micro, offset), TimePart(b) + Tail(b.micro, offset);
    FieldThenRest(DatePart(a), DatePart(b), "T" + x, "T" + y);
    FieldThenRest("T", "T", x, y);
    FieldThenRest(TimePart(a), TimePart(b), Tail(a.micro, offset), Tail(b.micro, offset));
  }

  /** The last digit is the units, and the rest is the rest. */
  lemma Appended(n: nat, width: nat, digit: nat, before: string)
    requires digit < 10 && Fixed(n, width) == before
    ensures Fixed(10 * n + digit, width + 1) == before + [Digit(digit)]
  {
    assert (10 * n + digit) / 10 == n && (10 * n + digit) % 10 == digit;
  }

  lemma YearWritten()
    ensures Fixed(2026, 4) == "2026"
  {
    Appended(0, 0, 2, "");
    Appended(2, 1, 0, "2");
    Appended(20, 2, 2, "20");
    Appended(202, 3, 6, "202");
  }

  lemma FractionWritten()
    ensures Fixed(40_500, 6) == "040500"
  {
    Appended(0, 0, 0, "");
    Appended(0, 1, 4, "0");
    Appended(4, 2, 0, "04");
    Appended(40, 3, 5, "040");
    Appended(405, 4, 0, "0405");
    Appended(4_050, 5, 0, "04050");
  }

  lemma TwoDigits(n: nat, m: nat)
    requires n < 10 && m < 10
    ensures Fixed(10 * n + m, 2) == [Digit(n), Digit(m)]
  {
    Appended(0, 0, n, "");
    Appended(n, 1, m, [Digit(n)]);
  }

  lemma DateWritten()
    ensures DatePart(Instant(2026, 8, 27, 9, 5, 3, 0)) == "2026-08-27"
  {
    YearWritten();
    TwoDigits(0, 8);
    TwoDigits(2, 7);
    assert Fixed(8, 2) == "08" && Fixed(27, 2) == "27";
    assert "2026" + ("-" + ("08" + ("-" + "27"))) == "2026-08-27";
  }

  lemma TimeWritten()
    ensures TimePart(Instant(2026, 8, 27, 9, 5, 3, 0)) == "09:05:03"
  {
    TwoDigits(0, 9);
    TwoDigits(0, 5);
    TwoDigits(0, 3);
    assert Fixed(9, 2) == "09" && Fixed(5, 2) == "05" && Fixed(3, 2) == "03";
    assert "09" + (":" + ("05" + (":" + "03"))) == "09:05:03";
  }

  /** As the backend writes them: the digits of each field in place, the fraction only where there is one. */
  lemma AsWritten(offset: string)
    ensures IsoFormat(Instant(2026, 8, 27, 9, 5, 3, 0), offset) == "2026-08-27" + ("T" + ("09:05:03" + offset))
    ensures Tail(40_500, offset) == "." + ("040500" + offset)
  {
    DateWritten();
    TimeWritten();
    FractionWritten();
  }

  const UTC := "+00:00"

  /** What every timestamp comparison on the console calls. */
  function CompareAt(left: string, right: string): int {
    if Less(left, right) then -1 else if Less(right, left) then 1 else 0
  }

  /** On backend stamps the comparison is the sign of the difference in time. */
  lemma CompareAtIsChronological(a: Instant, b: Instant)
    requires a.Valid() && b.Valid()
    ensures var c := CompareAt(IsoFormat(a, UTC), IsoFormat(b, UTC));
      && (c == -1 <==> Micros(a) < Micros(b))
      && (c == 1 <==> Micros(a) > Micros(b))
      && (c == 0 <==> a == b)
  {
    IsoOrderIsTime(a, b, UTC);
    IsoOrderIsTime(b, a, UTC);
    LessTotal(IsoFormat(a, UTC), IsoFormat(b, UTC));
    ClockIsCalendar(a, b);
  }

  ghost predicate OrderEmbeds(offset: string) {
    forall a: Instant, b: Instant :: a.Valid() && b.Valid() ==>
      (Less(IsoFormat(a, offset), IsoFormat(b, offset)) <==> Micros(a) < Micros(b))
  }

  /** Exactly the offsets that sort before a dot embed time: `+` and `-` do, `Z` does not. */
  lemma OffsetsThatEmbed(offset: string)
    requires offset != [] && offset[0] != '.'
    ensures OrderEmbeds(offset) <==> offset[0] < '.'
  {
    if offset[0] < '.' {
      forall a: Instant, b: Instant | a.Valid() && b.Valid()
        ensures Less(IsoFormat(a, offset), IsoFormat(b, offset)) <==> Micros(a) < Micros(b)
      {
        IsoOrderIsTime(a, b, offset);
      }
    } else {
      var whole := Instant(2026, 8, 27, 8, 0, 3, 0);
      var later := whole.(micro := 1);
      LessAfterPrefix(DatePart(whole), "T" + (TimePart(whole) + offset), "T" + (TimePart(whole) + Tail(1, offset)));
      FieldThenRest("T", "T", TimePart(whole) + offset, TimePart(whole) + Tail(1, offset));
      LessAfterPrefix(TimePart(whole), offset, Tail(1, offset));
      ClockIsCalendar(whole, later);
      assert whole.Valid() && later.Valid() && Micros(whole) < Micros(later);
      assert !Less(IsoFormat(whole, offset), IsoFormat(later, offset));
    }
  }
}
