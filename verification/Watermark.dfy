/**
 Watermarks: the latest `updated_at` of the rows read, found by comparing ISO 8601 texts as strings.

 The texts are `datetime.isoformat()` of UTC times, which drops the fraction when the microseconds
 are zero, so two texts need not have the same length.
 */
module Watermark {
  import opened Arithmetic
  import opened Common
  import opened Ordering
  import opened Decimal

  /** A UTC time as `datetime` holds it. */
  datatype Stamp = Stamp(year: nat, month: nat, day: nat, hour: nat, minute: nat, second: nat, micro: nat) {
    ghost predicate Valid() {
      && 1 <= year <= 9999
      && 1 <= month <= 12
      && 1 <= day <= DaysInMonth(year, month)
      && hour < 24 && minute < 60 && second < 60 && micro < 1_000_000
    }
  }

  predicate Leap(y: nat) { y % 4 == 0 && (y % 100 != 0 || y % 400 == 0) }

  function DaysInMonth(y: nat, m: nat): nat {
    if m == 2 then (if Leap(y) then 29 else 28)
    else if m == 4 || m == 6 || m == 9 || m == 11 then 30
    else 31
  }

  /** Days of the years before y, counted from year 1. */
  function DaysBeforeYear(y: nat): int {
    (y - 1) * 365 + (y - 1) / 4 - (y - 1) / 100 + (y - 1) / 400
  }

  function DaysBeforeMonth(y: nat, m: nat): nat {
    if m <= 1 then 0 else DaysBeforeMonth(y, m - 1) + DaysInMonth(y, m - 1)
  }

  /** The day's number in the proleptic Gregorian calendar. */
  function Day(s: Stamp): int {
    DaysBeforeYear(s.year) + DaysBeforeMonth(s.year, s.month) + s.day
  }

  /** The instant, in microseconds. */
  function Instant(s: Stamp): int {
    (((Day(s) * 24 + s.hour) * 60 + s.minute) * 60 + s.second) * 1_000_000 + s.micro
  }

  /** What follows the seconds: the fraction, if there is one, and the UTC offset. */
  function Tail(micro: nat): string {
    if micro == 0 then "+00:00" else "." + Pad(micro, 6) + "+00:00"
  }

  function Clock(s: Stamp): string {
    Pad(s.hour, 2) + (":" + (Pad(s.minute, 2) + (":" + (Pad(s.second, 2) + Tail(s.micro)))))
  }

  /** `value.astimezone(timezone.utc).isoformat()` */
  function Iso(s: Stamp): string {
    Pad(s.year, 4) + ("-" + (Pad(s.month, 2) + ("-" + (Pad(s.day, 2) + ("T" + Clock(s))))))
  }

  /** `max` over the texts that are present and not empty. */
  function Latest(texts: seq<Option<string>>): Option<string> {
    if texts == [] then None
    else
      var best, text := Latest(texts[..|texts| - 1]), texts[|texts| - 1];
      if text.None? || text.value == "" then best
      else if best.None? || Less(best.value, text.value) then text
      else best
  }

  // ----- calendar -----

  lemma YearsInOrder(y: nat, z: nat)
    requires 1 <= y < z
    ensures DaysBeforeYear(y) + DaysBeforeMonth(y, 12) + 31 <= DaysBeforeYear(z)
    decreases z - y
  {
    MonthTable(y);
    if z == y + 1 {
      YearLength(y);
    } else {
      YearsInOrder(y, z - 1);
      YearsInOrder(z - 1, z);
    }
  }

  lemma YearLength(y: nat)
    requires y >= 1
    ensures DaysBeforeYear(y + 1) == DaysBeforeYear(y) + (if Leap(y) then 366 else 365)
  {
    NextMultiple(y - 1, 4);
    NextMultiple(y - 1, 100);
    NextMultiple(y - 1, 400);
    MultiplesOfMultiples(y);
  }

  lemma MultiplesOfMultiples(y: nat)
    ensures y % 400 == 0 ==> y % 100 == 0
    ensures y % 100 == 0 ==> y % 4 == 0
  {
    if y % 400 == 0 { QuotientIs(y, 100, 4 * (y / 400)); }
    if y % 100 == 0 { QuotientIs(y, 4, 25 * (y / 100)); }
  }

  lemma MonthTable(y: nat)
    ensures DaysBeforeMonth(y, 12) == (if Leap(y) then 335 else 334)
  {
    assert DaysBeforeMonth(y, 2) == 31;
    assert DaysBeforeMonth(y, 3) == 31 + DaysInMonth(y, 2);
    assert DaysBeforeMonth(y, 5) == DaysBeforeMonth(y, 3) + 61;
    assert DaysBeforeMonth(y, 7) == DaysBeforeMonth(y, 5) + 61;
    assert DaysBeforeMonth(y, 9) == DaysBeforeMonth(y, 7) + 62;
    assert DaysBeforeMonth(y, 11) == DaysBeforeMonth(y, 9) + 61;
  }

  lemma {:induction false} MonthsInOrder(y: nat, m: nat, n: nat)
    requires 1 <= m < n
    ensures DaysBeforeMonth(y, m) + DaysInMonth(y, m) <= DaysBeforeMonth(y, n)
    decreases n
  {
    if n > m + 1 {
      MonthsInOrder(y, m, n - 1);
    }
  }

  /** Year, month and day decide the day's number in that order of weight. */
  ghost predicate DateBefore(s: Stamp, t: Stamp) {
    s.year < t.year || (s.year == t.year && (s.month < t.month || (s.month == t.month && s.day < t.day)))
  }

  lemma DatesInOrder(s: Stamp, t: Stamp)
    requires s.Valid() && t.Valid() && DateBefore(s, t)
    ensures Day(s) < Day(t)
  {
    if s.month < 12 { MonthsInOrder(s.year, s.month, 12); }
    if s.year < t.year {
      YearsInOrder(s.year, t.year);
    } else if s.month < t.month {
      MonthsInOrder(s.year, s.month, t.month);
    }
  }

  // ----- text order is time order -----

  lemma TailOrder(a: nat, b: nat)
    requires a < 1_000_000 && b < 1_000_000
    ensures Less(Tail(a), Tail(b)) == (a < b)
  {
    LessTrichotomy("+00:00", "+00:00");
    if a > 0 && b > 0 {
      assert Tail(a) == "." + (Pad(a, 6) + "+00:00") && Tail(b) == "." + (Pad(b, 6) + "+00:00");
      LessAfterPrefix(".", Pad(a, 6) + "+00:00", Pad(b, 6) + "+00:00");
      SixDigits();
      FieldOrder(a, b, 6, "+00:00", "+00:00");
    } else {
      assert Tail(a)[0] == (if a == 0 then '+' else '.');
      assert Tail(b)[0] == (if b == 0 then '+' else '.');
    }
  }

  lemma SixDigits()
    ensures Power10(6) == 1_000_000 && Power10(4) == 10_000 && Power10(2) == 100
  {
    assert Power10(2) == 100;
    assert Power10(4) == 10_000;
  }

  ghost function SecondOfDay(s: Stamp): int { (s.hour * 60 + s.minute) * 60 + s.second }

  lemma ClockOrder(s: Stamp, t: Stamp)
    requires s.Valid() && t.Valid()
    ensures Less(Clock(s), Clock(t))
            == (SecondOfDay(s) < SecondOfDay(t) || (SecondOfDay(s) == SecondOfDay(t) && s.micro < t.micro))
  {
    SixDigits();
    var s2, t2 := Pad(s.second, 2) + Tail(s.micro), Pad(t.second, 2) + Tail(t.micro);
    var s1, t1 := Pad(s.minute, 2) + (":" + s2), Pad(t.minute, 2) + (":" + t2);
    TailOrder(s.micro, t.micro);
    FieldOrder(s.second, t.second, 2, Tail(s.micro), Tail(t.micro));
    LessAfterPrefix(":", s2, t2);
    FieldOrder(s.minute, t.minute, 2, ":" + s2, ":" + t2);
    LessAfterPrefix(":", s1, t1);
    FieldOrder(s.hour, t.hour, 2, ":" + s1, ":" + t1);
  }

  /** For UTC times of the years 1 to 9999, comparing the texts compares the instants. */
  lemma IsoOrderIsTimeOrder(s: Stamp, t: Stamp)
    requires s.Valid() && t.Valid()
    ensures Less(Iso(s), Iso(t)) <==> Instant(s) < Instant(t)
  {
    SixDigits();
    var s3, t3 := "T" + Clock(s), "T" + Clock(t);
    var s2, t2 := Pad(s.day, 2) + s3, Pad(t.day, 2) + t3;
    var s1, t1 := Pad(s.month, 2) + ("-" + s2), Pad(t.month, 2) + ("-" + t2);
    ClockOrder(s, t);
    LessAfterPrefix("T", Clock(s), Clock(t));
    FieldOrder(s.day, t.day, 2, s3, t3);
    LessAfterPrefix("-", s2, t2);
    FieldOrder(s.month, t.month, 2, "-" + s2, "-" + t2);
    LessAfterPrefix("-", s1, t1);
    FieldOrder(s.year, t.year, 4, "-" + s1, "-" + t1);
    if DateBefore(s, t) { DatesInOrder(s, t); }
    if DateBefore(t, s) { DatesInOrder(t, s); }
    assert Instant(s) == (Day(s) * 86_400 + SecondOfDay(s)) * 1_000_000 + s.micro;
    assert Instant(t) == (Day(t) * 86_400 + SecondOfDay(t)) * 1_000_000 + t.micro;
  }

  predicate Present(texts: seq<Option<string>>, i: int) {
    0 <= i < |texts| && texts[i].Some? && texts[i].value != ""
  }

  lemma {:induction false} LatestIsMaximum(texts: seq<Option<string>>) returns (i: int)
    ensures Latest(texts).None? ==> forall j :: !Present(texts, j)
    ensures Latest(texts).Some? ==>
              Present(texts, i) && texts[i] == Latest(texts)
              && forall j :: Present(texts, j) ==> !Less(texts[i].value, texts[j].value)
  {
    i := 0;
    if texts != [] {
      var n := |texts| - 1;
      var front := texts[..n];
      i := LatestIsMaximum(front);
      assert forall j :: Present(texts, j) && j < n ==> Present(front, j) && front[j] == texts[j];
      if Present(texts, n) {
        var text := texts[n].value;
        LessTrichotomy(text, text);
        if Latest(front).Some? && Less(Latest(front).value, text) {
          forall j | Present(front, j) ensures !Less(text, front[j].value) {
            if Less(text, front[j].value) { LessTransitive(Latest(front).value, text, front[j].value); }
          }
        }
        i := if Latest(front).None? || Less(Latest(front).value, text) then n else i;
      }
    }
  }

  /** The `updated_at` texts of the rows: the rows without the column have none. */
  ghost predicate TextsOf(texts: seq<Option<string>>, stamps: seq<Option<Stamp>>) {
    && |texts| == |stamps|
    && forall i :: 0 <= i < |stamps| ==>
         texts[i] == if stamps[i].Some? then Some(Iso(stamps[i].value)) else None
  }

  ghost predicate LatestAt(stamps: seq<Option<Stamp>>, i: int) {
    && 0 <= i < |stamps| && stamps[i].Some?
    && forall j :: 0 <= j < |stamps| && stamps[j].Some? ==> Instant(stamps[j].value) <= Instant(stamps[i].value)
  }

  /**
   The watermark is the chronological maximum: there is none exactly when no row has the column, and
   otherwise it is the text of one of the rows' times, and no row's time is later.
   */
  lemma LatestIsChronologicalMaximum(texts: seq<Option<string>>, stamps: seq<Option<Stamp>>)
    requires TextsOf(texts, stamps)
    requires forall i :: 0 <= i < |stamps| && stamps[i].Some? ==> stamps[i].value.Valid()
    ensures Latest(texts).None? <==> forall i :: 0 <= i < |stamps| ==> stamps[i].None?
    ensures Latest(texts).Some? ==> exists i :: LatestAt(stamps, i) && Latest(texts).value == Iso(stamps[i].value)
  {
    var i := LatestIsMaximum(texts);
    forall j | 0 <= j < |stamps| && stamps[j].Some? ensures Present(texts, j) {
      PadLength(stamps[j].value.year, 4);
    }
    if Latest(texts).Some? {
      forall j | 0 <= j < |stamps| && stamps[j].Some?
        ensures Instant(stamps[j].value) <= Instant(stamps[i].value)
      {
        assert Present(texts, j);
        IsoOrderIsTimeOrder(stamps[i].value, stamps[j].value);
      }
      assert LatestAt(stamps, i);
    }
  }
}
