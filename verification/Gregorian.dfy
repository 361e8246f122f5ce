// The proleptic Gregorian calendar in closed form. Everything here is a
// reference definition: the code in GMTime and MkTime is proved against it.
module Gregorian {
  import opened CInt

  // tm_year counts from 1900 and tm_mon from 0, as in C's struct tm.
  datatype Fields = Fields(sec: int, min: int, hour: int, mday: int, mon: int, year: int,
                           wday: int, yday: int, isdst: int)

  predicate IsLeap(y: int) {
    y % 4 == 0 && (y % 100 != 0 || y % 400 == 0)
  }

  function YearLength(y: int): int {
    if IsLeap(y) then 366 else 365
  }

  function MonthLength(y: int, m: int): int {
    if m == 1 then (if IsLeap(y) then 29 else 28)
    else if m == 3 || m == 5 || m == 8 || m == 10 then 30 else 31
  }

  // Leap years up to and including y; negative before year 0. Division floors.
  function LeapsThrough(y: int): int {
    y / 4 - y / 100 + y / 400
  }

  // Days from 1970-01-01 to January 1st of year y.
  function DaysBeforeYear(y: int): int {
    365 * (y - 1970) + LeapsThrough(y - 1) - 477
  }

  // Days from January 1st to the first day of month m (0 to 12) of year y.
  function DaysBeforeMonth(y: int, m: int): int
    decreases m
  {
    if m <= 0 then 0 else DaysBeforeMonth(y, m - 1) + MonthLength(y, m - 1)
  }

  // A floored quotient goes up by one exactly at the multiples of the divisor.
  lemma QuotientStep(y: int)
    ensures y / 4 == (y - 1) / 4 + (if y % 4 == 0 then 1 else 0)
    ensures y / 100 == (y - 1) / 100 + (if y % 100 == 0 then 1 else 0)
    ensures y / 400 == (y - 1) / 400 + (if y % 400 == 0 then 1 else 0)
  {
  }

  lemma NestedMultiples(y: int)
    ensures y % 400 == 0 ==> y % 100 == 0
    ensures y % 100 == 0 ==> y % 4 == 0
  {
  }

  lemma NextYear(y: int)
    ensures DaysBeforeYear(y + 1) == DaysBeforeYear(y) + YearLength(y)
  {
    QuotientStep(y);
    NestedMultiples(y);
  }

  lemma NextMonthStart(y: int, m: int)
    requires 0 <= m
    ensures DaysBeforeMonth(y, 0) == 0
    ensures DaysBeforeMonth(y, m + 1) == DaysBeforeMonth(y, m) + MonthLength(y, m)
  {
  }

  lemma {:induction false} MonthsFillYear(y: int)
    ensures DaysBeforeMonth(y, 12) == YearLength(y)
  {
    assert DaysBeforeMonth(y, 2) == 31 + MonthLength(y, 1);
    assert DaysBeforeMonth(y, 4) == 31 + MonthLength(y, 1) + 61;
    assert DaysBeforeMonth(y, 6) == 31 + MonthLength(y, 1) + 122;
    assert DaysBeforeMonth(y, 8) == 31 + MonthLength(y, 1) + 184;
    assert DaysBeforeMonth(y, 10) == 31 + MonthLength(y, 1) + 245;
  }

  // The months, in closed form: 30.6 days each, less the days February lacks.
  lemma {:induction false} MonthStartClosed(y: int, m: int)
    requires 0 <= m <= 11
    ensures DaysBeforeMonth(y, m) ==
            (367 * (m + 1) - 362) / 12 + (if m <= 1 then 0 else if IsLeap(y) then -1 else -2)
    ensures MonthLength(y, m) == if m == 1 then (if IsLeap(y) then 29 else 28) else if m in {3, 5, 8, 10} then 30 else 31
  {
    hide IsLeap;
    if m > 0 { MonthStartClosed(y, m - 1); }
  }

  lemma {:induction false} YearSpan(a: int, b: int)
    requires a <= b
    ensures 365 * (b - a) <= DaysBeforeYear(b) - DaysBeforeYear(a) <= 366 * (b - a)
    decreases b - a
  {
    if a < b {
      YearSpan(a, b - 1);
      NextYear(b - 1);
    }
  }

  lemma {:induction false} MonthOrder(y: int, m: int, k: int)
    requires m <= k
    ensures DaysBeforeMonth(y, m) <= DaysBeforeMonth(y, k)
    ensures 0 <= m < k ==> DaysBeforeMonth(y, m) + MonthLength(y, m) <= DaysBeforeMonth(y, k)
    decreases k - m
  {
    if m < k {
      MonthOrder(y, m, k - 1);
    }
  }

  predicate InYear(d: int, y: int) {
    DaysBeforeYear(y) <= d < DaysBeforeYear(y + 1)
  }

  lemma {:induction false} FindYear(d: int) returns (y: int)
    ensures InYear(d, y)
    decreases if d >= 0 then d else -d
  {
    if 0 <= d < 365 {
      y := 1970;
    } else if d > 0 {
      y := FindYear(d - 1);
      NextYear(y + 1);
      if d == DaysBeforeYear(y + 1) { y := y + 1; }
    } else {
      y := FindYear(d + 1);
      NextYear(y - 1);
      if d < DaysBeforeYear(y) { y := y - 1; }
    }
  }

  lemma YearExists(d: int)
    ensures exists y :: InYear(d, y)
  {
    var y := FindYear(d);
  }

  // The year that day number d falls in.
  ghost function YearOf(d: int): (y: int)
    ensures InYear(d, y)
  {
    YearExists(d);
    var y :| InYear(d, y);
    y
  }

  lemma {:induction false} YearOfIs(d: int, y: int)
    requires InYear(d, y)
    ensures YearOf(d) == y
  {
    var z := YearOf(d);
    if z < y { YearSpan(z + 1, y); } else if y < z { YearSpan(y + 1, z); }
  }

  lemma {:induction false} YearOfMonotone(d: int, e: int)
    requires d <= e
    ensures YearOf(d) <= YearOf(e)
  {
    var y, z := YearOf(d), YearOf(e);
    if z < y { YearSpan(z + 1, y); }
  }

  // The month, counting from m, that holds day number d of year y.
  function MonthFrom(y: int, m: int, d: int): int
    decreases 11 - m
  {
    if m >= 11 || d < DaysBeforeMonth(y, m + 1) then m else MonthFrom(y, m + 1, d)
  }

  lemma {:induction false} MonthFromIs(y: int, m: int, d: int)
    requires 0 <= m <= 11 && DaysBeforeMonth(y, m) <= d < YearLength(y)
    ensures m <= MonthFrom(y, m, d) <= 11
    ensures DaysBeforeMonth(y, MonthFrom(y, m, d)) <= d < DaysBeforeMonth(y, MonthFrom(y, m, d) + 1)
    decreases 11 - m
  {
    if m >= 11 {
      MonthsFillYear(y);
    } else if d >= DaysBeforeMonth(y, m + 1) {
      MonthFromIs(y, m + 1, d);
    }
  }

  lemma {:induction false} MonthUnique(y: int, m: int, k: int, d: int)
    requires 0 <= m <= 11 && DaysBeforeMonth(y, m) <= d < DaysBeforeMonth(y, m + 1)
    requires 0 <= k <= 11 && DaysBeforeMonth(y, k) <= d < DaysBeforeMonth(y, k + 1)
    ensures m == k
  {
    if m < k { MonthOrder(y, m + 1, k); } else if k < m { MonthOrder(y, k + 1, m); }
  }

  // The broken-down time of second t, straight from the calendar: floor
  // division into days, then year, month and day of month; day 0 is a Thursday.
  ghost function GmFields(t: int): Fields {
    var d, s := t / 86400, t % 86400;
    var y := YearOf(d);
    var yd := d - DaysBeforeYear(y);
    var m := MonthFrom(y, 0, yd);
    Fields(s % 60, s / 60 % 60, s / 3600, yd - DaysBeforeMonth(y, m) + 1, m, y - 1900, (d + 4) % 7, yd, 0)
  }

  // Every field in its calendar range, and weekday and day of year consistent
  // with the date.
  predicate Canonical(f: Fields) {
    && 0 <= f.sec < 60 && 0 <= f.min < 60 && 0 <= f.hour < 24
    && 0 <= f.mon <= 11 && 1 <= f.mday <= MonthLength(f.year + 1900, f.mon)
    && f.yday == DaysBeforeMonth(f.year + 1900, f.mon) + f.mday - 1
    && f.wday == (DaysBeforeYear(f.year + 1900) + f.yday + 4) % 7
    && f.isdst == 0
  }

  // Section 4.16 "Seconds Since the Epoch" of IEEE Std 1003.1-2017, on the
  // proleptic calendar: the divisions floor, so years before 1970 work too.
  function EpochSeconds(f: Fields): int {
    f.sec + f.min * 60 + f.hour * 3600 + f.yday * 86400 +
    (f.year - 70) * 31536000 + ((f.year - 69) / 4) * 86400 -
    ((f.year - 1) / 100) * 86400 + ((f.year + 299) / 400) * 86400
  }

  // The standard's formula counts whole days before the year, then seconds.
  lemma EpochSecondsByDays(f: Fields)
    ensures EpochSeconds(f) ==
            (DaysBeforeYear(f.year + 1900) + f.yday) * 86400 + f.hour * 3600 + f.min * 60 + f.sec
  {
    var y := f.year + 1900;
    assert (f.year - 69) / 4 == (y - 1) / 4 - 492;
    assert (f.year - 1) / 100 == (y - 1) / 100 - 19;
    assert (f.year + 299) / 400 == (y - 1) / 400 - 4;
  }

  // GmFields is the calendar's inverse of the standard's formula.
  lemma {:induction false} GmFieldsCorrect(t: int)
    ensures Canonical(GmFields(t))
    ensures EpochSeconds(GmFields(t)) == t
  {
    hide DaysBeforeYear, DaysBeforeMonth, MonthLength, IsLeap, YearOf, MonthFrom, EpochSeconds;
    var d, s := t / 86400, t % 86400;
    var y := YearOf(d);
    NextYear(y);
    NextMonthStart(y, 0);
    MonthFromIs(y, 0, d - DaysBeforeYear(y));
    NextMonthStart(y, MonthFrom(y, 0, d - DaysBeforeYear(y)));
    EpochSecondsByDays(GmFields(t));
    JoinClock(s);
  }

  lemma SplitDay(t: int, d: int, s: int)
    requires t == d * 86400 + s && 0 <= s < 86400
    ensures t / 86400 == d && t % 86400 == s
  {
  }

  lemma JoinClock(s: int)
    requires 0 <= s < 86400
    ensures s == s / 3600 * 3600 + s / 60 % 60 * 60 + s % 60 && 0 <= s / 3600 < 24
  {
  }

  lemma SplitClock(f: Fields)
    requires 0 <= f.sec < 60 && 0 <= f.min < 60 && 0 <= f.hour < 24
    ensures var s := f.hour * 3600 + f.min * 60 + f.sec;
            s % 60 == f.sec && s / 60 % 60 == f.min && s / 3600 == f.hour
  {
    assert (f.hour * 3600 + f.min * 60 + f.sec) / 60 == f.hour * 60 + f.min;
  }

  // ... and the only one: a canonical date and time is the date of its second.
  lemma {:induction false} GmFieldsUnique(f: Fields)
    requires Canonical(f)
    ensures GmFields(EpochSeconds(f)) == f
  {
    hide DaysBeforeYear, DaysBeforeMonth, MonthLength, IsLeap, YearOf, MonthFrom, EpochSeconds;
    NextMonthStart(f.year + 1900, f.mon);
    var t := EpochSeconds(f);
    var y := f.year + 1900;
    var d := DaysBeforeYear(y) + f.yday;
    var s := f.hour * 3600 + f.min * 60 + f.sec;
    EpochSecondsByDays(f);
    SplitDay(t, d, s);
    SplitClock(f);
    MonthsFillYear(y);
    MonthOrder(y, f.mon + 1, 12);
    MonthOrder(y, 0, f.mon);
    NextYear(y);
    YearOfIs(d, y);
    MonthFromIs(y, 0, f.yday);
    MonthUnique(y, f.mon, MonthFrom(y, 0, f.yday), f.yday);
  }
}
