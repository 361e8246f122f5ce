// gmtime: seconds since the epoch to a broken-down time.
module GMTime {
  import opened CInt
  import opened Gregorian

  // C's struct tm, written through pointers.
  class Tm {
    var sec: int
    var min: int
    var hour: int
    var mday: int
    var mon: int
    var year: int
    var wday: int
    var yday: int
    var isdst: int

    constructor (f: Fields)
      ensures Value() == f
    {
      sec, min, hour, mday, mon, year := f.sec, f.min, f.hour, f.mday, f.mon, f.year;
      wday, yday, isdst := f.wday, f.yday, f.isdst;
    }

    function Value(): Fields
      reads this
    {
      Fields(sec, min, hour, mday, mon, year, wday, yday, isdst)
    }
  }

  function LeapsThruEndOf(y: int): int
    decreases y < 0
  {
    if y >= 0 then y / 4 - y / 100 + y / 400 else -(LeapsThruEndOf(-(y + 1)) + 1)
  }

  // The reflected definition is the floored leap count on all integers.
  lemma LeapsThruEndOfIsFloored(y: int)
    ensures LeapsThruEndOf(y) == LeapsThrough(y)
  {
    if y < 0 {
      var z := -(y + 1);
      assert y / 4 == -(z / 4) - 1;
      assert y / 100 == -(z / 100) - 1;
      assert y / 400 == -(z / 400) - 1;
    }
  }

  // Adds j to i, unless the sum is not an int: then i stays as it is.
  method IncrementOverflow(i: int, j: int) returns (sum: int, overflow: bool)
    requires IsInt(i) && IsInt(j)
    ensures overflow <==> !IsInt(i + j)
    ensures sum == if overflow then i else i + j
  {
    sum := i;
    if (if i >= 0 then j > INT_MAX - i else j < INT_MIN - i) {
      return i, true;
    }
    sum := sum + j;
    overflow := false;
  }

  ghost function YearOfSecond(t: int): int {
    YearOf(t / 86400)
  }

  // The seconds whose year, less 1900, fits tm_year and whose year fits an int.
  ghost predicate Representable(t: int) {
    INT_MIN + 1900 <= YearOfSecond(t) <= INT_MAX
  }

  // What a failed conversion leaves in its output: the full year, not yet
  // reduced by 1900, when that year is an int but its offset is not.
  ghost function AfterFailure(f: Fields, t: int): Fields {
    if INT_MIN <= YearOfSecond(t) < INT_MIN + 1900 then f.(year := YearOfSecond(t)) else f
  }

  // The number of years the loop in TimeSub moves for an excess of tdays.
  function YearGuess(tdays: int): int {
    var k := TruncDiv(tdays, 366);
    if k == 0 then (if tdays < 0 then -1 else 1) else k
  }

  // A guess moves toward the year of day d and never past it.
  lemma {:induction false} GuessNeverOvershoots(d: int, y: int)
    requires !InYear(d, y)
    ensures var n := y + YearGuess(d - DaysBeforeYear(y)); y < n <= YearOf(d) || YearOf(d) <= n < y
  {
    hide DaysBeforeYear, IsLeap, YearOf;
    var tdays := d - DaysBeforeYear(y);
    var n := y + YearGuess(tdays);
    NextYear(y);
    if tdays >= 0 {
      assert tdays >= 365 && n > y;
      YearSpan(y, n);
      if n == y + 1 { assert d >= DaysBeforeYear(n); } else { assert 366 * (n - y) <= tdays; }
      if YearOf(d) < n { YearSpan(YearOf(d) + 1, n); }
    } else {
      assert n < y;
      YearSpan(n, y);
      NextYear(n);
      if n < YearOf(d) { YearSpan(n + 1, YearOf(d)); }
    }
  }

  // An excess too large for an int puts the year outside the int range.
  lemma {:induction false} HugeExcess(d: int, y: int)
    requires !InYear(d, y)
    requires if d >= 0 then y >= 1970 else y <= 1970
    requires d >= DaysBeforeYear(y) <==> d >= 0
    requires !IsInt(TruncDiv(d - DaysBeforeYear(y), 366))
    ensures if d >= 0 then YearOf(d) > INT_MAX else YearOf(d) < INT_MIN
  {
    GuessNeverOvershoots(d, y);
    if d < 0 {
      YearSpan(y, 1970);
      assert DaysBeforeYear(INT_MIN) > -366 * 0x8000_0001 >= d;
      if YearOf(d) >= INT_MIN { YearSpan(INT_MIN, YearOf(d)); }
    }
  }

  lemma Weekday(y: int, idays: int)
    ensures var w := TruncMod(4 + TruncMod(y - 1970, 7) * (365 % 7) + LeapsThruEndOf(y - 1) - LeapsThruEndOf(1969)
                              + idays, 7);
            (if w < 0 then w + 7 else w) == (DaysBeforeYear(y) + idays + 4) % 7
  {
    LeapsThruEndOfIsFloored(y - 1);
    LeapsThruEndOfIsFloored(1969);
    var q := TruncDiv(y - 1970, 7);
    var n := 4 + TruncMod(y - 1970, 7) + LeapsThrough(y - 1) - 477 + idays;
    var m := DaysBeforeYear(y) + idays + 4;
    assert m - n == 7 * (52 * (y - 1970) + q);
    SameResidue(n, m, 52 * (y - 1970) + q);
  }

  lemma SameResidue(n: int, m: int, k: int)
    requires m - n == 7 * k
    ensures var w := TruncMod(n, 7); (if w < 0 then w + 7 else w) == m % 7
  {
    assert m / 7 == n / 7 + k;
  }

  // Between the epoch and the year of day d, counted either way.
  ghost predicate OnTheWay(d: int, y: int) {
    if d >= 0 then 1970 <= y <= YearOf(d) else YearOf(d) <= y <= 1970
  }

  lemma GuessStep(d: int, y: int)
    requires OnTheWay(d, y) && !InYear(d, y)
    ensures var n := y + YearGuess(d - DaysBeforeYear(y));
            OnTheWay(d, n) && (if d >= 0 then y < n else n < y)
    ensures d >= DaysBeforeYear(y) <==> d >= 0
  {
    GuessNeverOvershoots(d, y);
    if d >= 0 { YearSpan(y, YearOf(d)); } else if YearOf(d) < y { YearSpan(YearOf(d) + 1, y); }
  }

  lemma StartOnTheWay(d: int)
    ensures OnTheWay(d, 1970)
  {
    YearOfIs(0, 1970);
    YearOfMonotone(if d >= 0 then 0 else d, if d >= 0 then d else 0);
  }

  lemma LeapDays(y: int, n: int)
    ensures 365 * (n - y) + (LeapsThruEndOf(n - 1) - LeapsThruEndOf(y - 1)) == DaysBeforeYear(n) - DaysBeforeYear(y)
  {
    LeapsThruEndOfIsFloored(n - 1);
    LeapsThruEndOfIsFloored(y - 1);
  }

  // timesub, first stage: the year of a day count, by guess and correct.
  method GuessYear(d: int) returns (found: bool, y: int, tdays: int)
    ensures found ==> y == YearOf(d) && tdays == d - DaysBeforeYear(y) && IsInt(y)
    ensures found <==> IsInt(YearOf(d))
  {
    assert DaysBeforeYear(1970) == 0;
    hide DaysBeforeYear, IsLeap, YearOf, LeapsThruEndOf, OnTheWay;
    y := 1970;
    tdays := d;
    StartOnTheWay(d);
    while tdays < 0 || tdays >= YearLength(y)
      invariant IsInt(y) && tdays == d - DaysBeforeYear(y) && OnTheWay(d, y)
      decreases if YearOf(d) > y then YearOf(d) - y else y - YearOf(d)
    {
      NextYear(y);
      GuessStep(d, y);
      var tdelta := TruncDiv(tdays, 366);
      if tdelta > INT_MAX || tdelta < INT_MIN {
        HugeExcess(d, y);
        return false, y, tdays;
      }
      var idelta := tdelta;
      if idelta == 0 {
        idelta := if tdays < 0 then -1 else 1;
      }
      var newy, overflow := IncrementOverflow(y, idelta);
      if overflow {
        return false, y, tdays;
      }
      var leapdays := LeapsThruEndOf(newy - 1) - LeapsThruEndOf(y - 1);
      LeapDays(y, newy);
      tdays := tdays - (newy - y) * 365;
      tdays := tdays - leapdays;
      y := newy;
    }
    NextYear(y);
    YearOfIs(d, y);
    found := true;
  }

  // timesub, second stage: carry whole days between the seconds, the day of
  // the year and the year until each is in range.
  method Settle(y0: int, idays0: int, rem0: int) returns (found: bool, y: int, idays: int, rem: int)
    requires IsInt(y0)
    ensures var n := (DaysBeforeYear(y0) + idays0) * 86400 + rem0;
            && (found ==> y == YearOfSecond(n) && idays == n / 86400 - DaysBeforeYear(y) && rem == n % 86400)
            && (found <==> IsInt(YearOfSecond(n)))
    ensures found ==> 0 <= idays < YearLength(y) && 0 <= rem < 86400 && IsInt(y)
  {
    hide DaysBeforeYear, IsLeap, YearOf;
    ghost var n := (DaysBeforeYear(y0) + idays0) * 86400 + rem0;
    y, idays, rem := y0, idays0, rem0;
    while rem < 0
      invariant (DaysBeforeYear(y) + idays) * 86400 + rem == n
    {
      rem := rem + 86400;
      idays := idays - 1;
    }
    while rem >= 86400
      invariant rem >= 0 && (DaysBeforeYear(y) + idays) * 86400 + rem == n
    {
      rem := rem - 86400;
      idays := idays + 1;
    }
    ghost var day := DaysBeforeYear(y) + idays;
    SplitDay(n, day, rem);
    while idays < 0
      invariant IsInt(y) && DaysBeforeYear(y) + idays == day
    {
      NextYear(y - 1);
      if YearOf(day) >= y { YearSpan(y, YearOf(day)); }
      var overflow;
      y, overflow := IncrementOverflow(y, -1);
      if overflow {
        return false, y, idays, rem;
      }
      idays := idays + YearLength(y);
    }
    while idays >= YearLength(y)
      invariant IsInt(y) && idays >= 0 && DaysBeforeYear(y) + idays == day
    {
      NextYear(y);
      if YearOf(day) <= y { YearSpan(YearOf(day) + 1, y + 1); }
      idays := idays - YearLength(y);
      var overflow;
      y, overflow := IncrementOverflow(y, 1);
      if overflow {
        return false, y, idays, rem;
      }
    }
    NextYear(y);
    YearOfIs(day, y);
    found := true;
  }

  // timesub, third stage: write the fields of second n of the calendar.
  method WriteFields(y: int, yd: int, s: int, ghost n: int, tmp: Tm) returns (found: bool)
    requires y == YearOfSecond(n) && yd == n / 86400 - DaysBeforeYear(y) && s == n % 86400
    requires 0 <= yd < YearLength(y) && IsInt(y)
    modifies tmp
    ensures found <==> Representable(n)
    ensures tmp.Value() == if found then GmFields(n) else AfterFailure(old(tmp.Value()), n)
  {
    hide DaysBeforeYear, DaysBeforeMonth, IsLeap, YearOf, LeapsThruEndOf, MonthFrom;
    var idays, rem := yd, s;
    tmp.year := y;
    var overflow;
    tmp.year, overflow := IncrementOverflow(tmp.year, -1900);
    if overflow {
      return false;
    }
    tmp.yday := idays;
    tmp.wday := 4 + TruncMod(y - 1970, 7) * (365 % 7) + LeapsThruEndOf(y - 1) - LeapsThruEndOf(1969) + idays;
    Weekday(y, idays);
    tmp.wday := TruncMod(tmp.wday, 7);
    if tmp.wday < 0 {
      tmp.wday := tmp.wday + 7;
    }
    tmp.hour := rem / 3600;
    rem := rem % 3600;
    tmp.min := rem / 60;
    tmp.sec := rem % 60;
    Minutes(s);
    tmp.mon, tmp.mday := MonthAndDay(y, idays);
    tmp.isdst := 0;
    return true;
  }

  // The month-walking loop that ends timesub.
  method MonthAndDay(y: int, yd: int) returns (mon: int, mday: int)
    requires 0 <= yd < YearLength(y)
    ensures mon == MonthFrom(y, 0, yd) && mday == yd - DaysBeforeMonth(y, mon) + 1
  {
    var idays := yd;
    mon := 0;
    MonthsFillYear(y);
    while idays >= MonthLength(y, mon)
      invariant 0 <= mon <= 11 && idays >= 0
      invariant DaysBeforeMonth(y, mon) + idays == yd
      decreases 12 - mon
    {
      idays := idays - MonthLength(y, mon);
      mon := mon + 1;
    }
    mday := idays + 1;
    MonthFromIs(y, 0, yd);
    MonthUnique(y, mon, MonthFrom(y, 0, yd), yd);
  }

  lemma Minutes(s: int)
    ensures s % 3600 / 60 == s / 60 % 60 && s % 3600 % 60 == s % 60
  {
    assert s == 3600 * (s / 3600) + s % 3600;
    assert s / 60 == 60 * (s / 3600) + s % 3600 / 60;
  }

  // Truncating a negative second count can only name a later day, so the year
  // of the truncated day leaves the int range no sooner than the true year.
  lemma TruncatedDay(t: int)
    requires IsTime(t)
    ensures var d := TruncDiv(t, 86400);
            && (IsInt(YearOf(t / 86400)) ==> IsInt(YearOf(d)))
            && (t >= 0 || YearOf(t / 86400) <= YearOf(d) <= 1970)
  {
    var d := TruncDiv(t, 86400);
    YearOfIs(0, 1970);
    if t < 0 {
      YearOfMonotone(t / 86400, d);
      YearOfMonotone(d, 0);
    }
  }

  // timesub. Both callers pass offset 0.
  method TimeSub(t: int, offset: int, tmp: Tm) returns (found: bool)
    requires IsTime(t)
    modifies tmp
    ensures found ==> tmp.Value() == GmFields(t + offset)
    ensures offset == 0 ==> (found <==> Representable(t))
    ensures offset == 0 && !found ==> tmp.Value() == AfterFailure(old(tmp.Value()), t)
  {
    hide DaysBeforeYear, IsLeap, YearOf, GmFields;
    var tdays := TruncDiv(t, 86400);
    var rem := t - tdays * 86400;
    TruncatedDay(t);
    var ok, y, idays := GuessYear(tdays);
    if !ok {
      return false;
    }
    NextYear(y);
    var seconds := idays * 86400;
    idays := TruncDiv(seconds, 86400);
    rem := rem + (seconds - idays * 86400);
    rem := rem + offset;
    assert (DaysBeforeYear(y) + idays) * 86400 + rem == t + offset;
    ok, y, idays, rem := Settle(y, idays, rem);
    if !ok {
      return false;
    }
    found := WriteFields(y, idays, rem, t + offset, tmp);
  }
}
