// mktime: a broken-down time, with fields possibly out of range, back to a
// second, by normalising the fields and then searching all of time_t with
// gmtime as the oracle.
module MkTime {
  import opened CInt
  import opened Gregorian
  import opened GMTime

  // ---- What the fields mean ----

  // The day number of a date whose month and day may be any integers.
  function DayNumber(y: int, m: int, mday: int): int {
    DaysBeforeYear(y + m / 12) + DaysBeforeMonth(y + m / 12, m % 12) + mday - 1
  }

  // The second that a broken-down time names; wday and yday are ignored.
  function Instant(f: Fields): int {
    DayNumber(f.year + 1900, f.mon, f.mday) * 86400 + f.hour * 3600 + f.min * 60 + f.sec
  }

  predicate AllInts(f: Fields) {
    && IsInt(f.sec) && IsInt(f.min) && IsInt(f.hour) && IsInt(f.mday) && IsInt(f.mon)
    && IsInt(f.year) && IsInt(f.isdst)
  }

  predicate DateInRange(f: Fields) {
    && 0 <= f.min < 60 && 0 <= f.hour < 24
    && 0 <= f.mon <= 11 && 1 <= f.mday <= MonthLength(f.year + 1900, f.mon)
  }

  predicate InRange(f: Fields) {
    DateInRange(f) && 0 <= f.sec < 60
  }

  lemma InstantOfCanonical(f: Fields)
    requires Canonical(f)
    ensures Instant(f) == EpochSeconds(f)
  {
    hide DaysBeforeYear, DaysBeforeMonth, MonthLength, EpochSeconds;
    EpochSecondsByDays(f);
  }

  lemma InstantOfGmFields(t: int)
    ensures Canonical(GmFields(t)) && Instant(GmFields(t)) == t
    ensures GmFields(t).year == YearOfSecond(t) - 1900
  {
    GmFieldsCorrect(t);
    InstantOfCanonical(GmFields(t));
  }

  // ---- tmcomp ----

  function TmComp(a: Fields, b: Fields): int {
    if a.year != b.year then a.year - b.year
    else if a.mon != b.mon then a.mon - b.mon
    else if a.mday != b.mday then a.mday - b.mday
    else if a.hour != b.hour then a.hour - b.hour
    else if a.min != b.min then a.min - b.min
    else a.sec - b.sec
  }

  lemma DayWithinYear(f: Fields)
    requires DateInRange(f)
    ensures var y := f.year + 1900;
            InYear(DayNumber(y, f.mon, f.mday), y)
  {
    hide DaysBeforeYear, DaysBeforeMonth, YearLength;
    NextMonthStart(f.year + 1900, f.mon);
    var y := f.year + 1900;
    MonthsFillYear(y);
    MonthOrder(y, 0, f.mon);
    MonthOrder(y, f.mon + 1, 12);
    NextYear(y);
  }

  lemma {:induction false} EarlierDay(a: Fields, b: Fields)
    requires DateInRange(a) && DateInRange(b)
    requires a.year < b.year || (a.year == b.year && a.mon < b.mon)
    ensures DayNumber(a.year + 1900, a.mon, a.mday) < DayNumber(b.year + 1900, b.mon, b.mday)
  {
    hide DaysBeforeYear, DaysBeforeMonth, MonthLength;
    if a.year < b.year {
      DayWithinYear(a);
      DayWithinYear(b);
      YearSpan(a.year + 1901, b.year + 1900);
    } else {
      InMonth(a);
      InMonth(b);
      MonthOrder(a.year + 1900, a.mon, b.mon);
    }
  }

  lemma InMonth(f: Fields)
    requires DateInRange(f)
    ensures DayNumber(f.year + 1900, f.mon, f.mday)
            == DaysBeforeYear(f.year + 1900) + DaysBeforeMonth(f.year + 1900, f.mon) + f.mday - 1
  {
    assert f.mon / 12 == 0 && f.mon % 12 == f.mon;
  }

  lemma LessIsEarlier(a: Fields, b: Fields)
    requires InRange(a) && InRange(b) && TmComp(a, b) < 0
    ensures Instant(a) < Instant(b)
  {
    if a.year != b.year || a.mon != b.mon { EarlierDay(a, b); }
  }

  // tmcomp orders in-range times exactly as their seconds are ordered.
  lemma {:induction false} TmCompIsTimeOrder(a: Fields, b: Fields)
    requires InRange(a) && InRange(b)
    ensures TmComp(a, b) < 0 <==> Instant(a) < Instant(b)
    ensures TmComp(a, b) == 0 <==> Instant(a) == Instant(b)
  {
    if TmComp(a, b) < 0 {
      LessIsEarlier(a, b);
    } else if TmComp(a, b) > 0 {
      LessIsEarlier(b, a);
    }
  }

  // ---- Normalisation ----

  // What units holds beyond base is carried into tens; the flag is set when
  // the carry does not fit, and then only the units have changed.
  method NormalizeOverflow(tens0: int, units0: int, base: int) returns (tens: int, units: int, overflow: bool)
    requires IsInt(tens0) && IsInt(units0) && 0 < base <= 60
    ensures 0 <= units < base
    ensures overflow <==> !IsInt(tens0 + units0 / base)
    ensures tens == if overflow then tens0 else tens0 + units0 / base
    ensures units == units0 - units0 / base * base
  {
    tens, units := tens0, units0;
    var tensdelta := if units >= 0 then units / base else -1 - (-1 - units) / base;
    FloorQuotient(units, base);
    units := units - tensdelta * base;
    tens, overflow := IncrementOverflow(tens, tensdelta);
  }

  lemma AtLeastOnce(k: int, b: int)
    requires b > 0
    ensures k >= 1 ==> k * b >= b
    ensures k <= -1 ==> k * b <= -b
    ensures 0 <= k ==> k <= k * b
    ensures k <= 0 ==> k * b <= k
  {
  }

  lemma Distribute(p: int, q: int, b: int)
    ensures (p - q) * b == p * b - q * b
  {
  }

  lemma UniqueQuotient(n: int, b: int, q: int)
    requires b > 0 && 0 <= n - q * b < b
    ensures q == n / b
  {
    var p := n / b;
    assert n == p * b + n % b;
    Distribute(p, q, b);
    AtLeastOnce(p - q, b);
  }

  lemma FloorQuotient(n: int, b: int)
    requires b > 0
    ensures var q := if n >= 0 then n / b else -1 - (-1 - n) / b;
            q == n / b && 0 <= n - q * b < b && (if n >= 0 then 0 <= q <= n else n <= q <= -1)
  {
    if n < 0 {
      var k := (-1 - n) / b;
      var q := -1 - k;
      assert -1 - n == k * b + (-1 - n) % b;
      Distribute(0, k + 1, b);
      Distribute(k, -1, b);
      assert q * b == -(k * b) - b;
      UniqueQuotient(n, b, q);
      AtLeastOnce(k, b);
    } else {
      assert n == n / b * b + n % b;
      AtLeastOnce(n / b, b);
    }
  }

  // The source's LONG_MIN and LONG_MAX are the bounds of a 32-bit long.
  method LongIncrementOverflow(l: int, m: int) returns (sum: int, overflow: bool)
    requires IsInt(l) && IsInt(m)
    ensures overflow <==> !IsInt(l + m)
    ensures sum == if overflow then l else l + m
  {
    sum := l;
    if (if l >= 0 then m > INT_MAX - l else m < INT_MIN - l) {
      return l, true;
    }
    sum := sum + m;
    overflow := false;
  }

  // The minute, hour and day after their carries.
  function CarriedMin(f: Fields, normSecs: bool): int {
    if normSecs then f.min + f.sec / 60 else f.min
  }

  function CarriedHour(f: Fields, normSecs: bool): int {
    f.hour + CarriedMin(f, normSecs) / 60
  }

  function CarriedDay(f: Fields, normSecs: bool): int {
    f.mday + CarriedHour(f, normSecs) / 24
  }

  function DayAfterCarries(f: Fields, normSecs: bool): int {
    DayNumber(f.year + 1900, f.mon, CarriedDay(f, normSecs))
  }

  // Every carry, and the year they give, is an int.
  predicate CarriesFit(f: Fields, normSecs: bool) {
    && IsInt(CarriedMin(f, normSecs)) && IsInt(CarriedHour(f, normSecs)) && IsInt(CarriedDay(f, normSecs))
    && IsInt(f.year + f.mon / 12) && IsInt(f.year + f.mon / 12 + 1900)
  }

  // Exactly the inputs that normalisation accepts.
  ghost predicate Normalizable(f: Fields, normSecs: bool) {
    CarriesFit(f, normSecs) && INT_MIN + 1900 <= YearOf(DayAfterCarries(f, normSecs)) <= INT_MAX
  }

  // From a month of one year to the same month of the next is the length of
  // the year that holds the 29th of February between them.
  lemma Anniversary(y: int, m: int)
    requires 0 <= m <= 11
    ensures DaysBeforeYear(y + 1) + DaysBeforeMonth(y + 1, m)
            == DaysBeforeYear(y) + DaysBeforeMonth(y, m) + YearLength(if 1 < m then y + 1 else y)
  {
    NextYear(y);
    MonthsDiffer(y, m);
  }

  lemma {:induction false} MonthsDiffer(y: int, m: int)
    requires 0 <= m <= 12
    ensures DaysBeforeMonth(y + 1, m) - DaysBeforeMonth(y, m)
            == if m < 2 then 0 else YearLength(y + 1) - YearLength(y)
    decreases m
  {
    if m > 0 { MonthsDiffer(y, m - 1); }
  }

  lemma {:induction false} MonthStartWithinYear(y: int, m: int)
    requires 0 <= m <= 11
    ensures 0 <= DaysBeforeMonth(y, m) && DaysBeforeMonth(y, m + 1) <= YearLength(y)
    ensures m == 11 ==> DaysBeforeMonth(y, m + 1) == YearLength(y)
  {
    MonthsFillYear(y);
    MonthOrder(y, 0, m);
    MonthOrder(y, m + 1, 12);
  }

  lemma YearBelow(d: int, y: int)
    ensures d < DaysBeforeYear(y) <==> YearOf(d) < y
  {
    if YearOf(d) < y { YearSpan(YearOf(d) + 1, y); } else { YearSpan(y, YearOf(d)); }
  }

  // The seconds that gmtime represents, in figures: from the start of tm_year
  // INT_MIN to the end of the year INT_MAX.
  lemma {:induction false} RepresentableRange(t: int)
    ensures Representable(t) <==> -67_768_040_609_740_800 <= t <= 67_767_976_233_532_799
  {
    YearBelow(t / 86400, INT_MIN + 1900);
    YearBelow(t / 86400, INT_MAX + 1);
    FirstAndLastDay();
    hide YearOf, DaysBeforeYear;
  }

  lemma FirstAndLastDay()
    ensures DaysBeforeYear(INT_MIN + 1900) == -784_352_321_872 && DaysBeforeYear(INT_MAX + 1) == 784_351_576_777
  {
  }

  // The first day of a month.
  function MonthStart(y: int, m: int): int {
    DaysBeforeYear(y) + DaysBeforeMonth(y, m)
  }

  lemma {:induction false} MonthStartYear(y: int, m: int, d: int)
    requires 0 <= m <= 11
    ensures d < MonthStart(y, m) ==> YearOf(d) <= y
    ensures d >= MonthStart(y, m) ==> YearOf(d) >= y
  {
    MonthStartWithinYear(y, m);
    NextYear(y);
    YearBelow(d, y);
    YearBelow(d, y + 1);
  }

  // time2sub, first loop on the day of the month: back by whole years until it
  // is positive. The day number of the date stays the same in all three loops.
  method RaiseDay(y0: int, mon: int, mday0: int) returns (ok: bool, y: int, mday: int)
    requires IsInt(y0) && 0 <= mon <= 11
    ensures ok ==> mday >= 1 && IsInt(y) && MonthStart(y, mon) + mday == MonthStart(y0, mon) + mday0
    ensures !ok ==> YearOf(MonthStart(y0, mon) + mday0 - 1) <= INT_MIN
  {
    hide DaysBeforeYear, DaysBeforeMonth, IsLeap, YearOf;
    y, mday := y0, mday0;
    var overflow;
    while mday <= 0
      invariant IsInt(y) && MonthStart(y, mon) + mday == MonthStart(y0, mon) + mday0
    {
      MonthStartYear(y, mon, MonthStart(y, mon) + mday - 1);
      Anniversary(y - 1, mon);
      y, overflow := LongIncrementOverflow(y, -1);
      if overflow {
        return false, y, mday;
      }
      var li := y + (if 1 < mon then 1 else 0);
      mday := mday + YearLength(li);
    }
    ok := true;
  }

  // Second loop: forward by whole years while more than 366 days remain.
  method LowerDay(y0: int, mon: int, mday0: int) returns (ok: bool, y: int, mday: int)
    requires IsInt(y0) && 0 <= mon <= 11 && mday0 >= 1
    ensures ok ==> mday >= 1 && IsInt(y) && MonthStart(y, mon) + mday == MonthStart(y0, mon) + mday0
    ensures !ok ==> YearOf(MonthStart(y0, mon) + mday0 - 1) > INT_MAX
  {
    hide DaysBeforeYear, DaysBeforeMonth, IsLeap, YearOf;
    y, mday := y0, mday0;
    var overflow;
    while mday > 366
      invariant IsInt(y) && mday >= 1 && MonthStart(y, mon) + mday == MonthStart(y0, mon) + mday0
    {
      Anniversary(y, mon);
      MonthStartYear(y + 1, mon, MonthStart(y, mon) + mday - 1);
      var li := y + (if 1 < mon then 1 else 0);
      mday := mday - YearLength(li);
      y, overflow := LongIncrementOverflow(y, 1);
      if overflow {
        return false, y, mday;
      }
    }
    ok := true;
  }

  // Third loop: forward by months while the day is past the end of the month.
  method WalkMonths(y0: int, mon0: int, mday0: int) returns (ok: bool, y: int, mon: int, mday: int)
    requires IsInt(y0) && 0 <= mon0 <= 11 && mday0 >= 1
    ensures ok ==> IsInt(y) && 0 <= mon <= 11 && 1 <= mday <= MonthLength(y, mon)
    ensures ok ==> MonthStart(y, mon) + mday == MonthStart(y0, mon0) + mday0
    ensures !ok ==> YearOf(MonthStart(y0, mon0) + mday0 - 1) > INT_MAX
  {
    hide DaysBeforeYear, DaysBeforeMonth, IsLeap, YearOf;
    y, mon, mday := y0, mon0, mday0;
    var overflow;
    while true
      invariant IsInt(y) && 0 <= mon <= 11 && mday >= 1
      invariant MonthStart(y, mon) + mday == MonthStart(y0, mon0) + mday0
      decreases mday
    {
      var i := MonthLength(y, mon);
      if mday <= i {
        break;
      }
      NextMonth(y, mon);
      mday := mday - i;
      mon := mon + 1;
      if mon >= 12 {
        mon := 0;
        MonthStartYear(y + 1, 0, MonthStart(y + 1, 0) + mday - 1);
        y, overflow := LongIncrementOverflow(y, 1);
        if overflow {
          return false, y, mon, mday;
        }
      }
    }
    ok := true;
  }

  lemma NextMonth(y: int, m: int)
    requires 0 <= m <= 11
    ensures MonthStart(y, m) + MonthLength(y, m) == if m < 11 then MonthStart(y, m + 1) else MonthStart(y + 1, 0)
  {
    MonthStartWithinYear(y, m);
    NextYear(y);
  }

  lemma {:induction false} YearOfDate(y: int, m: int, mday: int)
    requires 0 <= m <= 11 && 1 <= mday <= MonthLength(y, m)
    ensures YearOf(MonthStart(y, m) + mday - 1) == y
  {
    MonthStartWithinYear(y, m);
    NextYear(y);
    YearOfIs(MonthStart(y, m) + mday - 1, y);
  }

  // The three loops and the return to an offset from 1900: they fail exactly
  // when the year of the day, or that year less 1900, is not an int.
  method NormalizeDay(y0: int, mon0: int, mday0: int) returns (ok: bool, y: int, mon: int, mday: int)
    requires IsInt(y0) && 0 <= mon0 <= 11
    ensures ok <==> INT_MIN + 1900 <= YearOf(MonthStart(y0, mon0) + mday0 - 1) <= INT_MAX
    ensures ok ==> MonthStart(y + 1900, mon) + mday == MonthStart(y0, mon0) + mday0
    ensures ok ==> IsInt(y) && 0 <= mon <= 11 && 1 <= mday <= MonthLength(y + 1900, mon)
    ensures ok ==> YearOf(MonthStart(y0, mon0) + mday0 - 1) == y + 1900
  {
    hide MonthStart, MonthLength, YearOf;
    mon := mon0;
    ok, y, mday := RaiseDay(y0, mon, mday0);
    if !ok { return; }
    ok, y, mday := LowerDay(y, mon, mday);
    if !ok { return; }
    ok, y, mon, mday := WalkMonths(y, mon, mday);
    if !ok { return; }
    YearOfDate(y, mon, mday);
    var overflow;
    y, overflow := LongIncrementOverflow(y, -1900);
    ok := !overflow;
  }

  // time2sub, the carries from the seconds up to the year.
  method Carry(f: Fields, normSecs: bool)
    returns (ok: bool, sec: int, min: int, hour: int, mday: int, mon: int, y: int)
    requires AllInts(f)
    ensures ok <==> CarriesFit(f, normSecs)
    ensures ok ==> sec == if normSecs then f.sec % 60 else f.sec
    ensures ok ==> min == CarriedMin(f, normSecs) % 60 && hour == CarriedHour(f, normSecs) % 24
    ensures ok ==> mday == CarriedDay(f, normSecs) && IsInt(mday)
    ensures ok ==> mon == f.mon % 12 && y == f.year + 1900 + f.mon / 12 && IsInt(y)
  {
    var overflow;
    sec, min, hour, mday, mon, y := f.sec, f.min, f.hour, f.mday, f.mon, f.year;
    ok := false;
    if normSecs {
      min, sec, overflow := NormalizeOverflow(min, sec, 60);
      if overflow { return; }
    }
    hour, min, overflow := NormalizeOverflow(hour, min, 60);
    if overflow { return; }
    mday, hour, overflow := NormalizeOverflow(mday, hour, 24);
    if overflow { return; }
    y, mon, overflow := NormalizeOverflow(y, mon, 12);
    if overflow { return; }
    y, overflow := LongIncrementOverflow(y, 1900);
    if overflow { return; }
    ok := true;
  }

  lemma CarriesKeepInstant(f: Fields, normSecs: bool)
    ensures var sec := if normSecs then f.sec % 60 else f.sec;
            Instant(f) == DayAfterCarries(f, normSecs) * 86400 + CarriedHour(f, normSecs) % 24 * 3600
                          + CarriedMin(f, normSecs) % 60 * 60 + sec
  {
    var m, h := CarriedMin(f, normSecs), CarriedHour(f, normSecs);
    assert m == m / 60 * 60 + m % 60 && h == h / 24 * 24 + h % 24 && f.sec == f.sec / 60 * 60 + f.sec % 60;
    assert DayAfterCarries(f, normSecs) == DayNumber(f.year + 1900, f.mon, f.mday) + h / 24;
  }

  // time2sub, normalisation.
  method Normalize(tmp: Fields, normSecs: bool) returns (ok: bool, f: Fields)
    requires AllInts(tmp)
    ensures ok <==> Normalizable(tmp, normSecs)
    ensures ok ==> DateInRange(f) && IsInt(f.year) && Instant(f) == Instant(tmp)
    ensures ok ==> (if normSecs then 0 <= f.sec < 60 else f.sec == tmp.sec) && f.isdst == tmp.isdst
    ensures ok ==> f.year + 1900 == YearOf(DayAfterCarries(tmp, normSecs))
  {
    hide DaysBeforeYear, DaysBeforeMonth, MonthLength, YearOf;
    f := tmp;
    var sec, min, hour, mday, mon, y;
    ok, sec, min, hour, mday, mon, y := Carry(tmp, normSecs);
    if !ok { return; }
    assert MonthStart(y, mon) + mday - 1 == DayAfterCarries(tmp, normSecs);
    ok, y, mon, mday := NormalizeDay(y, mon, mday);
    if !ok { return; }
    f := f.(sec := sec, min := min, hour := hour, mday := mday, mon := mon, year := y);
    CarriesKeepInstant(tmp, normSecs);
    InMonth(f);
  }

  // time2sub keeps only a second of 0 or 59 for the search when tm_sec is out
  // of range, and adds the rest afterwards.
  ghost predicate SecondsFit(f: Fields, normSecs: bool) {
    normSecs || 0 <= f.sec < 60 || YearOf(DayAfterCarries(f, false)) >= 1970 || f.sec - 59 >= INT_MIN
  }

  method SaveSeconds(f0: Fields) returns (ok: bool, f: Fields, saved: int)
    requires AllInts(f0)
    ensures ok <==> 0 <= f0.sec < 60 || f0.year + 1900 >= 1970 || f0.sec - 59 >= INT_MIN
    ensures ok ==> f == f0.(sec := f.sec) && 0 <= f.sec < 60 && f.sec + saved == f0.sec && IsInt(saved)
  {
    f := f0;
    if f.sec >= 0 && f.sec < 60 {
      saved := 0;
    } else if f.year + 1900 < 1970 {
      var sec, overflow := IncrementOverflow(f.sec, 1 - 60);
      if overflow { return false, f, 0; }
      saved := sec;
      f := f.(sec := 59);
    } else {
      saved := f.sec;
      f := f.(sec := 0);
    }
    ok := true;
  }

  // ---- The binary search ----

  lemma {:induction false} SearchTarget(f: Fields)
    requires InRange(f) && IsInt(f.year) && f.year + 1900 <= INT_MAX
    ensures Representable(Instant(f))
    ensures -0x100_0000_0000_0000 <= Instant(f) <= 0x100_0000_0000_0000
  {
    var y := f.year + 1900;
    var d := DayNumber(y, f.mon, f.mday);
    DayWithinYear(f);
    YearOfIs(d, y);
    SplitDay(Instant(f), d, f.hour * 3600 + f.min * 60 + f.sec);
    if y >= 1970 { YearSpan(1970, y); } else { YearSpan(y, 1970); }
    NextYear(y);
  }

  // A second too extreme to convert lies beyond the target on its own side of 0.
  lemma {:induction false} TooExtreme(t: int, target: int)
    requires !Representable(t) && Representable(target)
    ensures if t > 0 then target < t else t < target
  {
    if target >= t { YearOfMonotone(t / 86400, target / 86400); }
    if target <= t { YearOfMonotone(target / 86400, t / 86400); }
    YearOfIs(0, 1970);
    if t > 0 { YearOfMonotone(0, t / 86400); } else { YearOfMonotone(t / 86400, 0); }
  }

  lemma OracleOrder(t: int, f: Fields)
    requires InRange(f)
    ensures TmComp(GmFields(t), f) < 0 <==> t < Instant(f)
    ensures TmComp(GmFields(t), f) == 0 <==> t == Instant(f)
  {
    InstantOfGmFields(t);
    TmCompIsTimeOrder(GmFields(t), f);
  }

  // tmcomp subtracts the years first. Its result is read here as a mathematical
  // integer; this says when C's int holds it.
  ghost predicate ComparedExactly(t: int, f: Fields) {
    Representable(t) ==> IsInt(YearOfSecond(t) - 1900 - f.year)
  }

  // One probe of the search: the sign of dir says on which side of the target
  // second t lies.
  method Probe(t: int, yourtm: Fields, mytm: Tm) returns (dir: int, ghost exact: bool)
    requires IsTime(t) && InRange(yourtm) && Representable(Instant(yourtm))
    modifies mytm
    ensures dir < 0 <==> t < Instant(yourtm)
    ensures dir == 0 <==> t == Instant(yourtm)
    ensures dir == 0 ==> mytm.isdst == 0
    ensures exact <==> ComparedExactly(t, yourtm)
  {
    hide DaysBeforeYear, DaysBeforeMonth, MonthFrom, YearOf, Instant;
    var found := TimeSub(t, 0, mytm);
    exact := true;
    if !found {
      TooExtreme(t, Instant(yourtm));
      dir := if t > 0 then 1 else -1;
    } else {
      OracleOrder(t, yourtm);
      InstantOfGmFields(t);
      exact := IsInt(mytm.year - yourtm.year);
      dir := TmComp(mytm.Value(), yourtm);
    }
  }

  // Seconds at most 2^55 apart are in years that an int can subtract.
  lemma NearIsExact(t: int, f: Fields)
    requires InRange(f) && -0x80_0000_0000_0000 <= t - Instant(f) <= 0x80_0000_0000_0000
    ensures ComparedExactly(t, f)
  {
    hide DaysBeforeYear, DaysBeforeMonth, IsLeap, YearOf, DayNumber;
    var d, e := DayNumber(f.year + 1900, f.mon, f.mday), t / 86400;
    DayWithinYear(f);
    SplitDay(Instant(f), d, f.hour * 3600 + f.min * 60 + f.sec);
    var y, z := f.year + 1900, YearOf(e);
    assert -0x62_0000_0000 <= e - d <= 0x62_0000_0000;
    if y + 1 < z { YearSpan(y + 1, z); }
    if z + 1 < y { YearSpan(z + 1, y); }
  }

  lemma FarIsNull(t: int)
    requires t <= -0x100_0000_0000_0000 || 0x100_0000_0000_0000 - 1 <= t
    ensures !Representable(t)
  {
    hide DaysBeforeYear, IsLeap, YearOf;
    var y := YearOf(t / 86400);
    YearZero();
    if t > 0 {
      if y + 1 > 1970 { YearSpan(1970, y + 1); } else { YearSpan(y + 1, 1970); }
    } else {
      if y < 1970 { YearSpan(y, 1970); } else { YearSpan(1970, y); }
    }
  }

  lemma YearZero()
    ensures DaysBeforeYear(1970) == 0
  {
  }

  // The first probe is second -1, whose tm_year is 69.
  lemma FirstProbe(f: Fields)
    requires f.year + 1900 <= INT_MAX
    ensures YearOfSecond(-1) == 1969 && Representable(-1)
    ensures ComparedExactly(-1, f) <==> f.year >= INT_MIN + 70
  {
    NextYear(1969);
    YearOfIs(-1, 1969);
  }

  // The widths of the interval until gmtime has an answer again.
  predicate Wide(w: int) {
    || w == 0x8000_0000_0000_0000 || w == 0x4000_0000_0000_0000 || w == 0x2000_0000_0000_0000
    || w == 0x1000_0000_0000_0000 || w == 0x800_0000_0000_0000 || w == 0x400_0000_0000_0000
    || w == 0x200_0000_0000_0000 || w == 0x100_0000_0000_0000
  }

  // The interval behind the first probe: half of time_t, halved while the probes
  // are too extreme, and from then on at most 2^55 wide.
  predicate Halved(lo: int, hi: int) {
    || (hi == -1 && Wide(-lo)) || (lo == -1 && Wide(hi + 1)) || hi - lo <= 0x80_0000_0000_0000
  }

  function Middle(lo: int, hi: int): int {
    var t := TruncDiv(lo, 2) + TruncDiv(hi, 2);
    if t < lo then lo else if t > hi then hi else t
  }

  lemma MiddleOfHalved(lo: int, hi: int, f: Fields)
    requires InRange(f) && Representable(Instant(f)) && lo <= Instant(f) <= hi && Halved(lo, hi)
    ensures var t := Middle(lo, hi);
            && lo <= t <= hi && ComparedExactly(t, f)
            && (t < Instant(f) ==> Halved(t, hi)) && (t > Instant(f) ==> Halved(lo, t))
            && (t == lo || t == hi ==> hi - lo <= 0x80_0000_0000_0000)
  {
    hide Representable, Instant, DaysBeforeYear, ComparedExactly;
    var t := Middle(lo, hi);
    if hi - lo <= 0x80_0000_0000_0000 {
      NearIsExact(t, f);
    } else if hi == -1 {
      if lo == -0x100_0000_0000_0000 { NearIsExact(t, f); } else { FarIsOneSided(t, f); }
    } else {
      if hi == 0x100_0000_0000_0000 - 1 { NearIsExact(t, f); } else { FarIsOneSided(t, f); }
    }
  }

  lemma FarIsOneSided(t: int, f: Fields)
    requires t <= -0x100_0000_0000_0000 || 0x100_0000_0000_0000 - 1 <= t
    requires Representable(Instant(f))
    ensures ComparedExactly(t, f) && if t > 0 then Instant(f) < t else t < Instant(f)
  {
    FarIsNull(t);
    TooExtreme(t, Instant(f));
  }

  // time2sub, the search. It ends without the source's disabled `lo > hi`
  // test: the target never leaves [lo, hi], and the interval shrinks on every
  // pass, including those where gmtime had no answer. Of all comparisons only
  // the first can overflow, and it does so for the first 70 years of tm_year.
  method Search(yourtm: Fields) returns (t: int, ghost exact: bool)
    requires InRange(yourtm) && Representable(Instant(yourtm)) && IsTime(Instant(yourtm))
    requires yourtm.year + 1900 <= INT_MAX
    ensures t == Instant(yourtm)
    ensures exact <==> yourtm.year >= INT_MIN + 70
  {
    hide Instant, Representable, ComparedExactly, Wide;
    ghost var target := Instant(yourtm);
    var mytm := new Tm(yourtm);
    var lo, hi := TIME_MIN, TIME_MAX;
    exact := true;
    FirstProbe(yourtm);
    WideStart();
    while true
      invariant TIME_MIN <= lo <= target <= hi <= TIME_MAX
      invariant (lo == TIME_MIN && hi == TIME_MAX && exact)
             || (Halved(lo, hi) && (exact <==> yourtm.year >= INT_MIN + 70))
      decreases hi - lo
    {
      t := TruncDiv(lo, 2) + TruncDiv(hi, 2);
      if t < lo {
        t := lo;
      } else if t > hi {
        t := hi;
      }
      if !(lo == TIME_MIN && hi == TIME_MAX) { MiddleOfHalved(lo, hi, yourtm); }
      var dir;
      ghost var fits;
      dir, fits := Probe(t, yourtm, mytm);
      exact := exact && fits;
      if dir == 0 {
        // gmtime always answers tm_isdst 0, so the first match is accepted.
        assert yourtm.isdst < 0 || mytm.isdst <= yourtm.isdst;
        break;
      }
      if t == lo {
        t := t + 1;
        lo := lo + 1;
      } else if t == hi {
        t := t - 1;
        hi := hi - 1;
      }
      if dir > 0 {
        hi := t;
      } else {
        lo := t;
      }
    }
  }

  lemma WideStart()
    ensures Halved(TIME_MIN, -1) && Halved(-1, TIME_MAX)
  {
  }

  // ---- time2sub, time2, time1, mktime ----

  // Everything before the last conversion succeeds.
  ghost predicate GuardsPass(f: Fields, normSecs: bool) {
    Normalizable(f, normSecs) && SecondsFit(f, normSecs)
  }

  // No comparison of the search overflows, if there is a search.
  ghost predicate SearchExact(f: Fields, normSecs: bool) {
    GuardsPass(f, normSecs) ==> YearOf(DayAfterCarries(f, normSecs)) >= INT_MIN + 1970
  }

  // time2sub up to its last conversion.
  method Locate(f: Fields, normSecs: bool) returns (ok: bool, t: int, ghost exact: bool)
    requires AllInts(f)
    ensures exact <==> SearchExact(f, normSecs)
    ensures ok <==> GuardsPass(f, normSecs)
    ensures ok ==> t == Instant(f) && IsTime(t)
    ensures !ok ==> t == -1
  {
    hide DaysBeforeYear, DaysBeforeMonth, IsLeap, YearOf, DayNumber;
    var yourtm, saved;
    ok, yourtm := Normalize(f, normSecs);
    if !ok { return false, -1, true; }
    ok, yourtm, saved := SaveSeconds(yourtm);
    if !ok { return false, -1, true; }
    SearchTarget(yourtm);
    t, exact := Search(yourtm);
    var newt := t + saved;
    if (newt < t) != (saved < 0) { return false, -1, exact; }
    t := newt;
  }

  // time2sub.
  method Time2Sub(tmp: Tm, normSecs: bool) returns (t: int, okay: bool, ghost exact: bool)
    requires AllInts(tmp.Value())
    modifies tmp
    ensures var f := old(tmp.Value());
            if !GuardsPass(f, normSecs) then t == -1 && !okay && tmp.Value() == f
            else
              && t == Instant(f)
              && okay == Representable(t)
              && tmp.Value() == Converted(f)
    ensures exact <==> SearchExact(old(tmp.Value()), normSecs)
  {
    okay, t, exact := Locate(tmp.Value(), normSecs);
    if !okay { return; }
    okay := TimeSub(t, 0, tmp);
  }

  // What the last conversion leaves in the fields.
  ghost function Converted(f: Fields): Fields {
    if Representable(Instant(f)) then GmFields(Instant(f)) else AfterFailure(f, Instant(f))
  }

  // A time whose carries fit and whose second gmtime can represent.
  ghost predicate Convertible(f: Fields) {
    (GuardsPass(f, false) || GuardsPass(f, true)) && Representable(Instant(f))
  }

  // On mathematical integers: the first attempt located the second but could not
  // convert it back, and left its full year in tm_year; the second attempt then
  // reads that year as an offset from 1900 and succeeds.
  ghost predicate Misread(f: Fields) {
    && GuardsPass(f, false) && INT_MIN <= YearOfSecond(Instant(f)) < INT_MIN + 1900
    && var g := f.(year := YearOfSecond(Instant(f)));
       GuardsPass(g, true) && Representable(Instant(g))
  }

  // What mktime answers when its comparisons are taken on mathematical integers.
  ghost function Answer(f: Fields): int {
    if Convertible(f) then Instant(f)
    else if Misread(f) then Instant(f.(year := YearOfSecond(Instant(f))))
    else -1
  }

  // The answer that is asked for.
  ghost function Correct(f: Fields): int {
    if Convertible(f) then Instant(f) else -1
  }

  // The fields left behind by both attempts.
  ghost function LeftBehind(f: Fields): Fields {
    if GuardsPass(f, false) && Representable(Instant(f)) then Converted(f)
    else
      var g := if GuardsPass(f, false) then Converted(f) else f;
      if GuardsPass(g, true) then Converted(g) else g
  }

  // No comparison of either attempt overflows an int.
  ghost predicate Exact(f: Fields) {
    && SearchExact(f, false)
    && ((GuardsPass(f, false) && Representable(Instant(f))) || SearchExact(f, true))
  }

  // time2: first without, then with normalisation of the seconds.
  method Time2(tmp: Tm) returns (t: int, okay: bool, ghost exact: bool)
    requires AllInts(tmp.Value())
    modifies tmp
    ensures var f := old(tmp.Value());
            && (if okay then t else -1) == Answer(f) && tmp.Value() == LeftBehind(f)
            && (exact <==> Exact(f)) && (exact ==> (if okay then t else -1) == Correct(f))
  {
    ghost var f := tmp.Value();
    ExactIsCorrect(f);
    t, okay, exact := Time2Sub(tmp, false);
    if okay { return; }
    if exact { SecondsBackFromYear(f); }
    ghost var again;
    t, okay, again := Time2Sub(tmp, true);
    exact := exact && again;
  }

  // time1 with localsub and offset 0, which is sgxssl_mktime.
  method Mktime(tmp: Tm?) returns (t: int, ghost exact: bool)
    requires tmp != null ==> AllInts(tmp.Value())
    modifies tmp
    ensures tmp == null ==> t == -1
    ensures tmp != null ==>
              var f := old(tmp.Value());
              && t == Answer(f) && tmp.Value() == LeftBehind(f.(isdst := if f.isdst > 1 then 1 else f.isdst))
              && (exact <==> Exact(f)) && (exact ==> t == Correct(f))
    ensures tmp != null && Convertible(old(tmp.Value())) ==> tmp.Value() == GmFields(t)
  {
    hide Answer, Exact, Convertible, LeftBehind;
    if tmp == null { return -1, true; }
    ghost var f := tmp.Value();
    if tmp.isdst > 1 {
      tmp.isdst := 1;
    }
    DstIgnored(f, tmp.Value());
    ConvertibleLeaves(tmp.Value());
    var okay;
    t, okay, exact := Time2(tmp);
    if !okay { t := -1; }
  }

  lemma ConvertibleLeaves(f: Fields)
    ensures Convertible(f) ==> LeftBehind(f) == GmFields(Answer(f))
  {
  }

  lemma DstIgnoredByGuards(f: Fields, g: Fields, normSecs: bool)
    requires g == f.(isdst := g.isdst)
    ensures Instant(f) == Instant(g) && GuardsPass(f, normSecs) == GuardsPass(g, normSecs)
    ensures SearchExact(f, normSecs) == SearchExact(g, normSecs)
  {
    assert DayAfterCarries(f, false) == DayAfterCarries(g, false);
    assert DayAfterCarries(f, normSecs) == DayAfterCarries(g, normSecs);
  }

  lemma DstIgnored(f: Fields, g: Fields)
    requires g == f.(isdst := g.isdst)
    ensures Instant(f) == Instant(g) && Convertible(f) == Convertible(g) && Answer(f) == Answer(g)
    ensures Exact(f) == Exact(g)
  {
    hide GuardsPass, SearchExact, Representable, YearOf, DayNumber;
    DstIgnoredByGuards(f, g, false);
    DstIgnoredByGuards(f, g, true);
    var y := YearOfSecond(Instant(f));
    DstIgnoredByGuards(f.(year := y), g.(year := y), true);
  }

  // ---- What mktime is for ----

  lemma DayBound(y: int, m: int, mday: int)
    requires y <= 1970
    ensures DayNumber(y, m, mday) <= 365 * (y + m / 12 - 1970) + 366 + mday || y + m / 12 > 1970
  {
    var z := y + m / 12;
    if z <= 1970 {
      YearSpan(z, 1970);
      MonthStartWithinYear(z, m % 12);
    }
  }

  lemma SecondBound(f: Fields, d: int)
    requires DayAfterCarries(f, true) < d
    ensures Instant(f) < d * 86400
  {
    CarriesKeepInstant(f, true);
  }

  // tm_sec reaches back at most 69 years from the normalised date.
  lemma SecondsBackFromYear(f: Fields)
    requires AllInts(f)
    ensures YearOfSecond(Instant(f)) >= YearOf(DayAfterCarries(f, false)) - 69
    ensures YearOf(DayAfterCarries(f, false)) >= INT_MIN + 1970 ==> AfterFailure(f, Instant(f)) == f
  {
    hide DaysBeforeYear, DaysBeforeMonth, IsLeap, YearOf, DayAfterCarries;
    CarriesKeepInstant(f, false);
    var d, e := DayAfterCarries(f, false), Instant(f) / 86400;
    assert e >= d - 24_856;
    var y, z := YearOf(d), YearOf(e);
    if z + 1 < y { YearSpan(z + 1, y); }
  }

  // mktime is correct from the year INT_MIN + 1970 on: it answers the second
  // that its argument names, or -1 when that second cannot be located or
  // converted.
  lemma {:induction false} CorrectFromFirstExactYear(f: Fields)
    requires AllInts(f) && YearOf(DayAfterCarries(f, false)) >= INT_MIN + 1970
    ensures Answer(f) == Correct(f)
  {
    SecondsBackFromYear(f);
  }

  // It is correct whenever no comparison overflows.
  lemma ExactIsCorrect(f: Fields)
    requires AllInts(f)
    ensures Exact(f) ==> Answer(f) == Correct(f)
  {
    if Exact(f) && GuardsPass(f, false) { CorrectFromFirstExactYear(f); }
  }

  // A time of the first year of tm_year, with every field in range: mktime and
  // gmtime are inverses there on mathematical integers, but the comparison with
  // second -1 is 69 - INT_MIN.
  lemma {:induction false} OverflowExample()
    ensures var f := Fields(0, 0, 0, 1, 0, INT_MIN, 0, 0, 0); Convertible(f) && !Exact(f) && !Misread(f)
  {
    hide YearOfSecond, Instant, GuardsPass, Exact;
    var f := Fields(0, 0, 0, 1, 0, INT_MIN, 0, 0, 0);
    InRangeConvertible(f);
    InRangeExact(f);
  }

  // A misread time comes out as a second that it does not name, and never as
  // the failure marker; but the first comparison of its search overflows.
  lemma {:induction false} MisreadIsLong(f: Fields)
    requires AllInts(f) && Misread(f)
    ensures Instant(f.(year := YearOfSecond(Instant(f)))) < -1
    ensures !IsInt(69 - (YearOf(DayAfterCarries(f, false)) - 1900)) && !Exact(f)
  {
    hide YearOf, DaysBeforeYear, DaysBeforeMonth;
    var g := f.(year := YearOfSecond(Instant(f)));
    DayBound(g.year + 1900, g.mon, CarriedDay(g, true));
    SecondBound(g, -1);
    SecondsBackFromYear(f);
  }

  // On mathematical integers mktime is correct exactly when its argument is not
  // misread.
  lemma {:induction false} AnswerCorrect(f: Fields)
    requires AllInts(f)
    ensures Answer(f) == Correct(f) <==> !Misread(f)
  {
    if Misread(f) { MisreadIsLong(f); }
  }

  // On mathematical integers, one second before the first representable one is
  // misread, 1899 years late.
  lemma {:induction false} MisreadExample()
    ensures var f := Fields(-1, 0, 0, 1, 0, INT_MIN, 0, 0, 0);
            Misread(f) && Answer(f) == Instant(f.(year := INT_MIN + 1899))
  {
    hide GuardsPass, Representable, YearOfSecond, Instant;
    var f := Fields(-1, 0, 0, 1, 0, INT_MIN, 0, 0, 0);
    EveGuards(INT_MIN + 1900);
    EveGuards(INT_MIN + 3799);
    assert f.(year := INT_MIN + 1899) == Fields(-1, 0, 0, 1, 0, INT_MIN + 1899, 0, 0, 0);
  }

  lemma EveGuards(y: int)
    requires IsInt(y) && IsInt(y - 1900)
    ensures var f := Fields(-1, 0, 0, 1, 0, y - 1900, 0, 0, 0);
            && GuardsPass(f, false) && (GuardsPass(f, true) <==> INT_MIN + 1900 <= y - 1)
            && YearOfSecond(Instant(f)) == y - 1
            && (Representable(Instant(f)) <==> INT_MIN + 1900 <= y - 1)
  {
    hide YearOf, DayAfterCarries, Instant, CarriesFit;
    EveCarries(y);
    NewYearsEve(y);
  }

  lemma EveCarries(y: int)
    requires IsInt(y) && IsInt(y - 1900)
    ensures var f := Fields(-1, 0, 0, 1, 0, y - 1900, 0, 0, 0); CarriesFit(f, false) && CarriesFit(f, true)
  {
    var f := Fields(-1, 0, 0, 1, 0, y - 1900, 0, 0, 0);
    assert CarriedMin(f, true) == -1 && CarriedHour(f, true) == -1 && CarriedDay(f, true) == 0;
  }

  // The second before January 1st of year y, with tm_sec -1.
  lemma NewYearsEve(y: int)
    ensures var f := Fields(-1, 0, 0, 1, 0, y - 1900, 0, 0, 0);
            && YearOfSecond(Instant(f)) == y - 1
            && YearOf(DayAfterCarries(f, false)) == y && YearOf(DayAfterCarries(f, true)) == y - 1
  {
    hide DaysBeforeYear, IsLeap, YearOf;
    NextYear(y - 1);
    NextYear(y);
    YearOfIs(DaysBeforeYear(y), y);
    YearOfIs(DaysBeforeYear(y) - 1, y - 1);
  }

  lemma InRangeCarriesNothing(f: Fields)
    requires InRange(f)
    ensures DayAfterCarries(f, false) == DayNumber(f.year + 1900, f.mon, f.mday)
    ensures AllInts(f) && IsInt(f.year + 1900) ==> CarriesFit(f, false)
  {
    assert CarriedMin(f, false) == f.min && CarriedHour(f, false) == f.hour && CarriedDay(f, false) == f.mday;
    assert f.mon / 12 == 0;
  }

  // Every in-range date from the first year that tm_year can name is converted.
  lemma {:induction false} InRangeConvertible(f: Fields)
    requires AllInts(f) && InRange(f) && f.year + 1900 <= INT_MAX
    ensures Convertible(f) && Answer(f) == Instant(f)
  {
    DayWithinYear(f);
    YearOfIs(DayNumber(f.year + 1900, f.mon, f.mday), f.year + 1900);
    InRangeCarriesNothing(f);
    SearchTarget(f);
  }

  // Fields far out of range are carried: up to 10^9 in size, all of them, every
  // time is converted to its instant, and no comparison overflows.
  lemma {:induction false} OrdinaryConvertible(f: Fields)
    requires Ordinary(f.sec) && Ordinary(f.min) && Ordinary(f.hour) && Ordinary(f.mday) && Ordinary(f.mon) && Ordinary(f.year)
    requires IsInt(f.isdst)
    ensures Convertible(f) && Exact(f) && Answer(f) == Instant(f)
  {
    OrdinaryCarries(f);
    CarriesKeepInstant(f, false);
    hide YearOf, DayAfterCarries, CarriesFit, DaysBeforeYear, DaysBeforeMonth;
    var d := DayAfterCarries(f, false);
    YearsNear(d, Instant(f) / 86400, 20_000);
  }

  predicate Ordinary(n: int) {
    -1_000_000_000 <= n <= 1_000_000_000
  }

  lemma OrdinaryCarries(f: Fields)
    requires Ordinary(f.sec) && Ordinary(f.min) && Ordinary(f.hour) && Ordinary(f.mday) && Ordinary(f.mon) && Ordinary(f.year)
    ensures CarriesFit(f, false) && -1_200_000_000 <= YearOf(DayAfterCarries(f, false)) <= 1_200_000_000
  {
    hide YearOf, DaysBeforeYear, DaysBeforeMonth;
    var y, mday := f.year + 1900 + f.mon / 12, CarriedDay(f, false);
    assert -1_100_000_000 <= mday <= 1_100_000_000;
    assert (f.year + 1900) + f.mon / 12 == y;
    MonthStartWithinYear(y, f.mon % 12);
    MonthOrder(y, f.mon % 12, f.mon % 12 + 1);
    NextYear(y);
    YearOfIs(DaysBeforeYear(y), y);
    YearsNear(DaysBeforeYear(y), DayAfterCarries(f, false), 1_100_000_400);
  }

  // Days close to each other lie in years close to each other.
  lemma YearsNear(d: int, e: int, n: int)
    requires n >= 0 && -n <= d - e <= n
    ensures -(n / 365) - 2 <= YearOf(d) - YearOf(e) <= n / 365 + 2
  {
    hide YearOf, DaysBeforeYear;
    var y, z := YearOf(d), YearOf(e);
    if y + 1 < z { YearSpan(y + 1, z); }
    if z + 1 < y { YearSpan(z + 1, y); }
  }

  // mktime undoes gmtime on every second that gmtime can represent, and without
  // an overflow exactly from the year INT_MIN + 1970 on;
  lemma {:induction false} MktimeOfGmtime(t: int)
    requires Representable(t)
    ensures AllInts(GmFields(t)) && Convertible(GmFields(t)) && Answer(GmFields(t)) == t
    ensures Exact(GmFields(t)) <==> YearOfSecond(t) >= INT_MIN + 1970
  {
    InstantOfGmFields(t);
    InRangeConvertible(GmFields(t));
    InRangeExact(GmFields(t));
  }

  lemma InRangeExact(f: Fields)
    requires AllInts(f) && InRange(f) && f.year + 1900 <= INT_MAX
    ensures Exact(f) <==> f.year + 1900 >= INT_MIN + 1970
  {
    hide DaysBeforeYear, DaysBeforeMonth, IsLeap, YearOf, Instant;
    InRangeConvertible(f);
    InRangeCarriesNothing(f);
    DayWithinYear(f);
    YearOfIs(DayNumber(f.year + 1900, f.mon, f.mday), f.year + 1900);
    SearchTarget(f);
  }

  // gmtime undoes mktime on every consistent in-range date that fits,
  lemma {:induction false} GmtimeOfMktime(f: Fields)
    requires AllInts(f) && Canonical(f) && f.year + 1900 <= INT_MAX
    ensures Representable(Answer(f)) && GmFields(Answer(f)) == f
    ensures Exact(f) <==> f.year >= INT_MIN + 70
  {
    hide Exact, Convertible, YearOf, DaysBeforeYear;
    InRangeConvertible(f);
    InRangeExact(f);
    InstantOfCanonical(f);
    GmFieldsUnique(f);
  }

  // and both keep order: tmcomp on converted times compares their seconds.
  lemma {:induction false} GmtimeKeepsOrder(s: int, t: int)
    ensures TmComp(GmFields(s), GmFields(t)) < 0 <==> s < t
    ensures TmComp(GmFields(s), GmFields(t)) == 0 <==> s == t
    ensures TmComp(GmFields(s), GmFields(t)) > 0 <==> s > t
  {
    InstantOfGmFields(s);
    InstantOfGmFields(t);
    TmCompIsTimeOrder(GmFields(s), GmFields(t));
  }

  // mktime leaves the normal form of its argument: what it writes back is
  // consistent and in range, names the same second, and is a fixed point.
  lemma {:induction false} NormalFormIsFixed(f: Fields)
    requires AllInts(f) && Convertible(f)
    ensures var g := GmFields(Answer(f));
            Canonical(g) && Instant(g) == Instant(f) && Convertible(g) && GmFields(Answer(g)) == g
  {
    InstantOfGmFields(Instant(f));
    MktimeOfGmtime(Instant(f));
  }
}
