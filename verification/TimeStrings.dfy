// The enclave's reading of ISO timestamps, YYYY-MM-DDThh:mm:ssZ.
module TimeStrings {
  import opened CInt
  import opened Gregorian
  import opened GMTime
  import opened MkTime

  // A C char on a platform where char is signed.
  type CChar = c: int | -128 <= c < 128

  const WORD: int := 0x1_0000_0000

  function AsUint32(n: int): int {
    n % WORD
  }

  // The value an int has when its four bytes were written as a uint32_t.
  function AsInt32(u: int): int {
    if u >= 0x8000_0000 then u - WORD else u
  }

  // Positional value of characters read as decimal digits, whatever they are.
  function Decimal(s: seq<CChar>): int {
    if s == [] then 0 else Decimal(s[..|s| - 1]) * 10 + (s[|s| - 1] - '0' as int)
  }

  lemma {:induction false} DecimalBound(s: seq<CChar>)
    ensures |s| <= 1 ==> -200 <= Decimal(s) <= 100
    ensures |s| == 2 ==> -2_200 <= Decimal(s) <= 1_100
    ensures |s| == 3 ==> -22_200 <= Decimal(s) <= 11_100
    ensures |s| == 4 ==> -222_200 <= Decimal(s) <= 111_100
    decreases |s|
  {
    if s != [] { DecimalBound(s[..|s| - 1]); }
  }

  // qvlStringToNum: all arithmetic is modulo 2^32, and the caller reads the
  // result back as an int.
  method StringToNum(str: seq<CChar>, pos: nat, count: nat) returns (num: int)
    requires 1 <= count <= 4 && pos + count <= |str|
    ensures 0 <= num < WORD && AsInt32(num) == Decimal(str[pos..pos + count])
  {
    num := AsUint32(str[pos] - '0' as int);
    var i := 1;
    assert str[pos..pos + 1][..0] == [];
    while i < count
      invariant 1 <= i <= count
      invariant num == AsUint32(Decimal(str[pos..pos + i]))
    {
      assert str[pos..pos + i + 1][..i] == str[pos..pos + i];
      WrapStep(Decimal(str[pos..pos + i]), str[pos + i] - '0' as int);
      num := AsUint32(num * 10 + AsUint32(str[pos + i] - '0' as int));
      i := i + 1;
    }
    DecimalBound(str[pos..pos + count]);
  }

  lemma WrapStep(n: int, d: int)
    ensures AsUint32(AsUint32(n) * 10 + AsUint32(d)) == AsUint32(n * 10 + d)
  {
    var q := n / WORD * 10 + d / WORD;
    assert n * 10 + d == q * WORD + (n % WORD * 10 + d % WORD);
    assert (n * 10 + d) / WORD == q + (n % WORD * 10 + d % WORD) / WORD;
  }

  // The fields at their fixed places, as qvlStringToTime passes them to mktime.
  function Stamp(s: seq<CChar>): Fields
    requires |s| >= 20
  {
    Fields(Decimal(s[17..19]), Decimal(s[14..16]), Decimal(s[11..13]), Decimal(s[8..10]),
           Decimal(s[5..7]) - 1, Decimal(s[0..4]) - 1900, 0, 0, -1)
  }

  predicate Separators(s: seq<CChar>)
    requires |s| >= 20
  {
    && s[4] == '-' as int && s[7] == '-' as int && s[10] == 'T' as int
    && s[13] == ':' as int && s[16] == ':' as int && s[19] == 'Z' as int
  }

  // A real date and time of 1900 or later, at its places in the string.
  predicate Accepted(s: seq<CChar>) {
    |s| >= 20 && Separators(s) && InRange(Stamp(s)) && Stamp(s).year >= 0
  }

  // The result of reading s; -1 marks a rejected string.
  function TimeOf(s: seq<CChar>): int {
    if Accepted(s) then Instant(Stamp(s)) else -1
  }

  // In-range times on a day of 1 to 31, in a month that may be shorter.
  predicate Loose(f: Fields) {
    && 0 <= f.sec < 60 && 0 <= f.min < 60 && 0 <= f.hour < 24
    && 0 <= f.mon <= 11 && 1 <= f.mday <= 31 && 0 <= f.year
  }

  lemma LooseYear(f: Fields)
    requires Loose(f)
    ensures f.year + 1900 <= YearOf(DayNumber(f.year + 1900, f.mon, f.mday)) <= f.year + 1901
  {
    hide DaysBeforeYear, DaysBeforeMonth, IsLeap, YearOf;
    var y := f.year + 1900;
    var d := DayNumber(y, f.mon, f.mday);
    assert f.mon / 12 == 0 && f.mon % 12 == f.mon;
    MonthStartWithinYear(y, f.mon);
    NextMonthStart(y, f.mon);
    NextYear(y);
    NextYear(y + 1);
    YearBelow(d, y);
    YearBelow(d, y + 2);
  }

  lemma NoCarries(f: Fields)
    requires AllInts(f) && Loose(f) && f.year <= 200_000
    ensures CarriesFit(f, false) && DayAfterCarries(f, false) == DayNumber(f.year + 1900, f.mon, f.mday)
  {
    assert CarriedMin(f, false) == f.min && CarriedHour(f, false) == f.hour && CarriedDay(f, false) == f.mday;
    assert f.mon / 12 == 0;
  }

  // Such a time always converts, and no comparison on the way overflows,
  lemma {:induction false} LooseDateConvertible(f: Fields)
    requires AllInts(f) && Loose(f) && f.year <= 200_000
    ensures Convertible(f) && Exact(f)
  {
    NoCarries(f);
    LooseYear(f);
    SplitDay(Instant(f), DayNumber(f.year + 1900, f.mon, f.mday), f.hour * 3600 + f.min * 60 + f.sec);
  }

  // and conversion leaves the fields alone exactly when the day exists.
  lemma {:induction false} UnchangedMeansReal(f: Fields)
    ensures TmComp(GmFields(Instant(f)), f) == 0 <==> InRange(f)
  {
    hide GmFields, YearOf, DaysBeforeYear, DaysBeforeMonth, EpochSeconds;
    var g := GmFields(Instant(f));
    InstantOfGmFields(Instant(f));
    if InRange(f) {
      TmCompIsTimeOrder(g, f);
    }
  }

  // qvlStringToTime, the fields: each is stored before it is checked.
  method ReadFields(str: seq<CChar>, datetime: Tm) returns (ok: bool)
    requires |str| >= 20
    modifies datetime
    ensures ok <==> Separators(str) && Loose(Stamp(str))
    ensures ok ==> datetime.Value() == Stamp(str).(wday := datetime.wday, yday := datetime.yday, isdst := datetime.isdst)
  {
    ok := false;
    var num := StringToNum(str, 0, 4);
    datetime.year := AsInt32(num);
    datetime.year := datetime.year - 1900;
    if datetime.year < 0 { return; }
    if str[4] != '-' as int { return; }
    num := StringToNum(str, 5, 2);
    datetime.mon := AsInt32(num);
    datetime.mon := datetime.mon - 1;
    if datetime.mon < 0 || datetime.mon > 11 { return; }
    if str[7] != '-' as int { return; }
    num := StringToNum(str, 8, 2);
    datetime.mday := AsInt32(num);
    if datetime.mday < 1 || datetime.mday > 31 { return; }
    if str[10] != 'T' as int { return; }
    num := StringToNum(str, 11, 2);
    datetime.hour := AsInt32(num);
    if datetime.hour < 0 || datetime.hour > 23 { return; }
    if str[13] != ':' as int { return; }
    num := StringToNum(str, 14, 2);
    datetime.min := AsInt32(num);
    if datetime.min < 0 || datetime.min > 59 { return; }
    if str[16] != ':' as int { return; }
    num := StringToNum(str, 17, 2);
    datetime.sec := AsInt32(num);
    if datetime.sec < 0 || datetime.sec > 59 { return; }
    if str[19] != 'Z' as int { return; }
    ok := true;
  }

  // qvlStringToTime: mktime moves a day past the end of its month into the
  // next one, and the comparison with the fields before the call sees it.
  method StringToTime(str: seq<CChar>, datetime: Tm?) returns (result: int)
    modifies datetime
    ensures datetime == null ==> result == -1
    ensures datetime != null ==> result == TimeOf(str)
    ensures result != -1 ==> datetime != null && datetime.Value() == GmFields(result)
  {
    hide GmFields, GuardsPass, Representable, Misread, Decimal, Separators, Instant;
    result := -1;
    if |str| < 20 || datetime == null { return; }
    var ok := ReadFields(str, datetime);
    if !ok { return; }
    datetime.wday := 0;
    datetime.yday := 0;
    datetime.isdst := -1;
    var validate := datetime.Value();
    assert validate == Stamp(str);
    DecimalBound(str[0..4]);
    LooseDateConvertible(validate);
    UnchangedMeansReal(validate);
    ghost var exact;
    result, exact := Mktime(datetime);
    assert exact;
    if validate.year != datetime.year || validate.mon != datetime.mon ||
       validate.mday != datetime.mday || validate.hour != datetime.hour ||
       validate.min != datetime.min || validate.sec != datetime.sec
    {
      result := -1;
    }
  }

  method IsValidTimeString(timeString: seq<CChar>) returns (valid: bool)
    ensures valid == (TimeOf(timeString) != -1)
  {
    var tmp := new Tm(Fields(0, 0, 0, 0, 0, 0, 0, 0, 0));
    var t := StringToTime(timeString, tmp);
    valid := t != -1;
  }

  method GetTimeFromString(date: seq<CChar>) returns (r: Fields)
    ensures r == if TimeOf(date) != -1 then GmFields(TimeOf(date)) else Fields(0, 0, 0, 0, 0, 0, 0, 0, 0)
  {
    r := Fields(0, 0, 0, 0, 0, 0, 0, 0, 0);
    var tmp := new Tm(r);
    var t := StringToTime(date, tmp);
    if t != -1 { r := tmp.Value(); }
  }

  // ---- What the reader is for ----

  predicate IsDigit(c: CChar) {
    '0' as int <= c <= '9' as int
  }

  // Decimal digits at every numeric place.
  predicate Digits(s: seq<CChar>)
    requires |s| >= 20
  {
    && IsDigit(s[0]) && IsDigit(s[1]) && IsDigit(s[2]) && IsDigit(s[3])
    && IsDigit(s[5]) && IsDigit(s[6]) && IsDigit(s[8]) && IsDigit(s[9])
    && IsDigit(s[11]) && IsDigit(s[12]) && IsDigit(s[14]) && IsDigit(s[15])
    && IsDigit(s[17]) && IsDigit(s[18])
  }

  function Digit(n: int): CChar {
    n % 10 + '0' as int
  }

  function Two(n: int): seq<CChar> {
    [Digit(n / 10), Digit(n)]
  }

  function Four(n: int): seq<CChar> {
    [Digit(n / 1000), Digit(n / 100), Digit(n / 10), Digit(n)]
  }

  // The date-time form of section 5.6 of RFC 3339, in UTC without a fraction.
  function Render(f: Fields): seq<CChar> {
    Four(f.year + 1900) + ['-' as int] + Two(f.mon + 1) + ['-' as int] + Two(f.mday) + ['T' as int] +
    Two(f.hour) + [':' as int] + Two(f.min) + [':' as int] + Two(f.sec) + ['Z' as int]
  }

  // The times that a four-digit year from 1900 on can write.
  predicate Writable(f: Fields) {
    Canonical(f) && 1900 <= f.year + 1900 <= 9999
  }

  function Value(c: CChar): int {
    c as int - '0' as int
  }

  lemma DecimalTwo(s: seq<CChar>)
    requires |s| == 2
    ensures Decimal(s) == Value(s[0]) * 10 + Value(s[1])
  {
    assert s[..1][..0] == [];
    assert Decimal(s[..1]) == Value(s[..1][0]);
  }

  lemma DecimalFour(s: seq<CChar>)
    requires |s| == 4
    ensures Decimal(s) == Value(s[0]) * 1000 + Value(s[1]) * 100 + Value(s[2]) * 10 + Value(s[3])
  {
    assert s[..3][..2] == s[..2];
    DecimalTwo(s[..2]);
  }

  lemma RenderedFields(s: seq<CChar>)
    requires |s| >= 20
    ensures Stamp(s) == Fields(Value(s[17]) * 10 + Value(s[18]), Value(s[14]) * 10 + Value(s[15]),
                               Value(s[11]) * 10 + Value(s[12]), Value(s[8]) * 10 + Value(s[9]),
                               Value(s[5]) * 10 + Value(s[6]) - 1,
                               Value(s[0]) * 1000 + Value(s[1]) * 100 + Value(s[2]) * 10 + Value(s[3]) - 1900,
                               0, 0, -1)
  {
    DecimalFour(s[0..4]);
    DecimalTwo(s[5..7]);
    DecimalTwo(s[8..10]);
    DecimalTwo(s[11..13]);
    DecimalTwo(s[14..16]);
    DecimalTwo(s[17..19]);
  }

  lemma RenderedDigits(f: Fields, rest: seq<CChar>)
    ensures var s := Render(f) + rest;
            && |s| >= 20 && s[..20] == Render(f) && Separators(s) && Digits(s)
            && s[0..4] == Four(f.year + 1900) && s[5..7] == Two(f.mon + 1) && s[8..10] == Two(f.mday)
            && s[11..13] == Two(f.hour) && s[14..16] == Two(f.min) && s[17..19] == Two(f.sec)
  {
  }

  lemma StampOfRender(f: Fields, rest: seq<CChar>)
    requires Canonical(f) && 1900 <= f.year + 1900 <= 9999
    ensures Stamp(Render(f) + rest) == f.(wday := 0, yday := 0, isdst := -1)
  {
    RenderedDigits(f, rest);
    DecimalOfTwo(f.sec);
    DecimalOfTwo(f.min);
    DecimalOfTwo(f.hour);
    DecimalOfTwo(f.mday);
    DecimalOfTwo(f.mon + 1);
    DecimalOfFour(f.year + 1900);
  }

  // A written time reads back as its second, whatever follows it.
  lemma {:induction false} ReadOfRender(f: Fields, rest: seq<CChar>)
    requires Writable(f)
    ensures Accepted(Render(f) + rest) && TimeOf(Render(f) + rest) == EpochSeconds(f)
  {
    hide Render, EpochSeconds, Stamp, DayNumber, DaysBeforeYear, DaysBeforeMonth;
    RenderedDigits(f, rest);
    StampOfRender(f, rest);
    InstantOfCanonical(f);
  }

  lemma DecimalOfTwo(n: int)
    requires 0 <= n < 100
    ensures Decimal(Two(n)) == n
  {
    DecimalTwo(Two(n));
    SplitTwo(n);
  }

  lemma DecimalOfFour(n: int)
    requires 0 <= n < 10000
    ensures Decimal(Four(n)) == n
  {
    DecimalFour(Four(n));
    SplitFour(n);
  }

  lemma SplitTwo(n: int)
    requires 0 <= n < 100
    ensures n / 10 % 10 * 10 + n % 10 == n
  {
  }

  lemma SplitFour(n: int)
    requires 0 <= n < 10000
    ensures n / 1000 % 10 * 1000 + n / 100 % 10 * 100 + n / 10 % 10 * 10 + n % 10 == n
  {
    assert n / 100 == n / 10 / 10 && n / 1000 == n / 100 / 10;
  }

  lemma JoinTwo(a: CChar, b: CChar)
    requires IsDigit(a) && IsDigit(b)
    ensures Two(Value(a) * 10 + Value(b)) == [a, b]
  {
  }

  lemma JoinFour(a: CChar, b: CChar, c: CChar, d: CChar)
    requires IsDigit(a) && IsDigit(b) && IsDigit(c) && IsDigit(d)
    ensures Four(Value(a) * 1000 + Value(b) * 100 + Value(c) * 10 + Value(d)) == [a, b, c, d]
  {
    var n := Value(a) * 1000 + Value(b) * 100 + Value(c) * 10 + Value(d);
    SplitOff(n, 10, Value(a) * 100 + Value(b) * 10 + Value(c), Value(d));
    SplitOff(n, 100, Value(a) * 10 + Value(b), Value(c) * 10 + Value(d));
    SplitOff(n, 1000, Value(a), Value(b) * 100 + Value(c) * 10 + Value(d));
    SplitOff(Value(a) * 100 + Value(b) * 10 + Value(c), 10, Value(a) * 10 + Value(b), Value(c));
    SplitOff(Value(a) * 10 + Value(b), 10, Value(a), Value(b));
  }

  lemma SplitOff(n: int, base: int, q: int, r: int)
    requires base == 10 || base == 100 || base == 1000
    requires n == q * base + r && 0 <= r < base
    ensures n / base == q && n % base == r
  {
  }

  lemma StampOfRead(s: seq<CChar>)
    requires Accepted(s)
    ensures var g := GmFields(TimeOf(s));
            && Canonical(g) && EpochSeconds(g) == TimeOf(s)
            && Stamp(s) == g.(wday := 0, yday := 0, isdst := -1)
  {
    GmFieldsCorrect(TimeOf(s));
    UnchangedMeansReal(Stamp(s));
  }

  lemma Slices(s: seq<CChar>)
    requires |s| >= 20
    ensures s[..20] == s[0..4] + [s[4]] + s[5..7] + [s[7]] + s[8..10] + [s[10]] + s[11..13] + [s[13]] +
                       s[14..16] + [s[16]] + s[17..19] + [s[19]]
  {
  }

  lemma TwoOfDecimal(s: seq<CChar>)
    requires |s| == 2 && IsDigit(s[0]) && IsDigit(s[1])
    ensures Two(Decimal(s)) == s
  {
    DecimalTwo(s);
    JoinTwo(s[0], s[1]);
  }

  lemma FourOfDecimal(s: seq<CChar>)
    requires |s| == 4 && IsDigit(s[0]) && IsDigit(s[1]) && IsDigit(s[2]) && IsDigit(s[3])
    ensures Four(Decimal(s)) == s
  {
    DecimalFour(s);
    JoinFour(s[0], s[1], s[2], s[3]);
  }

  lemma DigitsAreRendered(s: seq<CChar>)
    requires |s| >= 20 && Separators(s) && Digits(s)
    ensures s[..20] == Render(Stamp(s))
  {
    Slices(s);
    TwoOfDecimal(s[17..19]);
    TwoOfDecimal(s[14..16]);
    TwoOfDecimal(s[11..13]);
    TwoOfDecimal(s[8..10]);
    TwoOfDecimal(s[5..7]);
    FourOfDecimal(s[0..4]);
  }

  lemma RenderedHasDigits(s: seq<CChar>, f: Fields)
    requires |s| >= 20 && s[..20] == Render(f)
    ensures Digits(s)
  {
    RenderedDigits(f, s[20..]);
    assert s == Render(f) + s[20..];
  }

  lemma FourDigitYear(s: seq<CChar>)
    requires |s| >= 20 && Digits(s)
    ensures Stamp(s).year + 1900 <= 9999
  {
    DecimalFour(s[0..4]);
  }

  // Among accepted strings, those that begin with the written form of their own
  // time are exactly those with digits at the numeric places.
  lemma {:induction false} AcceptedIsRendered(s: seq<CChar>)
    requires Accepted(s)
    ensures s[..20] == Render(GmFields(TimeOf(s))) && Writable(GmFields(TimeOf(s))) <==> Digits(s)
  {
    var g := GmFields(TimeOf(s));
    StampOfRead(s);
    SameRender(Stamp(s), g);
    if Digits(s) {
      DigitsAreRendered(s);
      FourDigitYear(s);
    }
    if s[..20] == Render(g) {
      RenderedHasDigits(s, g);
    }
  }

  lemma SameRender(f: Fields, g: Fields)
    requires f == g.(wday := f.wday, yday := f.yday, isdst := f.isdst)
    ensures Render(f) == Render(g)
  {
  }

  // On 20-character strings of digits and separators the reader accepts exactly
  // the real timestamps from 1900 on, except the one whose second is -1.
  lemma {:induction false} AcceptsExactlyTimestamps(s: seq<CChar>)
    requires |s| == 20 && Digits(s)
    ensures TimeOf(s) != -1 <==> exists f :: Writable(f) && s == Render(f) && EpochSeconds(f) != -1
  {
    assert s[..20] == s;
    if TimeOf(s) != -1 {
      AcceptedIsRendered(s);
      StampOfRead(s);
      assert Writable(GmFields(TimeOf(s)));
    }
    forall f | Writable(f) && s == Render(f)
      ensures TimeOf(s) == EpochSeconds(f)
    {
      ReadOfRender(f, []);
      assert s + [] == s;
    }
  }

  // Characters beside the digits are read by their code: ':' follows '9', so
  // "0:" is the month 10.
  lemma {:induction false} ColonReadAsTen(d: seq<CChar>, e: seq<CChar>)
    requires |d| == 20 && d[5] == '1' as int && d[6] == '0' as int && Accepted(d)
    requires e == d[5 := '0' as int][6 := ':' as int]
    ensures !Digits(e) && Accepted(e) && TimeOf(e) == TimeOf(d)
  {
    hide Instant, DaysBeforeYear, DaysBeforeMonth;
    RenderedFields(d);
    RenderedFields(e);
  }

  // "2023-0:-05T00:00:00Z" is read as the fifth of October.
  lemma {:induction false} ColonExample()
    ensures var f := Fields(0, 0, 0, 5, 9, 123, 4, 277, 0);
            var e := Render(f)[5 := '0' as int][6 := ':' as int];
            Writable(f) && !Digits(e) && Accepted(e) && TimeOf(e) == EpochSeconds(f) == 1_696_464_000
  {
    var f := Fields(0, 0, 0, 5, 9, 123, 4, 277, 0);
    var d := Render(f);
    OctoberFifth();
    TenthMonth(f);
    hide Render, Accepted, TimeOf, EpochSeconds, Writable, Digits, Two;
    ReadOfRender(f, []);
    assert d + [] == d;
    ColonReadAsTen(d, d[5 := '0' as int][6 := ':' as int]);
  }

  lemma TenthMonth(f: Fields)
    requires f.mon == 9
    ensures |Render(f)| == 20 && Render(f)[5] == '1' as int && Render(f)[6] == '0' as int
  {
    RenderedDigits(f, []);
    assert Render(f) + [] == Render(f);
    assert Render(f)[5..7] == ['1' as int, '0' as int];
  }

  lemma OctoberFifthWritten()
    ensures var s := Render(Fields(0, 0, 0, 5, 9, 123, 4, 277, 0));
            |s| == 20 && forall k :: 0 <= k < 20 ==> s[k] == "2023-10-05T00:00:00Z"[k] as int
  {
    var s := Render(Fields(0, 0, 0, 5, 9, 123, 4, 277, 0));
    assert s == Four(2023) + ['-' as int] + Two(10) + ['-' as int] + Two(5) + ['T' as int] +
                Two(0) + [':' as int] + Two(0) + [':' as int] + Two(0) + ['Z' as int];
    var t := "2023-10-05T00:00:00Z";
    assert s[0] == t[0] as int && s[1] == t[1] as int && s[2] == t[2] as int && s[3] == t[3] as int;
    assert s[4] == t[4] as int && s[5] == t[5] as int && s[6] == t[6] as int && s[7] == t[7] as int;
    assert s[8] == t[8] as int && s[9] == t[9] as int && s[10] == t[10] as int && s[11] == t[11] as int;
    assert s[12] == t[12] as int && s[13] == t[13] as int && s[14] == t[14] as int && s[15] == t[15] as int;
    assert s[16] == t[16] as int && s[17] == t[17] as int && s[18] == t[18] as int && s[19] == t[19] as int;
  }

  lemma OctoberFifth()
    ensures var f := Fields(0, 0, 0, 5, 9, 123, 4, 277, 0);
            && Writable(f) && EpochSeconds(f) == 1_696_464_000 && |Render(f)| == 20
            && forall k :: 0 <= k < 20 ==> Render(f)[k] == "2023-10-05T00:00:00Z"[k] as int
  {
    OctoberFifthWritten();
    hide Render;
    assert DaysBeforeMonth(2023, 3) == 90;
    assert DaysBeforeMonth(2023, 6) == 181;
    assert DaysBeforeMonth(2023, 9) == 273;
  }

  // The first place where two strings differ decides their order.
  ghost predicate Before(s: seq<CChar>, t: seq<CChar>) {
    exists k :: FirstDifference(s, t, k) && s[k] < t[k]
  }

  predicate FirstDifference(s: seq<CChar>, t: seq<CChar>, k: int) {
    0 <= k < |s| && k < |t| && s[k] != t[k] && forall i :: 0 <= i < k ==> s[i] == t[i]
  }

  lemma {:induction false} DifferenceExists(s: seq<CChar>, t: seq<CChar>, n: nat)
    requires |s| == |t| && n <= |s| && s[..n] == t[..n] && s != t
    ensures exists k :: FirstDifference(s, t, k)
    decreases |s| - n
  {
    assert n < |s|;
    if s[n] != t[n] {
      assert forall i :: 0 <= i < n ==> s[i] == s[..n][i] && t[i] == t[..n][i];
      assert FirstDifference(s, t, n);
    } else {
      assert s[..n + 1] == s[..n] + [s[n]] && t[..n + 1] == t[..n] + [t[n]];
      DifferenceExists(s, t, n + 1);
    }
  }

  lemma {:induction false} DifferenceDecides(s: seq<CChar>, t: seq<CChar>, k: int)
    requires Accepted(s) && Digits(s) && Accepted(t) && Digits(t)
    requires FirstDifference(s, t, k) && s[k] < t[k] && k < 20
    ensures TmComp(Stamp(s), Stamp(t)) < 0
  {
    RenderedFields(s);
    RenderedFields(t);
    assert k != 4 && k != 7 && k != 10 && k != 13 && k != 16 && k != 19;
  }

  // On accepted strings of digits and separators, alphabetical order is the
  // order of time.
  lemma {:induction false} StringOrderIsTimeOrder(s: seq<CChar>, t: seq<CChar>)
    requires |s| == |t| == 20 && Accepted(s) && Digits(s) && Accepted(t) && Digits(t)
    ensures Before(s, t) <==> TimeOf(s) < TimeOf(t)
    ensures s == t <==> TimeOf(s) == TimeOf(t)
  {
    TmCompIsTimeOrder(Stamp(s), Stamp(t));
    TmCompIsTimeOrder(Stamp(t), Stamp(s));
    if s != t {
      DifferenceExists(s, t, 0);
      var k :| FirstDifference(s, t, k);
      assert FirstDifference(t, s, k);
      if s[k] < t[k] { DifferenceDecides(s, t, k); } else { DifferenceDecides(t, s, k); }
    }
    if Before(s, t) {
      var j :| FirstDifference(s, t, j) && s[j] < t[j];
      DifferenceDecides(s, t, j);
    }
  }
}
