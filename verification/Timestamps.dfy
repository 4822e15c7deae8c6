/** The timestamps of the log and of the indexer, in the date-time format of section 5.6 of RFC 3339, and
    why they sort as strings (section 5.1 of RFC 3339). */
module Timestamps {
  import opened Calendar
  import opened Decimal

  const MILLIS_PER_DAY := 86_400_000

  function Zeros(n: nat): string {
    if n == 0 then [] else ['0'] + Zeros(n - 1)
  }

  /** Rust's `{:0width}` for a number that is not negative. */
  function Pad(n: nat, width: nat): string {
    if |Dec(n)| >= width then Dec(n) else Zeros(width - |Dec(n)|) + Dec(n)
  }

  /** Rust's `{:04}` for a signed year: the sign takes one of the four places. */
  function PadYear(year: int): string {
    if year >= 0 then Pad(year, 4) else "-" + Pad(-year, 3)
  }

  function Stamp(date: Date, hour: nat, minute: nat, second: nat, milli: nat): string
    requires IsDate(date)
  {
    PadYear(date.year) + ("-" + (Pad(date.month, 2) + ("-" + (Pad(date.day, 2) + ("T"
    + (Pad(hour, 2) + (":" + (Pad(minute, 2) + (":" + (Pad(second, 2) + ("." + (Pad(milli, 3) + "Z"))))))))))))
  }

  function IsoFromEpochMillis(millis: int): string {
    var days, ofDay := millis / MILLIS_PER_DAY, millis % MILLIS_PER_DAY;
    EveryDayIsADate(days);
    Stamp(CivilFromDays(days), ofDay / 3_600_000, ofDay / 60_000 % 60, ofDay / 1000 % 60, ofDay % 1000)
  }

  /** The indexer's stamp of a number of seconds since the epoch. */
  function IndexerNowIso(seconds: nat): string {
    var days, rem := seconds / 86_400, seconds % 86_400;
    EveryDayIsADate(days);
    CopiesAgree(days);
    Stamp(IndexerCivilFromDays(days), rem / 3600, rem % 3600 / 60, rem % 60, 0)
  }

  lemma ClockOfSeconds(rem: nat)
    requires rem < 86_400
    ensures
      var ofDay := 1000 * rem;
      && ofDay / 3_600_000 == rem / 3600 && ofDay / 60_000 % 60 == rem % 3600 / 60
      && ofDay / 1000 % 60 == rem % 60 && ofDay % 1000 == 0
  {
    var h, m, s := rem / 3600, rem % 3600 / 60, rem % 60;
    assert rem == 3600 * h + 60 * m + s;
    assert 1000 * rem / 60_000 == 60 * h + m;
    assert 1000 * rem / 1000 == rem;
  }

  /** Both programs stamp a whole second alike. */
  lemma StampsAgree(seconds: nat)
    ensures IndexerNowIso(seconds) == IsoFromEpochMillis(1000 * seconds)
  {
    hide Stamp, IndexerCivilFromDays, CivilFromDays;
    CopiesAgree(seconds / 86_400);
    var millis := 1000 * seconds;
    assert millis / MILLIS_PER_DAY == seconds / 86_400 && millis % MILLIS_PER_DAY == 1000 * (seconds % 86_400);
    ClockOfSeconds(seconds % 86_400);
  }

  // ---------------------------------------------------------------------------------------------
  // Strings of fixed width sort as their numbers do

  /** The order of strings, character by character. */
  predicate Less(s: string, t: string) {
    t != [] && (s == [] || s[0] < t[0] || (s[0] == t[0] && Less(s[1..], t[1..])))
  }

  function Pow10(w: nat): nat {
    if w == 0 then 1 else 10 * Pow10(w - 1)
  }

  /** The last w digits of n. */
  function Fixed(n: nat, w: nat): (s: string)
    ensures |s| == w
  {
    if w == 0 then [] else Fixed(n / 10, w - 1) + [DigitChar(n % 10)]
  }

  lemma {:induction false} LessConcat(a: string, b: string, c: string, d: string)
    requires |a| == |c|
    ensures Less(a + b, c + d) <==> Less(a, c) || (a == c && Less(b, d))
  {
    if a == [] {
      assert a + b == b && c + d == d;
    } else {
      LessConcat(a[1..], b, c[1..], d);
      assert (a + b)[1..] == a[1..] + b && (c + d)[1..] == c[1..] + d;
      assert a == [a[0]] + a[1..] && c == [c[0]] + c[1..];
    }
  }

  lemma {:induction false} FixedOrder(m: nat, n: nat, w: nat)
    requires m < Pow10(w) && n < Pow10(w)
    ensures Less(Fixed(m, w), Fixed(n, w)) <==> m < n
    ensures Fixed(m, w) == Fixed(n, w) <==> m == n
  {
    if w == 0 {
    } else {
      FixedOrder(m / 10, n / 10, w - 1);
      var x, y := [DigitChar(m % 10)], [DigitChar(n % 10)];
      LessConcat(Fixed(m / 10, w - 1), x, Fixed(n / 10, w - 1), y);
      assert Less(x, y) <==> m % 10 < n % 10;
      if Fixed(m, w) == Fixed(n, w) {
        assert Fixed(m, w)[..w - 1] == Fixed(m / 10, w - 1) && Fixed(n, w)[..w - 1] == Fixed(n / 10, w - 1);
        assert Fixed(m, w)[w - 1] == x[0] && Fixed(n, w)[w - 1] == y[0];
      }
    }
  }

  lemma {:induction false} ZerosSnoc(n: nat)
    ensures Zeros(n + 1) == Zeros(n) + ['0']
  {
    if n == 0 {
    } else {
      ZerosSnoc(n - 1);
    }
  }

  lemma {:induction false} FixedZero(w: nat)
    ensures Fixed(0, w) == Zeros(w)
  {
    if w == 0 {
    } else {
      FixedZero(w - 1);
      ZerosSnoc(w - 1);
    }
  }

  /** A number that fits its width is padded to exactly that width. */
  lemma {:induction false} PadIsFixed(n: nat, w: nat)
    requires w >= 1 && n < Pow10(w)
    ensures Pad(n, w) == Fixed(n, w)
  {
    if n < 10 {
      FixedZero(w - 1);
    } else {
      assert Pow10(1) == 10 * Pow10(0);
      PadIsFixed(n / 10, w - 1);
      assert |Fixed(n / 10, w - 1)| == w - 1;
      assert Dec(n) == Dec(n / 10) + [DigitChar(n % 10)];
    }
  }

  datatype Field = Field(value: nat, width: nat, mark: char)

  function Render(fields: seq<Field>): string {
    if fields == [] then []
    else Fixed(fields[0].value, fields[0].width) + [fields[0].mark] + Render(fields[1..])
  }

  predicate Earlier(u: seq<Field>, v: seq<Field>)
    requires |u| == |v|
  {
    u != [] && (u[0].value < v[0].value || (u[0].value == v[0].value && Earlier(u[1..], v[1..])))
  }

  ghost predicate SameShape(u: seq<Field>, v: seq<Field>) {
    && |u| == |v|
    && (forall i :: 0 <= i < |u| ==> u[i].width == v[i].width && u[i].mark == v[i].mark)
    && (forall i :: 0 <= i < |u| ==> u[i].value < Pow10(u[i].width) && v[i].value < Pow10(v[i].width))
  }

  lemma RenderCons(f: seq<Field>)
    requires f != []
    ensures Render(f) == Fixed(f[0].value, f[0].width) + ([f[0].mark] + Render(f[1..]))
  {
  }

  lemma SameShapeTail(u: seq<Field>, v: seq<Field>)
    requires SameShape(u, v) && u != []
    ensures SameShape(u[1..], v[1..])
    ensures v != [] && u[0].width == v[0].width && u[0].mark == v[0].mark
    ensures u[0].value < Pow10(u[0].width) && v[0].value < Pow10(u[0].width)
  {
  }

  lemma SameMark(mark: char, s: string, t: string)
    ensures Less([mark] + s, [mark] + t) <==> Less(s, t)
  {
    LessConcat([mark], s, [mark], t);
  }

  /** Fields of one layout sort as strings exactly as they sort field by field. */
  lemma {:induction false} RenderOrder(u: seq<Field>, v: seq<Field>)
    requires SameShape(u, v)
    ensures Less(Render(u), Render(v)) <==> Earlier(u, v)
    decreases |u|, 1
  {
    if u != [] {
      RenderMore(u, v);
    }
  }

  lemma {:induction false} RenderMore(u: seq<Field>, v: seq<Field>)
    requires SameShape(u, v) && u != []
    ensures Less(Render(u), Render(v)) <==> Earlier(u, v)
    decreases |u|, 0
  {
    hide SameShape, Less, Render, Fixed, Pow10;
    SameShapeTail(u, v);
    var f, g := u[0], v[0];
    var s, t := Render(u[1..]), Render(v[1..]);
    RenderOrder(u[1..], v[1..]);
    RenderCons(u);
    RenderCons(v);
    FixedOrder(f.value, g.value, f.width);
    LessConcat(Fixed(f.value, f.width), [f.mark] + s, Fixed(g.value, g.width), [g.mark] + t);
    SameMark(f.mark, s, t);
  }

  // ---------------------------------------------------------------------------------------------
  // Timestamps sort as the milliseconds do

  /** The instants of a range of years. */
  predicate InYears(millis: int, first: int, last: int) {
    first <= CivilFromDays(millis / MILLIS_PER_DAY).year <= last
  }

  /** What follows the year and its mark. */
  function FieldsOf(date: Date, ofDay: nat): seq<Field>
    requires IsDate(date)
  {
    [Field(date.month, 2, '-'), Field(date.day, 2, 'T'),
     Field(ofDay / 3_600_000, 2, ':'), Field(ofDay / 60_000 % 60, 2, ':'), Field(ofDay / 1000 % 60, 2, '.'),
     Field(ofDay % 1000, 3, 'Z')]
  }

  lemma Powers()
    ensures Pow10(2) == 100 && Pow10(3) == 1000 && Pow10(4) == 10_000
  {
    assert Pow10(0) == 1 && Pow10(1) == 10;
  }

  lemma DayIsShort(date: Date)
    requires IsDate(date)
    ensures 1 <= date.month <= 12 && 1 <= date.day <= 31
  {
  }

  lemma RenderNothing()
    ensures Render([]) == []
  {
  }

  lemma RenderSix(f: seq<Field>)
    requires |f| == 6
    ensures Render(f)
         == Fixed(f[0].value, f[0].width) + ([f[0].mark] + (Fixed(f[1].value, f[1].width) + ([f[1].mark]
            + (Fixed(f[2].value, f[2].width) + ([f[2].mark] + (Fixed(f[3].value, f[3].width) + ([f[3].mark]
            + (Fixed(f[4].value, f[4].width) + ([f[4].mark] + (Fixed(f[5].value, f[5].width) + ([f[5].mark]
            + [])))))))))))
  {
    hide Fixed, Render;
    assert f[1..][1..] == f[2..] && f[2..][1..] == f[3..] && f[3..][1..] == f[4..];
    assert f[4..][1..] == f[5..] && f[5..][1..] == [];
    RenderNothing();
    RenderCons(f[5..]);
    RenderCons(f[4..]);
    RenderCons(f[3..]);
    RenderCons(f[2..]);
    RenderCons(f[1..]);
    RenderCons(f);
  }

  lemma StampIsRender(date: Date, ofDay: nat)
    requires IsDate(date) && ofDay < MILLIS_PER_DAY
    ensures Stamp(date, ofDay / 3_600_000, ofDay / 60_000 % 60, ofDay / 1000 % 60, ofDay % 1000)
         == PadYear(date.year) + ("-" + Render(FieldsOf(date, ofDay)))
  {
    hide Fixed, Pad, PadYear, IsDate, Render;
    DayIsShort(date);
    Powers();
    RenderSix(FieldsOf(date, ofDay));
    PadIsFixed(date.month, 2);
    PadIsFixed(date.day, 2);
    PadIsFixed(ofDay / 3_600_000, 2);
    PadIsFixed(ofDay / 60_000 % 60, 2);
    PadIsFixed(ofDay / 1000 % 60, 2);
    PadIsFixed(ofDay % 1000, 3);
  }

  lemma OneSpelled()
    ensures PadYear(-1) == "-001" && PadYear(-2) == "-002"
  {
    assert Dec(1) == "1" && Dec(2) == "2";
    assert Zeros(0) == [] && Zeros(1) == "0" && Zeros(2) == "00";
  }

  lemma {:induction false} FixedStartsWithDigit(n: nat, w: nat)
    requires w >= 1
    ensures IsDigit(Fixed(n, w)[0])
  {
    if w == 1 {
    } else {
      FixedStartsWithDigit(n / 10, w - 1);
    }
  }

  lemma LessByFirst(s: string, t: string)
    requires s != [] && t != [] && s[0] != t[0]
    ensures Less(s, t) <==> s[0] < t[0]
  {
  }

  lemma {:induction false} LessIsStrict(s: string)
    ensures !Less(s, s)
  {
    if s == [] {
    } else {
      LessIsStrict(s[1..]);
    }
  }

  /** From the year -1, whose sign sorts before every digit, to 9999 the padded years sort as numbers. */
  lemma YearOrder(y: int, z: int)
    requires -1 <= y <= 9999 && -1 <= z <= 9999
    ensures |PadYear(y)| == |PadYear(z)| == 4
    ensures Less(PadYear(y), PadYear(z)) <==> y < z
    ensures PadYear(y) == PadYear(z) <==> y == z
  {
    hide Fixed, Pad, Less;
    Powers();
    OneSpelled();
    if y >= 0 {
      PadIsFixed(y, 4);
      FixedStartsWithDigit(y, 4);
    }
    if z >= 0 {
      PadIsFixed(z, 4);
      FixedStartsWithDigit(z, 4);
    }
    if y >= 0 && z >= 0 {
      FixedOrder(y, z, 4);
    } else if y >= 0 || z >= 0 {
      LessByFirst(PadYear(y), PadYear(z));
    } else {
      LessIsStrict("-001");
    }
  }

  /** Within a day, hours, minutes, seconds and milliseconds order as the milliseconds of the day. */
  predicate ClockBefore(s: nat, t: nat) {
    var (h, i) := (s / 3_600_000, t / 3_600_000);
    var (m, n) := (s / 60_000 % 60, t / 60_000 % 60);
    var (x, y) := (s / 1000 % 60, t / 1000 % 60);
    h < i || (h == i && (m < n || (m == n && (x < y || (x == y && s % 1000 < t % 1000)))))
  }

  lemma ClockParts(s: nat)
    ensures s == 3_600_000 * (s / 3_600_000) + 60_000 * (s / 60_000 % 60) + 1000 * (s / 1000 % 60) + s % 1000
  {
    assert s / 60_000 == 60 * (s / 3_600_000) + s / 60_000 % 60;
    assert s / 1000 == 60 * (s / 60_000) + s / 1000 % 60;
  }

  lemma ClockOrder(s: nat, t: nat)
    ensures ClockBefore(s, t) <==> s < t
  {
    ClockParts(s);
    ClockParts(t);
  }

  lemma EarlierFrom(u: seq<Field>, v: seq<Field>, i: nat)
    requires |u| == |v| && i < |u|
    ensures Earlier(u[i..], v[i..])
       <==> u[i].value < v[i].value || (u[i].value == v[i].value && Earlier(u[i + 1..], v[i + 1..]))
  {
    assert u[i..][1..] == u[i + 1..] && v[i..][1..] == v[i + 1..];
  }

  lemma EarlierIsBefore(d: Date, s: nat, e: Date, t: nat)
    requires IsDate(d) && IsDate(e) && d.year == e.year
    ensures Earlier(FieldsOf(d, s), FieldsOf(e, t)) <==> Before(d, e) || (d == e && s < t)
  {
    hide IsDate;
    ClockOrder(s, t);
    var u, v := FieldsOf(d, s), FieldsOf(e, t);
    assert u[1..][0] == u[1] && v[1..][0] == v[1] && u[1..][1..] == u[2..] && v[1..][1..] == v[2..];
    EarlierFrom(u, v, 1);
    EarlierFrom(u, v, 2);
    EarlierFrom(u, v, 3);
    EarlierFrom(u, v, 4);
    EarlierFrom(u, v, 5);
  }

  lemma FieldsFit(d: Date, s: nat, e: Date, t: nat)
    requires IsDate(d) && IsDate(e) && s < MILLIS_PER_DAY && t < MILLIS_PER_DAY
    ensures SameShape(FieldsOf(d, s), FieldsOf(e, t))
  {
    hide IsDate, Pow10;
    Powers();
    DayIsShort(d);
    DayIsShort(e);
  }

  /** Stamps of two dates sort by date and then by the time of day. */
  lemma StampOrder(d: Date, s: nat, e: Date, t: nat)
    requires IsDate(d) && IsDate(e) && s < MILLIS_PER_DAY && t < MILLIS_PER_DAY
    requires -1 <= d.year <= 9999 && -1 <= e.year <= 9999
    ensures
      Less(Stamp(d, s / 3_600_000, s / 60_000 % 60, s / 1000 % 60, s % 1000),
           Stamp(e, t / 3_600_000, t / 60_000 % 60, t / 1000 % 60, t % 1000))
      <==> Before(d, e) || (d == e && s < t)
  {
    hide IsDate, Stamp, Render, Earlier, Less, PadYear, FieldsOf;
    var u, v := FieldsOf(d, s), FieldsOf(e, t);
    StampIsRender(d, s);
    StampIsRender(e, t);
    YearOrder(d.year, e.year);
    LessConcat(PadYear(d.year), "-" + Render(u), PadYear(e.year), "-" + Render(v));
    SameMark('-', Render(u), Render(v));
    FieldsFit(d, s, e, t);
    RenderOrder(u, v);
    if d.year == e.year {
      LessIsStrict(PadYear(d.year));
      EarlierIsBefore(d, s, e, t);
    }
  }

  /** From the year -1 to 9999 the rendered timestamps sort as strings exactly as their instants. RFC
      3339 itself goes from 0000 to 9999. */
  lemma TimestampsSort(m: int, n: int)
    requires InYears(m, -1, 9999) && InYears(n, -1, 9999)
    ensures Less(IsoFromEpochMillis(m), IsoFromEpochMillis(n)) <==> m < n
  {
    hide CivilFromDays, IsDate, Stamp, Less;
    var (d, e) := (m / MILLIS_PER_DAY, n / MILLIS_PER_DAY);
    EveryDayIsADate(d);
    EveryDayIsADate(e);
    StampOrder(CivilFromDays(d), m % MILLIS_PER_DAY, CivilFromDays(e), n % MILLIS_PER_DAY);
    if d < e {
      LaterDays(d, e);
    } else if e < d {
      LaterDays(e, d);
    }
  }

  // ---------------------------------------------------------------------------------------------
  // No wider range of years will do

  lemma YearsSpelled()
    ensures PadYear(9999) == "9999" && PadYear(10_000) == "10000"
  {
    assert Dec(9) == "9" && Dec(99) == "99" && Dec(999) == "999" && Dec(9999) == "9999";
    assert Dec(1) == "1" && Dec(10) == "10" && Dec(100) == "100" && Dec(1000) == "1000" && Dec(10_000) == "10000";
  }

  /** The first instant of a year. */
  function NewYear(year: int): int {
    DaysFromCivil(Date(year, 1, 1)) * MILLIS_PER_DAY
  }

  lemma NewYearIsStamped(year: int)
    ensures InYears(NewYear(year), year, year)
    ensures PadYear(year) <= IsoFromEpochMillis(NewYear(year))
  {
    hide CivilFromDays, DaysFromCivil, PadYear;
    assert IsDate(Date(year, 1, 1));
    EveryDateIsADay(Date(year, 1, 1));
    assert NewYear(year) / MILLIS_PER_DAY == DaysFromCivil(Date(year, 1, 1));
  }

  lemma NewYearsGrow(year: int)
    ensures NewYear(year) < NewYear(year + 1)
  {
    hide YearStart;
    YearGrows(year - 1);
  }

  lemma {:induction false} LessByPrefix(s: string, t: string, x: string, y: string)
    requires x <= s && y <= t && Less(x, y) && !(x <= y)
    ensures Less(s, t)
    decreases |x|
  {
    if x[0] == y[0] {
      LessByPrefix(s[1..], t[1..], x[1..], y[1..]);
    }
  }

  /** The year 10000 sorts before 9999. */
  lemma YearTenThousandSortsFirst()
    ensures Less(IsoFromEpochMillis(NewYear(10_000)), IsoFromEpochMillis(NewYear(9999)))
    ensures NewYear(9999) < NewYear(10_000)
  {
    hide PadYear, NewYear, IsoFromEpochMillis;
    YearsSpelled();
    NewYearIsStamped(9999);
    NewYearIsStamped(10_000);
    NewYearsGrow(9999);
    LessByPrefix(IsoFromEpochMillis(NewYear(10_000)), IsoFromEpochMillis(NewYear(9999)), "10000", "9999");
  }

  /** The year -1 sorts before -2. */
  lemma YearMinusOneSortsFirst()
    ensures Less(IsoFromEpochMillis(NewYear(-1)), IsoFromEpochMillis(NewYear(-2)))
    ensures NewYear(-2) < NewYear(-1)
  {
    hide PadYear, NewYear, IsoFromEpochMillis;
    OneSpelled();
    NewYearIsStamped(-1);
    NewYearIsStamped(-2);
    NewYearsGrow(-2);
    assert Less("-001", "-002") by {
      assert "-001"[1..] == "001" && "001"[1..] == "01" && "01"[1..] == "1";
      assert "-002"[1..] == "002" && "002"[1..] == "02" && "02"[1..] == "2";
      assert Less("1", "2") && Less("01", "02") && Less("001", "002");
    }
    LessByPrefix(IsoFromEpochMillis(NewYear(-1)), IsoFromEpochMillis(NewYear(-2)), "-001", "-002");
  }

  /** In a range of years all timestamps sort as their instants. */
  ghost predicate Sorts(first: int, last: int) {
    forall m, n :: InYears(m, first, last) && InYears(n, first, last) ==>
      (Less(IsoFromEpochMillis(m), IsoFromEpochMillis(n)) <==> m < n)
  }

  lemma Widened(millis: int, first: int, last: int, from: int, to: int)
    requires InYears(millis, first, last) && from <= first && last <= to
    ensures InYears(millis, from, to)
  {
  }

  /** Of the ranges that hold 0000 to 9999, exactly those within -1 to 9999 sort. */
  lemma SortsIffInRange(first: int, last: int)
    requires first <= 0 && 9999 <= last
    ensures Sorts(first, last) <==> -1 <= first && last <= 9999
  {
    hide InYears, Less, IsoFromEpochMillis, NewYear;
    if -1 <= first && last <= 9999 {
      forall m, n | InYears(m, first, last) && InYears(n, first, last)
        ensures Less(IsoFromEpochMillis(m), IsoFromEpochMillis(n)) <==> m < n
      {
        Widened(m, first, last, -1, 9999);
        Widened(n, first, last, -1, 9999);
        TimestampsSort(m, n);
      }
    } else if first < -1 {
      NewYearIsStamped(-1);
      NewYearIsStamped(-2);
      Widened(NewYear(-1), -1, -1, first, last);
      Widened(NewYear(-2), -2, -2, first, last);
      YearMinusOneSortsFirst();
    } else {
      NewYearIsStamped(9999);
      NewYearIsStamped(10_000);
      Widened(NewYear(9999), 9999, 9999, first, last);
      Widened(NewYear(10_000), 10_000, 10_000, first, last);
      YearTenThousandSortsFirst();
    }
  }
}
