/** Days since 1970 to proleptic Gregorian dates, by eras of 400 years, and the timestamps that the log
    and the indexer print. */
module Calendar {
  import opened Integers

  const SHIFT := 719_468

  /** Rust's integer division, which truncates toward zero. */
  function Quotient(n: int, d: int): int
    requires d > 0
  {
    if n >= 0 then n / d else -((-n) / d)
  }

  datatype Date = Date(year: int, month: int, day: int)

  function EraOf(shifted: int): int {
    Quotient(if shifted >= 0 then shifted else shifted - 146_096, 146_097)
  }

  function YearOfEra(dayOfEra: int): int {
    Quotient(dayOfEra - Quotient(dayOfEra, 1460) + Quotient(dayOfEra, 36_524) - Quotient(dayOfEra, 146_096), 365)
  }

  function CivilFromDays(days: int): Date {
    var shifted := days + SHIFT;
    var era := EraOf(shifted);
    var dayOfEra := shifted - era * 146_097;
    var yearOfEra := YearOfEra(dayOfEra);
    var year := yearOfEra + era * 400;
    var dayOfYear := dayOfEra - (365 * yearOfEra + Quotient(yearOfEra, 4) - Quotient(yearOfEra, 100));
    var monthPosition := Quotient(5 * dayOfYear + 2, 153);
    var day := dayOfYear - Quotient(153 * monthPosition + 2, 5) + 1;
    var month := if monthPosition < 10 then monthPosition + 3 else monthPosition - 9;
    Date(if month <= 2 then year + 1 else year, month, day)
  }

  // ---------------------------------------------------------------------------------------------
  // The calendar itself

  predicate IsLeap(year: int) {
    year % 4 == 0 && (year % 100 != 0 || year % 400 == 0)
  }

  function MonthLength(year: int, month: int): int
    requires 1 <= month <= 12
  {
    if month == 2 then (if IsLeap(year) then 29 else 28)
    else if month == 4 || month == 6 || month == 9 || month == 11 then 30
    else 31
  }

  predicate IsDate(date: Date) {
    1 <= date.month <= 12 && 1 <= date.day <= MonthLength(date.year, date.month)
  }

  function NextDay(date: Date): Date
    requires IsDate(date)
  {
    if date.day < MonthLength(date.year, date.month) then Date(date.year, date.month, date.day + 1)
    else if date.month < 12 then Date(date.year, date.month + 1, 1)
    else Date(date.year + 1, 1, 1)
  }

  /** Days before the first of March of a year: 365 a year and the leap days. */
  function YearStart(year: int): int {
    365 * year + year / 4 - year / 100 + year / 400
  }

  /** Days before the month at this position, March being position 0. */
  function MonthStart(position: int): int {
    (153 * position + 2) / 5
  }

  /** An independent count: days from 1970-01-01, without eras. Years begin in March here, so that the
      leap day comes last. */
  function DaysFromCivil(date: Date): int {
    var year := if date.month > 2 then date.year else date.year - 1;
    var position := if date.month > 2 then date.month - 3 else date.month + 9;
    YearStart(year) + MonthStart(position) + date.day - 1 - SHIFT
  }

  // ---------------------------------------------------------------------------------------------
  // A day is an era, a century, a four-year block, a year and a day

  /** The parts of a day count; the last day of a year is its 366th only in a leap year. */
  predicate IsParts(c: int, b: int, a: int, k: int) {
    && 0 <= c <= 3 && 0 <= b <= 24 && 0 <= a <= 3
    && 0 <= k <= (if a == 3 && (b < 24 || c == 3) then 365 else 364)
  }

  function DayOfEra(c: int, b: int, a: int, k: int): int {
    36_524 * c + 1461 * b + 365 * a + k
  }

  lemma PartsOf(dayOfEra: int) returns (c: int, b: int, a: int, k: int)
    requires 0 <= dayOfEra < 146_097
    ensures IsParts(c, b, a, k) && dayOfEra == DayOfEra(c, b, a, k)
  {
    c := if dayOfEra == 146_096 then 3 else dayOfEra / 36_524;
    var inCentury := dayOfEra - 36_524 * c;
    b := inCentury / 1461;
    var inBlock := inCentury - 1461 * b;
    a := if inBlock == 1460 then 3 else inBlock / 365;
    k := inBlock - 365 * a;
  }

  /** The corrections in the year formula cancel exactly the leap days before the day. */
  lemma YearOfParts(c: int, b: int, a: int, k: int)
    requires IsParts(c, b, a, k)
    ensures 0 <= DayOfEra(c, b, a, k) < 146_097
    ensures YearOfEra(DayOfEra(c, b, a, k)) == 100 * c + 4 * b + a
  {
    var doe := DayOfEra(c, b, a, k);
    var extra := if 24 * c + b + 365 * a + k >= 1460 then 1 else 0;
    assert doe == 1460 * (25 * c + b) + 24 * c + b + 365 * a + k;
    assert doe / 1460 == 25 * c + b + extra;
    if doe == 146_096 {
      assert doe / 36_524 == 4 && doe / 146_096 == 1;
    } else {
      assert doe / 36_524 == c && doe / 146_096 == 0;
    }
    assert doe - doe / 1460 + doe / 36_524 - doe / 146_096 == 365 * (100 * c + 4 * b + a) + k - extra;
  }

  lemma PositionOfDay(k: int)
    requires 0 <= k <= 365
    ensures 0 <= (5 * k + 2) / 153 <= 11
    ensures MonthStart((5 * k + 2) / 153) <= k < MonthStart((5 * k + 2) / 153 + 1)
  {
  }

  lemma DayOfPosition(position: int, k: int)
    requires 0 <= position <= 11 && MonthStart(position) <= k < MonthStart(position + 1)
    ensures (5 * k + 2) / 153 == position
  {
  }

  function MonthAt(position: int): int {
    if position < 10 then position + 3 else position - 9
  }

  lemma EraOfParts(era: int, c: int, b: int, a: int, k: int)
    requires IsParts(c, b, a, k)
    ensures EraOf(146_097 * era + DayOfEra(c, b, a, k)) == era
  {
    var doe := DayOfEra(c, b, a, k);
    var shifted := 146_097 * era + doe;
    assert 0 <= doe <= 146_096;
    if shifted < 0 {
      assert -(shifted - 146_096) == 146_097 * (-era) + (146_096 - doe);
    }
  }

  /** The month and the day from the day of the year. */
  lemma CivilOfYear(days: int, era: int, yearOfEra: int, k: int)
    requires EraOf(days + SHIFT) == era && YearOfEra(days + SHIFT - era * 146_097) == yearOfEra
    requires days + SHIFT - era * 146_097
          == 365 * yearOfEra + Quotient(yearOfEra, 4) - Quotient(yearOfEra, 100) + k
    requires 0 <= k <= 365
    ensures
      var position, year := (5 * k + 2) / 153, 400 * era + yearOfEra;
      CivilFromDays(days)
      == Date(if position < 10 then year else year + 1, MonthAt(position), k - MonthStart(position) + 1)
  {
    hide EraOf, YearOfEra;
    PositionOfDay(k);
    assert Quotient(5 * k + 2, 153) == (5 * k + 2) / 153;
    assert Quotient(153 * ((5 * k + 2) / 153) + 2, 5) == MonthStart((5 * k + 2) / 153);
  }

  /** The conversion, part by part. */
  lemma CivilOfParts(days: int, era: int, c: int, b: int, a: int, k: int)
    requires IsParts(c, b, a, k) && days == 146_097 * era + DayOfEra(c, b, a, k) - SHIFT
    ensures
      var position := (5 * k + 2) / 153;
      var year := 400 * era + 100 * c + 4 * b + a;
      CivilFromDays(days)
      == Date(if position < 10 then year else year + 1, MonthAt(position), k - MonthStart(position) + 1)
  {
    hide EraOf, YearOfEra, CivilFromDays, MonthAt, MonthStart;
    EraOfParts(era, c, b, a, k);
    YearOfParts(c, b, a, k);
    var yearOfEra := 100 * c + 4 * b + a;
    assert Quotient(yearOfEra, 4) == 25 * c + b && Quotient(yearOfEra, 100) == c;
    CivilOfYear(days, era, yearOfEra, k);
  }

  predicate IsYear(year: int, era: int, c: int, b: int, a: int) {
    0 <= c <= 3 && 0 <= b <= 24 && 0 <= a <= 3 && year == 400 * era + 100 * c + 4 * b + a
  }

  lemma CountOfParts(year: int, era: int, c: int, b: int, a: int)
    requires IsYear(year, era, c, b, a)
    ensures YearStart(year) == 146_097 * era + DayOfEra(c, b, a, 0)
  {
    assert year / 4 == 100 * era + 25 * c + b;
    assert year / 100 == 4 * era + c;
    assert year / 400 == era;
  }

  lemma Remainder4(q: int, r: int)
    requires 0 <= r < 4
    ensures (4 * q + r) % 4 == r
  {
  }

  lemma Remainder100(q: int, r: int)
    requires 0 <= r < 100
    ensures (100 * q + r) % 100 == r
  {
  }

  lemma Remainder400(q: int, r: int)
    requires 0 <= r < 400
    ensures (400 * q + r) % 400 == r
  {
  }

  lemma LeapOfParts(year: int, era: int, c: int, b: int, a: int)
    requires IsYear(year, era, c, b, a)
    ensures IsLeap(year + 1) <==> a == 3 && (b < 24 || c == 3)
  {
    if a < 3 {
      Remainder4(100 * era + 25 * c + b, a + 1);
    } else if b < 24 {
      Remainder4(100 * era + 25 * c + b + 1, 0);
      Remainder100(4 * era + c, 4 * (b + 1));
    } else if c < 3 {
      Remainder100(4 * era + c + 1, 0);
      Remainder400(era, 100 * (c + 1));
    } else {
      Remainder4(100 * era + 100, 0);
      Remainder400(era + 1, 0);
    }
  }

  lemma MonthLengthAt(position: int, year: int)
    requires 0 <= position <= 11
    ensures position < 11 ==> MonthLength(year, MonthAt(position)) == MonthStart(position + 1) - MonthStart(position)
    ensures position == 11 ==> MonthStart(position) == 337 && MonthLength(year, 2) == if IsLeap(year) then 29 else 28
  {
    hide IsLeap;
  }

  // ---------------------------------------------------------------------------------------------
  // A bijection in calendar order

  lemma SplitDays(days: int) returns (era: int, c: int, b: int, a: int, k: int)
    ensures IsParts(c, b, a, k) && days == 146_097 * era + DayOfEra(c, b, a, k) - SHIFT
  {
    era := (days + SHIFT) / 146_097;
    c, b, a, k := PartsOf((days + SHIFT) % 146_097);
  }

  lemma PartsAreADate(year: int, era: int, c: int, b: int, a: int, k: int)
    requires IsParts(c, b, a, k) && IsYear(year, era, c, b, a)
    ensures
      var position := (5 * k + 2) / 153;
      var date := Date(if position < 10 then year else year + 1, MonthAt(position), k - MonthStart(position) + 1);
      IsDate(date) && DaysFromCivil(date) == YearStart(year) + k - SHIFT
  {
    hide IsLeap, YearStart;
    var position := (5 * k + 2) / 153;
    PositionOfDay(k);
    LeapOfParts(year, era, c, b, a);
    MonthLengthAt(position, if position < 10 then year else year + 1);
  }

  /** Every day number is a real date, and counting that date's days gives the number back. */
  lemma EveryDayIsADate(days: int)
    ensures IsDate(CivilFromDays(days))
    ensures DaysFromCivil(CivilFromDays(days)) == days
  {
    hide CivilFromDays, DaysFromCivil, IsDate, YearStart, MonthAt, MonthStart;
    var era, c, b, a, k := SplitDays(days);
    var year := 400 * era + 100 * c + 4 * b + a;
    CivilOfParts(days, era, c, b, a, k);
    PartsAreADate(year, era, c, b, a, k);
    CountOfParts(year, era, c, b, a);
  }

  lemma DateFits(date: Date)
    requires IsDate(date)
    ensures 1 <= date.month <= 12 && 1 <= date.day <= MonthLength(date.year, date.month)
  {
  }

  lemma YearParts(year: int) returns (era: int, c: int, b: int, a: int)
    ensures IsYear(year, era, c, b, a)
  {
    var yearOfEra := year % 400;
    era, c, b, a := year / 400, yearOfEra / 100, yearOfEra % 100 / 4, yearOfEra % 4;
  }

  lemma PartsOfDate(date: Date) returns (year: int, position: int, era: int, c: int, b: int, a: int, k: int)
    requires IsDate(date)
    ensures year == if date.month > 2 then date.year else date.year - 1
    ensures 0 <= position <= 11 && date.month == MonthAt(position)
    ensures date.year == if position < 10 then year else year + 1
    ensures k == MonthStart(position) + date.day - 1 && MonthStart(position) <= k < MonthStart(position + 1)
    ensures IsYear(year, era, c, b, a) && IsParts(c, b, a, k)
    ensures DaysFromCivil(date) == YearStart(year) + k - SHIFT
  {
    hide IsLeap, MonthLength, YearStart;
    year := if date.month > 2 then date.year else date.year - 1;
    position := if date.month > 2 then date.month - 3 else date.month + 9;
    era, c, b, a := YearParts(year);
    k := MonthStart(position) + date.day - 1;
    LeapOfParts(year, era, c, b, a);
    MonthLengthAt(position, date.year);
    DateFits(date);
  }

  /** Every real date is the date of its day number. */
  lemma EveryDateIsADay(date: Date)
    requires IsDate(date)
    ensures CivilFromDays(DaysFromCivil(date)) == date
  {
    hide CivilFromDays, DaysFromCivil, IsDate, YearStart, MonthAt, MonthStart;
    var year, position, era, c, b, a, k := PartsOfDate(date);
    DayOfPosition(position, k);
    CountOfParts(year, era, c, b, a);
    CivilOfParts(DaysFromCivil(date), era, c, b, a, k);
  }

  lemma FirstYearOfEra(year: int, era: int)
    requires year == 400 * era
    ensures YearStart(year) == 146_097 * era
  {
    assert year / 4 == 100 * era;
    assert year / 100 == 4 * era;
    assert year / 400 == era;
  }

  /** A year from March to March has a 366th day exactly when the February it ends with is leap. */
  lemma YearGrows(year: int)
    ensures YearStart(year + 1) - YearStart(year) == if IsLeap(year + 1) then 366 else 365
  {
    hide YearStart, IsLeap;
    var era, c, b, a := YearParts(year);
    LeapOfParts(year, era, c, b, a);
    CountOfParts(year, era, c, b, a);
    if a < 3 {
      CountOfParts(year + 1, era, c, b, a + 1);
    } else if b < 24 {
      CountOfParts(year + 1, era, c, b + 1, 0);
    } else if c < 3 {
      CountOfParts(year + 1, era, c + 1, 0, 0);
    } else {
      FirstYearOfEra(year + 1, era + 1);
    }
  }

  lemma NextDayCounts(date: Date)
    requires IsDate(date)
    ensures IsDate(NextDay(date)) && DaysFromCivil(NextDay(date)) == DaysFromCivil(date) + 1
  {
    hide IsLeap, YearStart;
    var position := if date.month > 2 then date.month - 3 else date.month + 9;
    MonthLengthAt(position, date.year);
    YearGrows(date.year - 1);
  }

  /** Consecutive day numbers are consecutive dates. */
  lemma ConsecutiveDays(days: int)
    ensures IsDate(CivilFromDays(days))
    ensures CivilFromDays(days + 1) == NextDay(CivilFromDays(days))
  {
    hide CivilFromDays, DaysFromCivil, NextDay, IsDate;
    EveryDayIsADate(days);
    NextDayCounts(CivilFromDays(days));
    EveryDateIsADay(NextDay(CivilFromDays(days)));
  }

  /** The count starts where it should. */
  lemma DayZero()
    ensures CivilFromDays(0) == Date(1970, 1, 1)
  {
  }

  predicate Before(d: Date, e: Date) {
    d.year < e.year || (d.year == e.year && (d.month < e.month || (d.month == e.month && d.day < e.day)))
  }

  /** Later days are later dates. */
  lemma {:induction false} LaterDays(m: int, n: int)
    requires m < n
    ensures Before(CivilFromDays(m), CivilFromDays(n))
    decreases n - m
  {
    hide CivilFromDays;
    ConsecutiveDays(n - 1);
    if m == n - 1 {
    } else {
      LaterDays(m, n - 1);
    }
  }

  // ---------------------------------------------------------------------------------------------
  // The indexer's copy, with its casts

  /** `as u64`, `as i64` and `as u32`: keep the low bits. */
  function AsU64(n: int): nat { n % TWO_TO_THE_64 }
  function AsI64(n: nat): int { var m := n % TWO_TO_THE_64; if m <= I64_MAX then m else m - TWO_TO_THE_64 }
  function AsU32(n: nat): nat { n % TWO_TO_THE_32 }

  function IndexerYearOfEra(doe: nat): nat {
    AsU64(AsU64(doe - doe / 1460 + doe / 36_524) - doe / 146_096) / 365
  }

  function IndexerCivilFromDays(days: int): Date {
    var z := days + SHIFT;
    var era := EraOf(z);
    var doe := AsU64(z - era * 146_097);
    var yoe := IndexerYearOfEra(doe);
    var y := AsI64(yoe) + era * 400;
    var doy := AsU64(doe - (365 * yoe + yoe / 4 - yoe / 100));
    var mp := (5 * doy + 2) / 153;
    var d := AsU32(AsU64(doy - (153 * mp + 2) / 5 + 1));
    var m := AsU32(if mp < 10 then mp + 3 else AsU64(mp - 9));
    Date(if m <= 2 then y + 1 else y, m, d)
  }

  lemma CastsKeep(n: int)
    ensures 0 <= n < TWO_TO_THE_64 ==> AsU64(n) == n
    ensures 0 <= n < TWO_TO_THE_32 ==> AsU32(n) == n
    ensures 0 <= n <= I64_MAX ==> AsI64(n) == n
  {
  }

  lemma IndexerYearAgrees(doe: nat)
    requires doe < 146_097
    ensures IndexerYearOfEra(doe) == YearOfEra(doe)
  {
    CastsKeep(doe - doe / 1460 + doe / 36_524);
    CastsKeep(doe - doe / 1460 + doe / 36_524 - doe / 146_096);
  }

  /** The casts keep the month and the day. */
  lemma IndexerOfYear(days: int, era: int, doe: nat, yoe: nat, k: nat)
    requires EraOf(days + SHIFT) == era && doe == days + SHIFT - era * 146_097 < 146_097
    requires IndexerYearOfEra(doe) == yoe < 400 && k <= 365
    requires doe == 365 * yoe + yoe / 4 - yoe / 100 + k
    ensures
      var position, year := (5 * k + 2) / 153, 400 * era + yoe;
      IndexerCivilFromDays(days)
      == Date(if position < 10 then year else year + 1, MonthAt(position), k - MonthStart(position) + 1)
  {
    hide EraOf, IndexerYearOfEra, AsU64, AsU32, AsI64;
    var position := (5 * k + 2) / 153;
    PositionOfDay(k);
    CastsKeep(doe);
    CastsKeep(yoe);
    CastsKeep(k);
    CastsKeep(k - MonthStart(position) + 1);
    CastsKeep(MonthAt(position));
  }

  /** The two copies agree: no cast of the unsigned one ever loses anything. */
  lemma CopiesAgree(days: int)
    ensures IndexerCivilFromDays(days) == CivilFromDays(days)
  {
    hide EraOf, YearOfEra, IndexerYearOfEra, IndexerCivilFromDays, CivilFromDays, MonthAt, MonthStart;
    var era, c, b, a, k := SplitDays(days);
    var doe, yoe := DayOfEra(c, b, a, k), 100 * c + 4 * b + a;
    CivilOfParts(days, era, c, b, a, k);
    EraOfParts(era, c, b, a, k);
    YearOfParts(c, b, a, k);
    IndexerYearAgrees(doe);
    assert yoe / 4 == 25 * c + b && yoe / 100 == c;
    IndexerOfYear(days, era, doe, yoe, k);
  }

  // ---------------------------------------------------------------------------------------------
  // Overflow

  predicate FitsI64(n: int) {
    I64_MIN <= n <= I64_MAX
  }

  /** The widest values of the conversion fit an i64 exactly for day numbers up to i64::MAX - 719468. */
  lemma NoOverflow(days: int)
    requires FitsI64(days)
    ensures FitsI64(days + SHIFT) <==> days <= I64_MAX - SHIFT
    ensures days <= I64_MAX - SHIFT ==>
              FitsI64(days + SHIFT - 146_096) && FitsI64(EraOf(days + SHIFT) * 146_097)
              && FitsI64(CivilFromDays(days).year)
  {
    hide EraOf, CivilFromDays;
    var era, c, b, a, k := SplitDays(days);
    EraOfParts(era, c, b, a, k);
    YearOfParts(c, b, a, k);
    CivilOfParts(days, era, c, b, a, k);
  }
}
