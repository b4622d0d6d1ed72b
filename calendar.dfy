/**
 * Proleptic Gregorian civil dates and the day numbers that JavaScript's Date
 * counts in: day 0 is 1970-01-01, and the weekday of day n is (n + 4) mod 7
 * (1970-01-01 was a Thursday). Internally a year is counted from March, so
 * that the leap day is the last day of its year, and 400-year eras of 146097
 * days are split into centuries, four-year cycles and years.
 */
module Calendar {

  datatype Civil = Civil(year: int, month: int, day: int)

  predicate IsLeapYear(y: int) {
    y % 4 == 0 && (y % 100 != 0 || y % 400 == 0)
  }

  function DaysInMonth(y: int, m: int): (n: int)
    requires 1 <= m <= 12
    ensures 28 <= n <= 31
    ensures n == 29 <==> m == 2 && IsLeapYear(y)
  {
    if m == 2 then (if IsLeapYear(y) then 29 else 28)
    else if m == 4 || m == 6 || m == 9 || m == 11 then 30
    else 31
  }

  predicate ValidCivil(c: Civil) {
    1 <= c.month <= 12 && 1 <= c.day <= DaysInMonth(c.year, c.month)
  }

  /** Month counted from March: 0 is March, 10 is January, 11 is February. */
  function MarchMonth(m: int): int
    requires 1 <= m <= 12
  {
    if m >= 3 then m - 3 else m + 9
  }

  /** The March-based year a civil date belongs to (January and February count with the previous year). */
  function MarchYear(c: Civil): int {
    if c.month <= 2 then c.year - 1 else c.year
  }

  /** Days from March 1 to the first day of March-based month mp. */
  function DaysBeforeMarchMonth(mp: int): int
    requires 0 <= mp < 12
  {
    if mp < 6 then
      (if mp < 3 then (if mp == 0 then 0 else if mp == 1 then 31 else 61)
       else (if mp == 3 then 92 else if mp == 4 then 122 else 153))
    else
      (if mp < 9 then (if mp == 6 then 184 else if mp == 7 then 214 else 245)
       else (if mp == 9 then 275 else if mp == 10 then 306 else 337))
  }

  /** Days from 0000-03-01 to March 1 of year y (negative before it). */
  function DaysBeforeMarchYear(y: int): int {
    (y / 400) * 146097 + 365 * (y % 400) + (y % 400) / 4 - (y % 400) / 100
  }

  /** Days from 0000-03-01 to 1970-01-01. */
  const EpochDays := 719468

  function DaysFromCivil(c: Civil): int
    requires 1 <= c.month <= 12
  {
    DaysBeforeMarchYear(MarchYear(c)) + DaysBeforeMarchMonth(MarchMonth(c.month)) + c.day - 1 - EpochDays
  }

  /** The March-based month containing day-of-year doy (0 = March 1). */
  function MarchMonthOf(doy: int): int {
    if doy < 31 then 0 else if doy < 61 then 1 else if doy < 92 then 2
    else if doy < 122 then 3 else if doy < 153 then 4 else if doy < 184 then 5
    else if doy < 214 then 6 else if doy < 245 then 7 else if doy < 275 then 8
    else if doy < 306 then 9 else if doy < 337 then 10 else 11
  }

  /** MarchMonthOf finds the March-based month whose days contain doy. */
  lemma MarchMonthOfBounds(doy: int)
    requires 0 <= doy <= 365
    ensures var mp := MarchMonthOf(doy);
      0 <= mp < 12 && DaysBeforeMarchMonth(mp) <= doy && (mp < 11 ==> doy < DaysBeforeMarchMonth(mp + 1))
  {
  }

  /** The pieces of a day number: era, century of the era, four-year cycle, year of the cycle and day of the year. */
  datatype DayParts = DayParts(era: int, cent: int, quad: int, yiq: int, doy: int)

  function DayPartsOf(n: int): DayParts {
    var z := n + EpochDays;
    var era := z / 146097;
    var doe := z % 146097;
    var cent := if doe / 36524 < 3 then doe / 36524 else 3;
    var doc := doe - 36524 * cent;
    var quad := doc / 1461;
    var doq := doc % 1461;
    var yiq := if doq / 365 < 3 then doq / 365 else 3;
    DayParts(era, cent, quad, yiq, doq - 365 * yiq)
  }

  /** Whether a year of a four-year cycle ends with a leap day (that is, whether its February has 29 days). */
  predicate LongYear(cent: int, quad: int, yiq: int) {
    yiq == 3 && (quad != 24 || cent == 3)
  }

  predicate PartsInRange(s: DayParts) {
    && 0 <= s.cent < 4 && 0 <= s.quad < 25 && 0 <= s.yiq < 4
    && 0 <= s.doy <= (if LongYear(s.cent, s.quad, s.yiq) then 365 else 364)
  }

  lemma DayPartsInRange(n: int)
    ensures PartsInRange(DayPartsOf(n))
    ensures var s := DayPartsOf(n);
      n + EpochDays == s.era * 146097 + 36524 * s.cent + 1461 * s.quad + 365 * s.yiq + s.doy
  {
    var z := n + EpochDays;
    var doe := z % 146097;
    var cent := if doe / 36524 < 3 then doe / 36524 else 3;
    var doc := doe - 36524 * cent;
    assert 0 <= doc <= 36524;
    assert doc == 36524 ==> cent == 3;
    var quad := doc / 1461;
    var doq := doc % 1461;
    assert quad == 24 && doq == 1460 ==> cent == 3;
  }

  function CivilFromDays(n: int): (c: Civil)
    ensures ValidCivil(c)
  {
    var s := DayPartsOf(n);
    DayPartsInRange(n);
    var y := s.era * 400 + s.cent * 100 + s.quad * 4 + s.yiq;
    LongYearIsLeap(s.era, s.cent, s.quad, s.yiq);
    var mp := MarchMonthOf(s.doy);
    MarchMonthOfBounds(s.doy);
    var m := if mp < 10 then mp + 3 else mp - 9;
    Civil(if m <= 2 then y + 1 else y, m, s.doy - DaysBeforeMarchMonth(mp) + 1)
  }

  /** The year after a March-based year ends with a leap day exactly when its calendar year is a leap year. */
  lemma LongYearIsLeap(era: int, cent: int, quad: int, yiq: int)
    requires 0 <= cent < 4 && 0 <= quad < 25 && 0 <= yiq < 4
    ensures LongYear(cent, quad, yiq) <==> IsLeapYear(era * 400 + cent * 100 + quad * 4 + yiq + 1)
  {
    var y := era * 400 + cent * 100 + quad * 4 + yiq + 1;
    if yiq == 3 {
      RemainderOf(era * 100 + cent * 25 + quad + 1, 4, 0);
      if quad == 24 {
        RemainderOf(era * 4 + cent + 1, 100, 0);
        if cent == 3 {
          RemainderOf(era + 1, 400, 0);
        } else {
          RemainderOf(era, 400, 100 * (cent + 1));
        }
      } else {
        RemainderOf(era * 4 + cent, 100, 4 * (quad + 1));
      }
    } else {
      RemainderOf(era * 100 + cent * 25 + quad, 4, yiq + 1);
    }
  }

  /** The remainder of q * m + r by m, for 0 <= r < m. */
  lemma RemainderOf(q: int, m: int, r: int)
    requires m in {4, 100, 400} && 0 <= r < m
    ensures (q * m + r) % m == r
  {
    if m == 4 {
      assert (q * 4 + r) % 4 == r;
    } else if m == 100 {
      assert (q * 100 + r) % 100 == r;
    } else {
      assert (q * 400 + r) % 400 == r;
    }
  }


  /** Days before March 1 of a year, in terms of its pieces. */
  lemma DaysBeforeMarchYearSplit(era: int, cent: int, quad: int, yiq: int)
    requires 0 <= cent < 4 && 0 <= quad < 25 && 0 <= yiq < 4
    ensures DaysBeforeMarchYear(era * 400 + cent * 100 + quad * 4 + yiq)
         == era * 146097 + 36524 * cent + 1461 * quad + 365 * yiq
  {
    var yoe := cent * 100 + quad * 4 + yiq;
    var y := era * 400 + yoe;
    assert y / 400 == era && y % 400 == yoe;
    assert yoe / 4 == cent * 25 + quad;
    assert yoe / 100 == cent;
  }

  /** Splitting a year into era, century, cycle and year of the cycle. */
  lemma YearParts(y: int) returns (era: int, cent: int, quad: int, yiq: int)
    ensures 0 <= cent < 4 && 0 <= quad < 25 && 0 <= yiq < 4
    ensures y == era * 400 + cent * 100 + quad * 4 + yiq
  {
    era := y / 400;
    var yoe := y % 400;
    cent := yoe / 100;
    quad := (yoe % 100) / 4;
    yiq := yoe % 4;
  }

  /** Going from a valid civil date to its day number and back gives the same date. */
  lemma {:induction false} CivilDaysRoundTrip(c: Civil)
    requires ValidCivil(c)
    ensures CivilFromDays(DaysFromCivil(c)) == c
  {
    var n := DaysFromCivil(c);
    var y := MarchYear(c);
    var mp := MarchMonth(c.month);
    var doy := DaysBeforeMarchMonth(mp) + c.day - 1;
    var era, cent, quad, yiq := YearParts(y);
    DaysBeforeMarchYearSplit(era, cent, quad, yiq);
    LongYearIsLeap(era, cent, quad, yiq);
    assert 0 <= doy <= (if LongYear(cent, quad, yiq) then 365 else 364);
    assert n + EpochDays == era * 146097 + 36524 * cent + 1461 * quad + 365 * yiq + doy;
    DayPartsUnique(n, DayParts(era, cent, quad, yiq, doy));
    MarchMonthOfBounds(doy);
    assert MarchMonthOf(doy) == mp;
  }

  /** The pieces of a day number are determined by the day number. */
  lemma DayPartsUnique(n: int, s: DayParts)
    requires PartsInRange(s)
    requires n + EpochDays == s.era * 146097 + 36524 * s.cent + 1461 * s.quad + 365 * s.yiq + s.doy
    ensures DayPartsOf(n) == s
  {
    var z := n + EpochDays;
    var doe := 36524 * s.cent + 1461 * s.quad + 365 * s.yiq + s.doy;
    assert 0 <= doe < 146097;
    assert z / 146097 == s.era && z % 146097 == doe;
    var doc := 1461 * s.quad + 365 * s.yiq + s.doy;
    assert doc <= 36524 && (doc == 36524 ==> s.cent == 3);
    assert (if doe / 36524 < 3 then doe / 36524 else 3) == s.cent;
    var doq := 365 * s.yiq + s.doy;
    assert doq <= 1460;
    assert doc / 1461 == s.quad && doc % 1461 == doq;
    assert (if doq / 365 < 3 then doq / 365 else 3) == s.yiq;
  }

  /** Going from a day number to its civil date and back gives the same day number. */
  lemma DaysCivilRoundTrip(n: int)
    ensures DaysFromCivil(CivilFromDays(n)) == n
  {
    var s := DayPartsOf(n);
    DayPartsInRange(n);
    DaysBeforeMarchYearSplit(s.era, s.cent, s.quad, s.yiq);
  }

  /** Day numbers of valid civil dates are distinct. */
  lemma DaysFromCivilInjective(a: Civil, b: Civil)
    requires ValidCivil(a) && ValidCivil(b) && DaysFromCivil(a) == DaysFromCivil(b)
    ensures a == b
  {
    CivilDaysRoundTrip(a);
    CivilDaysRoundTrip(b);
  }

  /** Weekday of a day number: 0 is Sunday, ..., 6 is Saturday. */
  function Weekday(n: int): (w: int)
    ensures 0 <= w < 7
  {
    (n + 4) % 7
  }

  /** Weekdays advance by one each day and repeat every seven days. */
  lemma WeekdayStep(n: int, k: int)
    ensures Weekday(n + k) == (Weekday(n) + k) % 7
    ensures Weekday(n + 7 * k) == Weekday(n)
  {
  }

  /**
   * ECMAScript MakeDay: the day number of (year, 0-based month, day), where
   * an out-of-range month carries into the year and an out-of-range day
   * runs on from the first of the month.
   */
  function MakeDay(year: int, month0: int, day: int): int {
    DaysFromCivil(Civil(year + month0 / 12, month0 % 12 + 1, 1)) + day - 1
  }

  /** For a month from 1 to 12, MakeDay needs no normalisation of the month. */
  lemma MakeDayInYear(year: int, month: int, day: int)
    requires 1 <= month <= 12
    ensures MakeDay(year, month - 1, day) == DaysFromCivil(Civil(year, month, day))
  {
    assert (month - 1) / 12 == 0 && (month - 1) % 12 == month - 1;
  }

  lemma MakeDayValid(c: Civil)
    requires ValidCivil(c)
    ensures MakeDay(c.year, c.month - 1, c.day) == DaysFromCivil(c)
  {
  }

  /** The civil date read back from the day number of a valid date is that date. */
  lemma CivilOfMakeDay(c: Civil)
    requires ValidCivil(c)
    ensures CivilFromDays(MakeDay(c.year, c.month - 1, c.day)) == c
  {
    MakeDayValid(c);
    CivilDaysRoundTrip(c);
  }

  /** The day number of the civil date of day k, rebuilt with MakeDay, is k. */
  lemma MakeDayOfCivil(k: int)
    ensures var c := CivilFromDays(k); MakeDay(c.year, c.month - 1, c.day) == k
  {
    DaysCivilRoundTrip(k);
    MakeDayValid(CivilFromDays(k));
  }

  /** The civil date of the day after c. */
  function NextCivil(c: Civil): (r: Civil)
    requires ValidCivil(c)
    ensures ValidCivil(r)
  {
    if c.day < DaysInMonth(c.year, c.month) then Civil(c.year, c.month, c.day + 1)
    else if c.month < 12 then Civil(c.year, c.month + 1, 1)
    else Civil(c.year + 1, 1, 1)
  }

  /** A March-based year has 365 days plus one when the following calendar year is a leap year. */
  lemma MarchYearLength(y: int)
    ensures DaysBeforeMarchYear(y + 1) - DaysBeforeMarchYear(y) == if IsLeapYear(y + 1) then 366 else 365
  {
    var era, cent, quad, yiq := YearParts(y);
    DaysBeforeMarchYearSplit(era, cent, quad, yiq);
    LongYearIsLeap(era, cent, quad, yiq);
    if yiq < 3 {
      DaysBeforeMarchYearSplit(era, cent, quad, yiq + 1);
    } else if quad < 24 {
      DaysBeforeMarchYearSplit(era, cent, quad + 1, 0);
    } else if cent < 3 {
      DaysBeforeMarchYearSplit(era, cent + 1, 0, 0);
    } else {
      DaysBeforeMarchYearSplit(era + 1, 0, 0, 0);
    }
  }

  /** Consecutive civil dates have consecutive day numbers. */
  lemma {:induction false} NextCivilDays(c: Civil)
    requires ValidCivil(c)
    ensures DaysFromCivil(NextCivil(c)) == DaysFromCivil(c) + 1
  {
    if c.day == DaysInMonth(c.year, c.month) && c.month == 2 {
      MarchYearLength(c.year - 1);
    }
  }

  /** The civil date of day n + 1 is the day after the civil date of day n. */
  lemma CivilFromNextDay(n: int)
    ensures CivilFromDays(n + 1) == NextCivil(CivilFromDays(n))
  {
    var c := CivilFromDays(n);
    var d := NextCivil(c);
    DaysCivilRoundTrip(n);
    NextCivilDays(c);
    assert DaysFromCivil(d) == n + 1;
    CivilDaysRoundTrip(d);
  }

  /** The day number of 0100-01-01 (Year100DayIsNewYear proves it). */
  const Year100Day := -683003

  lemma Year100DayIsNewYear()
    ensures Year100Day == DaysFromCivil(Civil(100, 1, 1))
  {
  }

  /** Every valid date lies before January 1 of the following year. */
  lemma DaysBeforeNextYear(c: Civil)
    requires ValidCivil(c)
    ensures DaysFromCivil(c) < DaysFromCivil(Civil(c.year + 1, 1, 1))
  {
    MarchYearLength(c.year - 1);
  }

  /** The first day of any month of a year is on or after January 1 of that year. */
  lemma MonthStartAfterYearStart(y: int, m: int)
    requires 1 <= m <= 12
    ensures DaysFromCivil(Civil(y, 1, 1)) <= DaysFromCivil(Civil(y, m, 1))
  {
    MarchYearLength(y - 1);
  }

  /** January 1 of a later year has a larger day number. */
  lemma {:induction false} YearStartMonotone(a: int, b: int)
    requires a <= b
    ensures DaysFromCivil(Civil(a, 1, 1)) <= DaysFromCivil(Civil(b, 1, 1))
    decreases b - a
  {
    if a < b {
      YearStartMonotone(a, b - 1);
      MarchYearLength(b - 2);
    }
  }

  /** Days from 0100-01-01 on have a year of at least 100. */
  lemma LateDayYear(k: int)
    requires Year100Day <= k
    ensures CivilFromDays(k).year >= 100
  {
    var c := CivilFromDays(k);
    DaysCivilRoundTrip(k);
    if c.year < 100 {
      EarlyYearDay(c);
    }
  }

  /** The day number of 0000-01-01 (Year0DayIsNewYear proves it); 0000-03-01 is day -EpochDays. */
  const Year0Day := -719528

  lemma Year0DayIsNewYear()
    ensures Year0Day == DaysFromCivil(Civil(0, 1, 1))
    ensures -EpochDays == DaysFromCivil(Civil(0, 3, 1))
  {
    assert -1 / 400 == -1 && -1 % 400 == 399;
    assert DaysBeforeMarchYear(-1) == -366;
  }

  /** The days from 0000-01-01 up to 0100-01-01 are exactly the days of the years 0 to 99. */
  lemma EarlyYearsDays(k: int)
    ensures 0 <= CivilFromDays(k).year < 100 <==> Year0Day <= k < Year100Day
  {
    var c := CivilFromDays(k);
    DaysCivilRoundTrip(k);
    Year0DayIsNewYear();
    if c.year < 0 {
      DaysBeforeNextYear(c);
      YearStartMonotone(c.year + 1, 0);
    } else {
      YearStartMonotone(0, c.year);
      MonthStartAfterYearStart(c.year, c.month);
    }
    if c.year < 100 {
      EarlyYearDay(c);
    } else {
      LateMonthDay(c);
    }
  }

  /** A valid date from the year 100 on lies on or after 0100-01-01. */
  lemma LateMonthDay(c: Civil)
    requires ValidCivil(c) && 100 <= c.year
    ensures Year100Day <= DaysFromCivil(c)
  {
    MonthStartAfterYearStart(c.year, c.month);
    YearStartMonotone(100, c.year);
    Year100DayIsNewYear();
  }

  /**
   * Read 1900 years later, a date whose March-based year is -1 to 99 moves
   * by 693960 days, or by 693961 when it lies before 0000-03-01: the year 0
   * has a February 29 and the year 1900 has none.
   */
  lemma Shift1900(c: Civil)
    requires ValidCivil(c) && -1 <= MarchYear(c) < 100
    ensures DaysFromCivil(Civil(c.year + 1900, c.month, c.day))
         == DaysFromCivil(c) + if MarchYear(c) < 0 then 693961 else 693960
    ensures MarchYear(c) < 0 <==> DaysFromCivil(c) < -EpochDays
  {
    var y := MarchYear(c);
    assert MarchYear(Civil(c.year + 1900, c.month, c.day)) == y + 1900;
    if y < 0 {
      assert DaysBeforeMarchYear(y) == -366;
      assert DaysBeforeMarchYear(y + 1900) == 693595;
    } else {
      assert y / 400 == 0 && y % 400 == y;
      assert (y + 1900) / 400 == 4 && (y + 1900) % 400 == y + 300;
      assert (y + 300) / 4 == y / 4 + 75 && (y + 300) / 100 == 3;
    }
  }

  /** The turns of the years 99 to 100 and 1999 to 2000, by day number. */
  lemma CenturyTurns()
    ensures CivilFromDays(Year100Day - 1) == Civil(99, 12, 31)
    ensures CivilFromDays(Year100Day) == Civil(100, 1, 1)
    ensures CivilFromDays(10956) == Civil(1999, 12, 31)
    ensures CivilFromDays(10957) == Civil(2000, 1, 1)
  {
    assert DayPartsOf(-683004) == DayParts(0, 0, 24, 3, 305);
    assert DayPartsOf(-683003) == DayParts(0, 0, 24, 3, 306);
    assert DayPartsOf(10956) == DayParts(4, 3, 24, 3, 305);
    assert DayPartsOf(10957) == DayParts(4, 3, 24, 3, 306);
  }

  /** Days of years below 100 lie before 0100-01-01. */
  lemma EarlyYearDay(c: Civil)
    requires ValidCivil(c) && c.year < 100
    ensures DaysFromCivil(c) < Year100Day
  {
    DaysBeforeNextYear(c);
    YearStartMonotone(c.year + 1, 100);
    Year100DayIsNewYear();
  }
}
