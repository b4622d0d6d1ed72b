/**
 * getEndOfWeek and getEndOfMonth: the Friday that closes a date's week and
 * the last day of its month, both as the instant at which that JST day begins.
 */
module EndOf {
  import opened Calendar
  import opened Jst
  import opened AddDays

  /**
   * getEndOfWeek: Monday to Friday go forward to Friday, Saturday goes back
   * one day and Sunday goes forward five days. Of the seven days from the
   * day before the input to five days after it, the result is the one Friday.
   */
  function GetEndOfWeek(date: DateInput): (r: int)
    requires ValidInput(date)
    ensures r == JstMidnight(JstDay(r))
    ensures Weekday(JstDay(r)) == 5
    ensures -1 <= JstDay(r) - JstDayOf(date) <= 5
  {
    var day := GetJstDay(date);
    var daysUntilFriday := if day == 0 then 5 else 5 - day;
    GettersReadJstDay(date);
    FridayOffset(JstDayOf(date));
    DaysAfter(date, daysUntilFriday)
  }

  /** The offset getEndOfWeek adds to a day reaches a Friday within one day back and five forward. */
  lemma FridayOffset(k: int)
    ensures var w := Weekday(k); var n := if w == 0 then 5 else 5 - w;
      Weekday(k + n) == 5 && -1 <= n <= 5
  {
    var w := Weekday(k);
    WeekdayStep(k, if w == 0 then 5 else 5 - w);
  }

  /** Two Fridays less than a week apart are the same day. */
  lemma FridayWindow(f: int, k: int)
    requires Weekday(f) == 5 && Weekday(k) == 5 && -6 <= k - f <= 6
    ensures k == f
  {
  }

  /** Only one day in a window of seven consecutive days is a Friday, so the two bounds fix the result. */
  lemma EndOfWeekUnique(date: DateInput, k: int)
    requires ValidInput(date)
    requires Weekday(k) == 5 && -1 <= k - JstDayOf(date) <= 5
    ensures JstDay(GetEndOfWeek(date)) == k
  {
    FridayWindow(JstDay(GetEndOfWeek(date)), k);
  }

  /** Monday to Friday: the Friday of the same Monday-to-Sunday week, never earlier than the input. */
  lemma EndOfWeekWeekday(date: DateInput)
    requires ValidInput(date)
    requires 1 <= Weekday(JstDayOf(date)) <= 5
    ensures JstDay(GetEndOfWeek(date)) == JstDayOf(date) + 5 - Weekday(JstDayOf(date))
  {
    GettersReadJstDay(date);
  }

  /** Saturday: the Friday before. */
  lemma EndOfWeekSaturday(date: DateInput)
    requires ValidInput(date) && Weekday(JstDayOf(date)) == 6
    ensures JstDay(GetEndOfWeek(date)) == JstDayOf(date) - 1
  {
    GettersReadJstDay(date);
  }

  /** Sunday: the Friday five days later. */
  lemma EndOfWeekSunday(date: DateInput)
    requires ValidInput(date) && Weekday(JstDayOf(date)) == 0
    ensures JstDay(GetEndOfWeek(date)) == JstDayOf(date) + 5
  {
    GettersReadJstDay(date);
  }

  /** A Friday is its own end of week. */
  lemma EndOfWeekOfFriday(date: DateInput)
    requires ValidInput(date) && Weekday(JstDayOf(date)) == 5
    ensures GetEndOfWeek(date) == ToJstDate(date)
  {
    GettersReadJstDay(date);
  }

  /** Monday 2025-01-27 ends its week on Friday 2025-01-31. */
  lemma EndOfWeekExample()
    ensures JstCivil(GetEndOfWeek(DateValue(CreateJstDate(2025, 0, 27)))) == Civil(2025, 1, 31)
  {
    var t := CreateJstDate(2025, 0, 27);
    CreateJstDateDay(2025, 0, 27);
    assert MakeDay(2025, 0, 27) == 20115;
    assert Weekday(20115) == 1;
    EndOfWeekWeekday(DateValue(t));
    assert DayPartsOf(20119) == DayParts(5, 0, 6, 0, 336);
  }

  /** Day 0 of the month after `month` is the day before the first of that next month. */
  lemma DayZeroNumber(year: int, month: int)
    requires 1 <= month <= 12
    ensures MakeDay(year, month, 0) == DaysFromCivil(NextCivil(Civil(year, month, DaysInMonth(year, month)))) - 1
  {
    var last := Civil(year, month, DaysInMonth(year, month));
    if month == 12 {
      assert month / 12 == 1 && month % 12 == 0;
      assert NextCivil(last) == Civil(year + 1, 1, 1);
    } else {
      assert month / 12 == 0 && month % 12 == month;
      assert NextCivil(last) == Civil(year, month + 1, 1);
    }
  }

  /**
   * Date.UTC(year, month, 0) for 1 <= month <= 12 is the last day of month
   * `month` (1-based) of the year as Date.UTC reads it (0 to 99 mean 1900 to 1999).
   */
  lemma DayZeroIsMonthEnd(year: int, month: int)
    requires 1 <= month <= 12
    ensures var y := FullYear(year);
      JstCivil(CreateJstDate(year, month, 0)) == Civil(y, month, DaysInMonth(y, month))
    ensures var y := FullYear(year);
      CreateJstDate(year, month, 0) == JstMidnight(DaysFromCivil(Civil(y, month, DaysInMonth(y, month))))
  {
    var y := FullYear(year);
    var last := Civil(y, month, DaysInMonth(y, month));
    NextCivilDays(last);
    DayZeroNumber(y, month);
    CreateJstDateDay(year, month, 0);
    assert JstDay(CreateJstDate(year, month, 0)) == DaysFromCivil(last);
    CivilDaysRoundTrip(last);
  }

  /**
   * getEndOfMonth: the last day of the input's JST month, read with the JST
   * getters, through Date.UTC(year, month + 1, 0), which reads a year from
   * 0 to 99 as 1900 + year.
   */
  function GetEndOfMonth(date: DateInput): (r: int)
    requires ValidInput(date)
    ensures r == JstMidnight(JstDay(r))
    ensures var year, month := FullYear(GetJstFullYear(date)), GetJstMonth(date) + 1;
      JstCivil(r) == Civil(year, month, DaysInMonth(year, month))
  {
    var year := GetJstFullYear(date);
    var month := GetJstMonth(date);
    DayZeroIsMonthEnd(year, month + 1);
    JstMidnightDay(DaysFromCivil(Civil(FullYear(year), month + 1, DaysInMonth(FullYear(year), month + 1))), 0);
    CreateJstDate(year, month + 1, 0)
  }

  /** Dates in the same JST month share their month end; in particular the first and last day do. */
  lemma EndOfMonthSameMonth(a: DateInput, b: DateInput)
    requires ValidInput(a) && ValidInput(b)
    requires JstCivil(ToJstDate(a)).year == JstCivil(ToJstDate(b)).year
    requires JstCivil(ToJstDate(a)).month == JstCivil(ToJstDate(b)).month
    ensures GetEndOfMonth(a) == GetEndOfMonth(b)
  {
    GettersReadJstDay(a);
    GettersReadJstDay(b);
  }

  /**
   * The month end lies in the input's month, on or after the input's day,
   * when the input's JST year is not one of 0 to 99 (which Date.UTC would
   * read as 1900 to 1999).
   */
  lemma EndOfMonthBounds(date: DateInput)
    requires ValidInput(date)
    requires !ShortYear(JstCivil(ToJstDate(date)).year)
    ensures JstDayOf(date) <= JstDay(GetEndOfMonth(date))
    ensures JstCivil(GetEndOfMonth(date)).year == JstCivil(ToJstDate(date)).year
    ensures JstCivil(GetEndOfMonth(date)).month == JstCivil(ToJstDate(date)).month
  {
    GettersReadJstDay(date);
    var c := CivilFromDays(JstDayOf(date));
    var e := Civil(c.year, c.month, DaysInMonth(c.year, c.month));
    DayZeroIsMonthEnd(c.year, c.month);
    DaysCivilRoundTrip(JstDayOf(date));
    CivilDaysRoundTrip(e);
    MonthDaysOrdered(c, e);
  }

  /**
   * '100-01-00' is 0099-12-31, and its month end is 1999-12-31: Date.UTC
   * reads the getters' year 99 as 1999.
   */
  lemma EndOfMonthShortYearExample()
    ensures WellFormedDate("100-01-00")
    ensures JstCivil(ToJstDate(DateString("100-01-00"))) == Civil(99, 12, 31)
    ensures JstCivil(GetEndOfMonth(DateString("100-01-00"))) == Civil(1999, 12, 31)
  {
    ToJstDateNotIdempotentExample();
    GettersReadJstDay(DateString("100-01-00"));
  }

  /** Within one month, a later day of the month has a later day number. */
  lemma MonthDaysOrdered(c: Civil, e: Civil)
    requires ValidCivil(c) && ValidCivil(e)
    requires c.year == e.year && c.month == e.month && c.day <= e.day
    ensures DaysFromCivil(c) <= DaysFromCivil(e)
  {
    MakeDayValid(c);
    MakeDayValid(e);
  }

  /** Applied to its own result, getEndOfMonth returns that result. */
  lemma EndOfMonthIdempotent(date: DateInput)
    requires ValidInput(date)
    ensures GetEndOfMonth(DateValue(GetEndOfMonth(date))) == GetEndOfMonth(date)
  {
    var e := GetEndOfMonth(date);
    var e2 := GetEndOfMonth(DateValue(e));
    GettersOfInstant(e);
    DaysCivilRoundTrip(JstDay(e));
    DaysCivilRoundTrip(JstDay(e2));
  }

  /**
   * The month end of the start of a JST civil day is the last day of that
   * civil month, the year read as Date.UTC reads it.
   */
  lemma EndOfMonthOfCivil(c: Civil)
    requires ValidCivil(Civil(FullYear(c.year), c.month, c.day))
    ensures var y := FullYear(c.year);
      JstCivil(GetEndOfMonth(DateValue(CreateJstDate(c.year, c.month - 1, c.day)))) ==
      Civil(y, c.month, DaysInMonth(y, c.month))
  {
    CreateJstDateOfCivil(c);
    GettersOfInstant(CreateJstDate(c.year, c.month - 1, c.day));
  }

  /** The day number of the month end of the start of a JST civil day, the year read as Date.UTC reads it. */
  lemma EndOfMonthDayOfCivil(c: Civil)
    requires ValidCivil(Civil(FullYear(c.year), c.month, c.day))
    ensures var y := FullYear(c.year);
      JstDay(GetEndOfMonth(DateValue(CreateJstDate(c.year, c.month - 1, c.day)))) ==
      DaysFromCivil(Civil(y, c.month, DaysInMonth(y, c.month)))
  {
    var end := GetEndOfMonth(DateValue(CreateJstDate(c.year, c.month - 1, c.day)));
    EndOfMonthOfCivil(c);
    DaysCivilRoundTrip(JstDay(end));
  }

  /** 2025-01 ends on the 31st. */
  lemma EndOfJanuaryExample()
    ensures JstCivil(GetEndOfMonth(DateValue(CreateJstDate(2025, 0, 15)))) == Civil(2025, 1, 31)
  {
    EndOfMonthOfCivil(Civil(2025, 1, 15));
  }

  /** 2025-04 ends on the 30th. */
  lemma EndOfAprilExample()
    ensures JstCivil(GetEndOfMonth(DateValue(CreateJstDate(2025, 3, 10)))) == Civil(2025, 4, 30)
  {
    EndOfMonthOfCivil(Civil(2025, 4, 10));
  }

  /** February 2025 ends on the 28th. */
  lemma EndOfFebruary2025Example()
    ensures JstCivil(GetEndOfMonth(DateValue(CreateJstDate(2025, 1, 10)))) == Civil(2025, 2, 28)
  {
    assert !IsLeapYear(2025);
    EndOfMonthOfCivil(Civil(2025, 2, 10));
  }

  /** February of the leap year 2024 ends on the 29th. */
  lemma EndOfFebruary2024Example()
    ensures JstCivil(GetEndOfMonth(DateValue(CreateJstDate(2024, 1, 10)))) == Civil(2024, 2, 29)
  {
    assert IsLeapYear(2024);
    EndOfMonthOfCivil(Civil(2024, 2, 10));
  }
}
