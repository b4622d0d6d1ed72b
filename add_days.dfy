/**
 * addDays: builds a fresh Date at the start of the input's JST day and moves
 * it by n days with `setDate(getDate() + n)`. `getDate` and `setDate` work in
 * the host's local time zone; the model takes the host to be in JST.
 */
module AddDays {
  import opened Calendar
  import opened Jst
  import opened Strings

  /** Offset of the host's local time zone from UTC; the model assumes a host running in JST. */
  const HostOffsetMs := JstOffsetMs

  /** The host-local day number of an instant. */
  function LocalDay(t: int): int {
    (t + HostOffsetMs) / MsPerDay
  }

  /** A JavaScript Date object: a mutable instant. */
  class JsDate {
    var time: int

    constructor (t: int)
      ensures time == t
    {
      time := t;
    }

    /** getDate(): the host-local day of the month. */
    function GetDate(): (d: int)
      reads this
      ensures 1 <= d <= 31
    {
      CivilFromDays(LocalDay(time)).day
    }

    /**
     * setDate(n): keeps the host-local year, month and time of day and makes
     * n the day of the month; a day outside the month runs on into the
     * neighbouring months as Date.UTC does.
     */
    method SetDate(n: int)
      modifies this
      ensures var c := CivilFromDays(LocalDay(old(time)));
        time == MakeDay(c.year, c.month - 1, n) * MsPerDay + (old(time) + HostOffsetMs) % MsPerDay - HostOffsetMs
      ensures LocalDay(time) == LocalDay(old(time)) + n - old(GetDate())
      ensures (time + HostOffsetMs) % MsPerDay == (old(time) + HostOffsetMs) % MsPerDay
    {
      var local := time + HostOffsetMs;
      var c := CivilFromDays(local / MsPerDay);
      DaysCivilRoundTrip(local / MsPerDay);
      MakeDayValid(c);
      var day := MakeDay(c.year, c.month - 1, n);
      assert day == local / MsPerDay + n - c.day;
      time := day * MsPerDay + local % MsPerDay - HostOffsetMs;
      assert LocalDay(time) == day;
    }
  }

  /** The start of the JST day n days after the input's JST day. */
  function DaysAfter(date: DateInput, n: int): (t: int)
    requires ValidInput(date)
    ensures t == JstMidnight(JstDay(t))
    ensures JstDay(t) == JstDayOf(date) + n
  {
    JstMidnight(JstDayOf(date) + n)
  }

  /** addDays(date, days). */
  method AddDays(date: DateInput, days: int) returns (d: JsDate)
    requires ValidInput(date)
    ensures fresh(d)
    ensures d.time == DaysAfter(date, days)
  {
    var start := ToJstDate(date);
    assert LocalDay(start) == JstDayOf(date) && (start + HostOffsetMs) % MsPerDay == 0;
    d := new JsDate(start);
    d.SetDate(d.GetDate() + days);
    assert LocalDay(d.time) == JstDayOf(date) + days;
  }

  /** Adding zero days gives the start of the input's day. */
  lemma DaysAfterZero(date: DateInput)
    requires ValidInput(date)
    ensures DaysAfter(date, 0) == ToJstDate(date)
  {
  }

  /** The result lies within the JST day n days away, at its very start: its JST time of day is 00:00:00. */
  lemma DaysAfterIsMidnight(date: DateInput, n: int)
    requires ValidInput(date)
    ensures (DaysAfter(date, n) + JstOffsetMs) % MsPerDay == 0
  {
  }

  /**
   * Moving by a days and then by b days is moving by a + b days exactly when
   * the first move ends outside the JST years 0 to 99, which toJstDate would
   * read as 1900 to 1999.
   */
  lemma DaysAfterCompose(date: DateInput, a: int, b: int)
    requires ValidInput(date)
    ensures DaysAfter(DateValue(DaysAfter(date, a)), b) == DaysAfter(date, a + b) <==> !ShortYear(JstCivil(DaysAfter(date, a)).year)
  {
    var mid := DaysAfter(date, a);
    ToJstDateOfInstant(mid);
    JstMidnightDay(JstDayOf(date) + a + b, 0);
    JstMidnightDay(JstDay(ToJstDate(DateValue(mid))) + b, 0);
  }

  /**
   * One day back from '100-01-01' is 0099-12-31, and one day on from that
   * instant is 2000-01-01, since toJstDate reads its year 99 as 1999.
   */
  lemma DaysAfterComposeShortYearExample()
    ensures WellFormedDate("100-01-01")
    ensures JstCivil(DaysAfter(DateString("100-01-01"), 0)) == Civil(100, 1, 1)
    ensures JstCivil(DaysAfter(DateValue(DaysAfter(DateString("100-01-01"), -1)), 1)) == Civil(2000, 1, 1)
  {
    Year100String();
    var back := DaysAfter(DateString("100-01-01"), -1);
    assert JstDay(back) == Year100Day - 1;
    JstMidnightDay(10957, 0);
    CenturyTurns();
  }

  /** '100-01-01' names 0100-01-01. */
  lemma Year100String()
    ensures WellFormedDate("100-01-01") && JstDayOf(DateString("100-01-01")) == Year100Day
  {
    DateStringFields(100, 1, 1);
    assert NatToDecimal(100) + "-" + Pad2(1) + "-" + Pad2(1) == "100-01-01";
    assert JstDayOf(DateString("100-01-01")) == MakeDay(100, 0, 1);
    MakeDayValid(Civil(100, 1, 1));
    Year100DayIsNewYear();
  }

  // Examples from the tests of addDays, starting from the instant that toJstDate gives for the date string.

  /** 2025-01-30 + 5 is 2025-02-04 (across a month end). */
  lemma DaysAfterMonthEndExample()
    ensures JstCivil(DaysAfter(DateValue(CreateJstDate(2025, 0, 30)), 5)) == Civil(2025, 2, 4)
  {
    MonthEndDays();
    CreateJstDateDay(2025, 0, 30);
  }

  lemma MonthEndDays()
    ensures MakeDay(2025, 0, 30) == 20118 && CivilFromDays(20123) == Civil(2025, 2, 4)
  {
    DayPartsUnique(20123, DayParts(5, 0, 6, 0, 340));
  }

  /** 2025-12-30 + 5 is 2026-01-04 (across a year end). */
  lemma DaysAfterYearEndExample()
    ensures JstCivil(DaysAfter(DateValue(CreateJstDate(2025, 11, 30)), 5)) == Civil(2026, 1, 4)
  {
    YearEndDays();
    CreateJstDateDay(2025, 11, 30);
  }

  lemma YearEndDays()
    ensures MakeDay(2025, 11, 30) == 20452 && CivilFromDays(20457) == Civil(2026, 1, 4)
  {
    DayPartsUnique(20457, DayParts(5, 0, 6, 1, 309));
  }

  /** 2025-02-03 - 5 is 2025-01-29. */
  lemma DaysAfterNegativeExample()
    ensures JstCivil(DaysAfter(DateValue(CreateJstDate(2025, 1, 3)), -5)) == Civil(2025, 1, 29)
  {
    NegativeDays();
    CreateJstDateDay(2025, 1, 3);
  }

  lemma NegativeDays()
    ensures MakeDay(2025, 1, 3) == 20122 && CivilFromDays(20117) == Civil(2025, 1, 29)
  {
    DayPartsUnique(20117, DayParts(5, 0, 6, 0, 334));
  }
}
