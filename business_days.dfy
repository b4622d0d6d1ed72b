/**
 * Weekends, holidays and business days, and the arithmetic built on the
 * traversal functions: counting, adding and subtracting business days, the
 * next and previous business day, and the last business day of a month or
 * of a week.
 *
 * Which dates are national holidays is a parameter `national` of these
 * functions: the package wires in isNationalHoliday or a lookup of holiday
 * dates (LookupChecker below). Every traversal runs from the start of a JST
 * day, so the ghost `horizon` of the traversal functions becomes a JST day
 * number the caller promises to be a business day far enough away.
 */
module BusinessDays {
  import opened Calendar
  import opened Jst
  import opened AddDays
  import opened Traversal
  import opened EndOf
  import opened Formatting

  /** isWeekend: the JST weekday is Sunday (0) or Saturday (6). */
  predicate IsWeekend(date: DateInput)
    requires ValidInput(date)
  {
    var day := GetJstDay(date);
    day == 0 || day == 6
  }

  /** isWeekend as a checker on every input; an input outside the modelled date strings is no weekend. */
  function WeekendChecker(): DateInput -> bool {
    date => ValidInput(date) && IsWeekend(date)
  }

  /** createIsHoliday(isWeekend, isNationalHoliday) in isHoliday/index.ts. */
  predicate HolidayWith(isWeekend: DateInput -> bool, isNationalHoliday: DateInput -> bool, date: DateInput) {
    isWeekend(date) || isNationalHoliday(date)
  }

  /** createIsHoliday(lookup) of _internal/createIsHoliday.ts as a checker. */
  function LookupChecker(lookup: set<string>): DateInput -> bool {
    date => IsHolidayIn(lookup, date)
  }

  /** The isHoliday that isBusinessDay calls: createIsHoliday(isWeekend, national), a weekend or national holiday. */
  predicate IsHoliday(national: DateInput -> bool, date: DateInput)
    requires ValidInput(date)
  {
    HolidayWith(WeekendChecker(), national, date)
  }

  /** isBusinessDay: not a holiday. */
  predicate IsBusinessDay(national: DateInput -> bool, date: DateInput)
    requires ValidInput(date)
  {
    !IsHoliday(national, date)
  }

  /** isBusinessDay as the predicate on instants that the traversals take. */
  function BusinessAt(national: DateInput -> bool): int -> bool {
    t => IsBusinessDay(national, DateValue(t))
  }

  /** The start of JST day k is a business day exactly when it is a weekday that is no national holiday. */
  lemma BusinessOnDay(national: DateInput -> bool, k: int)
    requires Year100Day <= k
    ensures HoldsOn(BusinessAt(national), k) <==>
      Weekday(k) != 0 && Weekday(k) != 6 && !national(DateValue(JstMidnight(k)))
  {
    JstMidnightDay(k, 0);
    WeekdayOfInstant(JstMidnight(k));
  }

  /** isWeekend reads the weekday of the input's JST day. */
  lemma WeekendByDayNumber(date: DateInput)
    requires ValidInput(date)
    ensures IsWeekend(date) <==> Weekday(JstDayOf(date)) == 0 || Weekday(JstDayOf(date)) == 6
  {
    GettersReadJstDay(date);
  }

  /** A weekend date is a holiday whatever `national` says; a national holiday is one; nothing else is. */
  lemma HolidayMeaning(national: DateInput -> bool, date: DateInput)
    requires ValidInput(date)
    ensures IsWeekend(date) ==> IsHoliday(national, date)
    ensures national(date) ==> IsHoliday(national, date)
    ensures !IsWeekend(date) && !national(date) ==> !IsHoliday(national, date)
  {
  }

  /** No weekend date and no national holiday is a business day. */
  lemma NoWeekendBusinessDay(national: DateInput -> bool, date: DateInput)
    requires ValidInput(date)
    ensures IsWeekend(date) ==> !IsBusinessDay(national, date)
    ensures national(date) ==> !IsBusinessDay(national, date)
  {
  }

  /**
   * countBusinessDays: equal JST days count 1 or 0; otherwise count over
   * the range in increasing order, negated when start is after end.
   */
  function CountBusinessDays(national: DateInput -> bool, start: DateInput, end: DateInput): int
    requires ValidInput(start) && ValidInput(end)
    requires Year100Day <= JstDayOf(start) && Year100Day <= JstDayOf(end)
  {
    var startTime := ToJstDate(start);
    var endTime := ToJstDate(end);
    if startTime == endTime then (if IsBusinessDay(national, DateValue(startTime)) then 1 else 0)
    else if startTime > endTime then -Count(endTime, startTime, BusinessAt(national), 0)
    else Count(startTime, endTime, BusinessAt(national), 0)
  }

  /**
   * countBusinessDays counts the business days from the earlier JST day to
   * the later one, both included, negated when start is the later one.
   */
  lemma CountBusinessDaysMeaning(national: DateInput -> bool, start: DateInput, end: DateInput)
    requires ValidInput(start) && ValidInput(end)
    requires Year100Day <= JstDayOf(start) && Year100Day <= JstDayOf(end)
    ensures var s, e, p := JstDayOf(start), JstDayOf(end), BusinessAt(national);
      CountBusinessDays(national, start, end) == if s <= e then CountOn(p, s, e) else -(CountOn(p, e, s) as int)
  {
    var s, e, p := JstDayOf(start), JstDayOf(end), BusinessAt(national);
    CountFromMidnight(ToJstDate(start), ToJstDate(end), p, 0);
    CountFromMidnight(ToJstDate(end), ToJstDate(start), p, 0);
    JstMidnightDay(s, 0);
  }

  /** Swapping two different days negates the count. */
  lemma CountBusinessDaysAntisymmetric(national: DateInput -> bool, a: DateInput, b: DateInput)
    requires ValidInput(a) && ValidInput(b)
    requires Year100Day <= JstDayOf(a) && Year100Day <= JstDayOf(b)
    requires JstDayOf(a) != JstDayOf(b)
    ensures CountBusinessDays(national, a, b) == -CountBusinessDays(national, b, a)
  {
    CountBusinessDaysMeaning(national, a, b);
    CountBusinessDaysMeaning(national, b, a);
  }

  /** The count never exceeds the number of calendar days in the range. */
  lemma CountBusinessDaysBound(national: DateInput -> bool, start: DateInput, end: DateInput)
    requires ValidInput(start) && ValidInput(end)
    requires Year100Day <= JstDayOf(start) && Year100Day <= JstDayOf(end)
    ensures var s, e := JstDayOf(start), JstDayOf(end);
      if s <= e then 0 <= CountBusinessDays(national, start, end) <= e - s + 1
      else -(s - e + 1) <= CountBusinessDays(national, start, end) <= 0
  {
    CountBusinessDaysMeaning(national, start, end);
  }

  /**
   * addBusinessDays: days <= 0 gives the start of the input's JST day, and a
   * negative count does not go back; otherwise the business day with exactly
   * `days` business days after the input's day, up to and including it.
   */
  function AddBusinessDays(national: DateInput -> bool, date: DateInput, days: int, ghost horizon: int): (r: int)
    requires ValidInput(date) && Year100Day <= JstDayOf(date)
    requires days <= 0 || days <= CountOn(BusinessAt(national), JstDayOf(date) + 1, horizon)
    ensures days <= 0 ==> r == ToJstDate(date)
    ensures days > 0 ==> r == JstMidnight(JstDay(r)) && BusinessAt(national)(r) && JstDayOf(date) < JstDay(r)
    ensures days > 0 ==> CountOn(BusinessAt(national), JstDayOf(date) + 1, JstDay(r)) == days
  {
    var start := ToJstDate(date);
    assert JstDay(start) == JstDayOf(date);
    Advance(start, days, BusinessAt(national), horizon)
  }

  /**
   * subBusinessDays: days <= 0 gives the start of the input's JST day;
   * otherwise the business day with exactly `days` business days from it up
   * to the input's day, that day excluded.
   */
  function SubBusinessDays(national: DateInput -> bool, date: DateInput, days: int, ghost horizon: int): (r: int)
    requires ValidInput(date) && Year100Day <= horizon
    requires days <= 0 || days <= CountOn(BusinessAt(national), horizon, JstDayOf(date) - 1)
    ensures days <= 0 ==> r == ToJstDate(date)
    ensures days > 0 ==> r == JstMidnight(JstDay(r)) && BusinessAt(national)(r) && JstDay(r) < JstDayOf(date)
    ensures days > 0 ==> CountOn(BusinessAt(national), JstDay(r), JstDayOf(date) - 1) == days
  {
    Rewind(ToJstDate(date), days, BusinessAt(national), horizon)
  }

  /**
   * getNextBusinessDay: the first business day strictly after the input's JST
   * day, even when the input is itself a business day.
   */
  function GetNextBusinessDay(national: DateInput -> bool, date: DateInput, ghost horizon: int): (r: int)
    requires ValidInput(date)
    requires Year100Day <= JstDayOf(date) < horizon && HoldsOn(BusinessAt(national), horizon)
    ensures r == JstMidnight(JstDay(r)) && BusinessAt(national)(r)
    ensures JstDayOf(date) < JstDay(r) <= horizon
    ensures forall k :: JstDayOf(date) < k < JstDay(r) ==> !HoldsOn(BusinessAt(national), k)
  {
    FindNext(Shift(ToJstDate(date), 1), BusinessAt(national), horizon)
  }

  /**
   * getPreviousBusinessDay: the last business day strictly before the input's
   * JST day, even when the input is itself a business day.
   */
  function GetPreviousBusinessDay(national: DateInput -> bool, date: DateInput, ghost horizon: int): (r: int)
    requires ValidInput(date)
    requires Year100Day <= horizon < JstDayOf(date) && HoldsOn(BusinessAt(national), horizon)
    ensures r == JstMidnight(JstDay(r)) && BusinessAt(national)(r)
    ensures horizon <= JstDay(r) < JstDayOf(date)
    ensures forall k :: JstDay(r) < k < JstDayOf(date) ==> !HoldsOn(BusinessAt(national), k)
  {
    FindPrev(Shift(ToJstDate(date), -1), BusinessAt(national), horizon)
  }

  /** The next business day is one business day added. */
  lemma NextIsAddOne(national: DateInput -> bool, date: DateInput, horizon: int)
    requires ValidInput(date)
    requires Year100Day <= JstDayOf(date) < horizon && HoldsOn(BusinessAt(national), horizon)
    ensures 1 <= CountOn(BusinessAt(national), JstDayOf(date) + 1, horizon)
    ensures GetNextBusinessDay(national, date, horizon) == AddBusinessDays(national, date, 1, horizon)
  {
    var k := JstDayOf(date);
    AdvanceOneIsFindNext(ToJstDate(date), BusinessAt(national), horizon);
    assert 1 <= CountOn(BusinessAt(national), k + 1, horizon);
  }

  /** The previous business day is one business day subtracted. */
  lemma PreviousIsSubOne(national: DateInput -> bool, date: DateInput, horizon: int)
    requires ValidInput(date)
    requires Year100Day <= horizon < JstDayOf(date) && HoldsOn(BusinessAt(national), horizon)
    ensures 1 <= CountOn(BusinessAt(national), horizon, JstDayOf(date) - 1)
    ensures GetPreviousBusinessDay(national, date, horizon) == SubBusinessDays(national, date, 1, horizon)
  {
    var k := JstDayOf(date);
    RewindOneIsFindPrev(ToJstDate(date), BusinessAt(national), horizon);
    assert 1 <= CountOn(BusinessAt(national), horizon, k - 1);
  }

  /**
   * The last business day of the JST day `end` or before it: `end` itself
   * when it is a business day, else the previous business day.
   */
  function LastBusinessDayUpTo(national: DateInput -> bool, end: int, ghost horizon: int): (r: int)
    requires end == JstMidnight(JstDay(end))
    requires Year100Day <= horizon <= JstDay(end) && HoldsOn(BusinessAt(national), horizon)
    ensures r == JstMidnight(JstDay(r)) && BusinessAt(national)(r)
    ensures horizon <= JstDay(r) <= JstDay(end)
    ensures forall k :: JstDay(r) < k <= JstDay(end) ==> !HoldsOn(BusinessAt(national), k)
  {
    if IsBusinessDay(national, DateValue(end)) then end
    else GetPreviousBusinessDay(national, DateValue(end), horizon)
  }

  /** getLastBusinessDayOfMonth: the last business day on or before the input's month end. */
  function GetLastBusinessDayOfMonth(national: DateInput -> bool, date: DateInput, ghost horizon: int): (r: int)
    requires ValidInput(date)
    requires Year100Day <= horizon <= JstDay(GetEndOfMonth(date)) && HoldsOn(BusinessAt(national), horizon)
    ensures r == JstMidnight(JstDay(r)) && BusinessAt(national)(r)
    ensures JstDay(r) <= JstDay(GetEndOfMonth(date))
    ensures forall k :: JstDay(r) < k <= JstDay(GetEndOfMonth(date)) ==> !HoldsOn(BusinessAt(national), k)
  {
    LastBusinessDayUpTo(national, GetEndOfMonth(date), horizon)
  }

  /** The last business day up to a day does not depend on how far back the promised business day was. */
  lemma LastUpToIndependent(national: DateInput -> bool, end: int, h1: int, h2: int)
    requires end == JstMidnight(JstDay(end))
    requires Year100Day <= h1 <= JstDay(end) && HoldsOn(BusinessAt(national), h1)
    requires Year100Day <= h2 <= JstDay(end) && HoldsOn(BusinessAt(national), h2)
    ensures LastBusinessDayUpTo(national, end, h1) == LastBusinessDayUpTo(national, end, h2)
  {
    var r1, r2 := LastBusinessDayUpTo(national, end, h1), LastBusinessDayUpTo(national, end, h2);
    if JstDay(r1) < JstDay(r2) {
      assert HoldsOn(BusinessAt(national), JstDay(r2));
    } else if JstDay(r2) < JstDay(r1) {
      assert HoldsOn(BusinessAt(national), JstDay(r1));
    }
  }

  /** Every day of a JST month has the same last business day of the month. */
  lemma LastOfMonthSameMonth(national: DateInput -> bool, a: DateInput, b: DateInput, h1: int, h2: int)
    requires ValidInput(a) && ValidInput(b)
    requires JstCivil(ToJstDate(a)).year == JstCivil(ToJstDate(b)).year
    requires JstCivil(ToJstDate(a)).month == JstCivil(ToJstDate(b)).month
    requires Year100Day <= h1 <= JstDay(GetEndOfMonth(a)) && HoldsOn(BusinessAt(national), h1)
    requires Year100Day <= h2 <= JstDay(GetEndOfMonth(b)) && HoldsOn(BusinessAt(national), h2)
    ensures GetLastBusinessDayOfMonth(national, a, h1) == GetLastBusinessDayOfMonth(national, b, h2)
  {
    EndOfMonthSameMonth(a, b);
    LastUpToIndependent(national, GetEndOfMonth(a), h1, h2);
  }

  /**
   * createGetLastBusinessDayOfWeek(holidayDates): the last business day on
   * or before the Friday getEndOfWeek gives, national holidays being the
   * dates the lookup has.
   */
  function GetLastBusinessDayOfWeek(holidayDates: set<string>, date: DateInput, ghost horizon: int): (r: int)
    requires ValidInput(date)
    requires Year100Day <= horizon <= JstDay(GetEndOfWeek(date)) && HoldsOn(BusinessAt(LookupChecker(holidayDates)), horizon)
    ensures r == JstMidnight(JstDay(r)) && BusinessAt(LookupChecker(holidayDates))(r)
    ensures JstDay(r) <= JstDay(GetEndOfWeek(date))
    ensures forall k :: JstDay(r) < k <= JstDay(GetEndOfWeek(date)) ==> !HoldsOn(BusinessAt(LookupChecker(holidayDates)), k)
  {
    LastBusinessDayUpTo(LookupChecker(holidayDates), GetEndOfWeek(date), horizon)
  }

  // Examples from the tests, on JST day numbers: 2024-12-31 is day 20088, a
  // Tuesday, and 2025-01-01 (元日) is day 20089. Each example states what it
  // needs of the national holidays around it.

  /** Friday 2025-01-03 plus one business day is Monday 2025-01-06. */
  lemma AddFromFridayExample(national: DateInput -> bool)
    requires !national(DateValue(JstMidnight(20094)))
    ensures 1 <= CountOn(BusinessAt(national), 20092, 20094)
    ensures JstDay(AddBusinessDays(national, DateValue(JstMidnight(20091)), 1, 20094)) == 20094
  {
    JstMidnightDay(20091, 0);
    BusinessOnDay(national, 20092);
    BusinessOnDay(national, 20093);
    BusinessOnDay(national, 20094);
    CountHolds(BusinessAt(national), 20092, 20094, 20094);
  }

  /** 2024-12-31 plus one business day skips 元日 and is 2025-01-02. */
  lemma AddSkipsHolidayExample(national: DateInput -> bool)
    requires national(DateValue(JstMidnight(20089))) && !national(DateValue(JstMidnight(20090)))
    ensures 1 <= CountOn(BusinessAt(national), 20089, 20090)
    ensures JstDay(AddBusinessDays(national, DateValue(JstMidnight(20088)), 1, 20090)) == 20090
  {
    JstMidnightDay(20088, 0);
    BusinessOnDay(national, 20089);
    BusinessOnDay(national, 20090);
    CountHolds(BusinessAt(national), 20089, 20090, 20090);
  }

  /** 2025-01-14 minus one business day skips 成人の日 and the weekend and is Friday 2025-01-10. */
  lemma SubSkipsHolidayExample(national: DateInput -> bool)
    requires national(DateValue(JstMidnight(20101))) && !national(DateValue(JstMidnight(20098)))
    ensures 1 <= CountOn(BusinessAt(national), 20098, 20101)
    ensures JstDay(SubBusinessDays(national, DateValue(JstMidnight(20102)), 1, 20098)) == 20098
  {
    JstMidnightDay(20102, 0);
    BusinessOnDay(national, 20098);
    BusinessOnDay(national, 20099);
    BusinessOnDay(national, 20100);
    BusinessOnDay(national, 20101);
    CountHolds(BusinessAt(national), 20098, 20098, 20101);
  }

  /** The business day after Friday 2025-01-10 is Tuesday 2025-01-14, past the weekend and 成人の日. */
  lemma NextBusinessDayExample(national: DateInput -> bool)
    requires national(DateValue(JstMidnight(20101))) && !national(DateValue(JstMidnight(20102)))
    ensures HoldsOn(BusinessAt(national), 20102)
    ensures JstDay(GetNextBusinessDay(national, DateValue(JstMidnight(20098)), 20102)) == 20102
  {
    JstMidnightDay(20098, 0);
    BusinessOnDay(national, 20099);
    BusinessOnDay(national, 20100);
    BusinessOnDay(national, 20101);
    BusinessOnDay(national, 20102);
  }

  /** The business day before Monday 2025-01-06 is Friday 2025-01-03. */
  lemma PreviousBusinessDayExample(national: DateInput -> bool)
    requires !national(DateValue(JstMidnight(20091)))
    ensures HoldsOn(BusinessAt(national), 20091)
    ensures JstDay(GetPreviousBusinessDay(national, DateValue(JstMidnight(20094)), 20091)) == 20091
  {
    JstMidnightDay(20094, 0);
    BusinessOnDay(national, 20091);
    BusinessOnDay(national, 20092);
    BusinessOnDay(national, 20093);
  }

  /** From 2024-12-31 to 2025-01-02 there are two business days: 元日 is left out. */
  lemma CountHolidayExample(national: DateInput -> bool)
    requires !national(DateValue(JstMidnight(20088))) && national(DateValue(JstMidnight(20089)))
    requires !national(DateValue(JstMidnight(20090)))
    ensures CountBusinessDays(national, DateValue(JstMidnight(20088)), DateValue(JstMidnight(20090))) == 2
  {
    JstMidnightDay(20088, 0);
    JstMidnightDay(20090, 0);
    BusinessOnDay(national, 20088);
    BusinessOnDay(national, 20089);
    BusinessOnDay(national, 20090);
    CountBusinessDaysMeaning(national, DateValue(JstMidnight(20088)), DateValue(JstMidnight(20090)));
  }

  /** From Thursday 2025-01-09 back to Monday 2025-01-06 the count is -4. */
  lemma CountReversedExample(national: DateInput -> bool)
    requires forall k :: 20094 <= k <= 20097 ==> !national(DateValue(JstMidnight(k)))
    ensures CountBusinessDays(national, DateValue(JstMidnight(20097)), DateValue(JstMidnight(20094))) == -4
  {
    JstMidnightDay(20094, 0);
    JstMidnightDay(20097, 0);
    BusinessOnDay(national, 20094);
    BusinessOnDay(national, 20095);
    BusinessOnDay(national, 20096);
    BusinessOnDay(national, 20097);
    CountBusinessDaysMeaning(national, DateValue(JstMidnight(20097)), DateValue(JstMidnight(20094)));
  }

  /**
   * May 2025 ends on Saturday the 31st (day 20239); the last business day up
   * to it is Friday the 30th.
   */
  lemma LastOfMonthExample(national: DateInput -> bool)
    requires !national(DateValue(JstMidnight(20238)))
    ensures HoldsOn(BusinessAt(national), 20238)
    ensures JstDay(LastBusinessDayUpTo(national, JstMidnight(20239), 20238)) == 20238
  {
    JstMidnightDay(20239, 0);
    BusinessOnDay(national, 20238);
    BusinessOnDay(national, 20239);
  }

  /** The week of Monday 2025-01-06 ends on Friday 2025-01-10. */
  lemma EndOfWeekJanuaryExample()
    ensures JstDay(GetEndOfWeek(DateValue(JstMidnight(20094)))) == 20098
  {
    JstMidnightDay(20094, 0);
    EndOfWeekWeekday(DateValue(JstMidnight(20094)));
  }

  /**
   * In the week ending on Friday 2025-01-10, with Thursday and Friday in the
   * lookup and Wednesday not, the last business day is Wednesday 2025-01-08.
   */
  lemma LastOfWeekExample(holidayDates: set<string>, date: DateInput)
    requires ValidInput(date) && JstDay(GetEndOfWeek(date)) == 20098
    requires IsHolidayIn(holidayDates, DateValue(JstMidnight(20097)))
    requires IsHolidayIn(holidayDates, DateValue(JstMidnight(20098)))
    requires !IsHolidayIn(holidayDates, DateValue(JstMidnight(20096)))
    ensures HoldsOn(BusinessAt(LookupChecker(holidayDates)), 20096)
    ensures JstDay(GetLastBusinessDayOfWeek(holidayDates, date, 20096)) == 20096
  {
    BusinessOnDay(LookupChecker(holidayDates), 20096);
    BusinessOnDay(LookupChecker(holidayDates), 20097);
    BusinessOnDay(LookupChecker(holidayDates), 20098);
  }
}
