/**
 * The two kinds of holiday that are derived from the defined ("national")
 * holidays, written once over any predicate `defined` on (year, month, day):
 *
 * - a substitute holiday (Article 3 paragraph 2 of the Act on National
 *   Holidays, Act No. 178 of 1948): when a national holiday falls on a Sunday,
 *   the nearest following day that is not a national holiday;
 * - a citizens' holiday (Article 3 paragraph 3): a day that is not a national
 *   holiday and lies between two national holidays.
 *
 * The three engine variants each instantiate these with their own
 * isDefinedHoliday and their own start dates.
 */
module Derived {
  import opened Calendar
  import opened Jst
  import opened AddDays
  import opened Rules

  /** `defined` on the civil date of a day number, as the source reads a day back with the JST getters. */
  predicate DefinedOn(defined: (int, int, int) -> bool, k: int) {
    var c := CivilFromDays(k);
    defined(c.year, c.month, c.day)
  }

  /** The nearest Sunday on or before day k. */
  function SundayOnOrBefore(k: int): (s: int)
    ensures Weekday(s) == 0 && s <= k < s + 7
  {
    WeekdayStep(k, -Weekday(k));
    k - Weekday(k)
  }

  /** `defined` read on day numbers. */
  function DefinedDays(defined: (int, int, int) -> bool): (int -> bool) {
    k => DefinedOn(defined, k)
  }

  /** Every day from k - 1 back to the nearest Sunday, that Sunday included, satisfies p. */
  predicate ChainToSunday(p: int -> bool, k: int) {
    forall j :: SundayOnOrBefore(k - 1) <= j < k ==> p(j)
  }

  /**
   * The backward walk of isSubstituteHoliday: starting from the day before k,
   * step back while the day is not a Sunday, failing on the first day that
   * does not satisfy p, and finally ask whether the Sunday reached satisfies p.
   */
  method WalkBackToSunday(p: int -> bool, k: int) returns (found: bool)
    ensures found == ChainToSunday(p, k)
  {
    var sunday := SundayOnOrBefore(k - 1);
    var check := k - 1;
    while Weekday(check) != 0
      invariant sunday <= check <= k - 1
      invariant Weekday(check) == check - sunday
      invariant forall j :: check < j < k ==> p(j)
      decreases Weekday(check)
    {
      if !p(check) {
        return false;
      }
      WeekdayStep(check - 1, 1);
      check := check - 1;
    }
    found := p(check);
  }

  /** The date lies before the start date of substitute holidays. */
  predicate BeforeStart(start: YearMonthDay, year: int, month: int, day: int) {
    year < start.year ||
    (year == start.year && (month < start.month || (month == start.month && day < start.day)))
  }

  /** What isSubstituteHoliday computes once substitute holidays have a start date. */
  predicate SubstituteHolidayOn(defined: (int, int, int) -> bool, start: YearMonthDay, year: int, month: int, day: int) {
    var k := MakeDay(year, month - 1, day);
    !BeforeStart(start, year, month, day) && Weekday(k) != 0 && ChainToSunday(DefinedDays(defined), k)
  }

  /** A valid date outside the years 0 to 99, so that createJstDate and the JST getters read it back unchanged. */
  predicate ReadBackDate(year: int, month: int, day: int) {
    ValidCivil(Civil(year, month, day)) && !ShortYear(year)
  }

  /**
   * isSubstituteHoliday: after the start-date checks, a Sunday is never a
   * substitute holiday; otherwise walk back day by day to the nearest Sunday.
   * The result is the specification's on a date the getters read back and
   * false before the start date on any date.
   */
  method IsSubstituteHoliday(defined: (int, int, int) -> bool, start: YearMonthDay, year: int, month: int, day: int)
    returns (b: bool)
    ensures ReadBackDate(year, month, day) ==> b == SubstituteHolidayOn(defined, start, year, month, day)
    ensures BeforeStart(start, year, month, day) ==> !b
  {
    if year < start.year {
      return false;
    }
    if year == start.year && (month < start.month || (month == start.month && day < start.day)) {
      return false;
    }
    var date := CreateJstDate(year, month - 1, day);
    if ReadBackDate(year, month, day) {
      ReadBackWeekday(year, month, day);
    }
    var weekday := GetJstDay(DateValue(date));
    if weekday == 0 {
      return false;
    }
    b := WalkBackToSunday(DefinedDays(defined), JstDay(date));
  }

  /** createJstDate of a date the getters read back lies on that date's day, and getJstDay reads its weekday. */
  lemma ReadBackWeekday(year: int, month: int, day: int)
    requires ReadBackDate(year, month, day)
    ensures var date := CreateJstDate(year, month - 1, day);
      JstDay(date) == MakeDay(year, month - 1, day) && GetJstDay(DateValue(date)) == Weekday(MakeDay(year, month - 1, day))
  {
    var date := CreateJstDate(year, month - 1, day);
    var c := Civil(year, month, day);
    CreateJstDateDay(year, month - 1, day);
    MakeDayValid(c);
    CivilDaysRoundTrip(c);
    assert JstCivil(date) == c;
    WeekdayOfInstant(date);
  }

  /**
   * What isCitizensHoliday computes once citizens' holidays apply: not a
   * Sunday, not itself defined, and defined on the day before and the day after.
   */
  predicate CitizensHolidayOn(defined: (int, int, int) -> bool, year: int, month: int, day: int) {
    var k := MakeDay(year, month - 1, day);
    if Weekday(k) == 0 then false
    else if defined(year, month, day) then false
    else DefinedOn(defined, k - 1) && DefinedOn(defined, k + 1)
  }

  /**
   * Reference reading of Article 3 paragraph 2 with p for "is a holiday":
   * day k is a substitute holiday when it is not a Sunday and some Sunday
   * before it that satisfies p starts an unbroken run of days satisfying p
   * up to the day before k.
   */
  ghost predicate AfterSundayHolidayRun(p: int -> bool, k: int) {
    Weekday(k) != 0 &&
    exists s :: s < k && Weekday(s) == 0 && p(s) && forall j :: s <= j < k ==> p(j)
  }

  /** No Sunday lies strictly between a Sunday s on or before day d and the nearest Sunday on or before d. */
  lemma LatestSunday(s: int, d: int)
    requires s <= d && Weekday(s) == 0
    ensures s <= SundayOnOrBefore(d)
  {
    var s0 := SundayOnOrBefore(d);
    if s > s0 {
      WeekdayStep(s0, s - s0);
      assert false;
    }
  }

  /** The walk to the nearest Sunday decides exactly the reference reading. */
  lemma ChainMeaning(p: int -> bool, k: int)
    ensures Weekday(k) != 0 && ChainToSunday(p, k) <==> AfterSundayHolidayRun(p, k)
  {
    var s0 := SundayOnOrBefore(k - 1);
    if Weekday(k) != 0 && ChainToSunday(p, k) {
      assert s0 < k && Weekday(s0) == 0 && p(s0);
    }
    if AfterSundayHolidayRun(p, k) {
      var s :| s < k && Weekday(s) == 0 && p(s) && forall j :: s <= j < k ==> p(j);
      LatestSunday(s, k - 1);
    }
  }

  /**
   * isSubstituteHoliday is false before the start date and on Sundays, and
   * otherwise holds iff the date follows a defined Sunday through an unbroken
   * run of defined days.
   */
  lemma SubstituteHolidayMeaning(defined: (int, int, int) -> bool, start: YearMonthDay, year: int, month: int, day: int)
    ensures SubstituteHolidayOn(defined, start, year, month, day) <==>
      !BeforeStart(start, year, month, day) && AfterSundayHolidayRun(DefinedDays(defined), MakeDay(year, month - 1, day))
  {
    ChainMeaning(DefinedDays(defined), MakeDay(year, month - 1, day));
  }

  /** On a valid date, `defined` read back from its day number is `defined` on the date itself. */
  lemma DefinedOnMakeDay(defined: (int, int, int) -> bool, c: Civil)
    requires ValidCivil(c)
    ensures DefinedOn(defined, MakeDay(c.year, c.month - 1, c.day)) == defined(c.year, c.month, c.day)
  {
    CivilOfMakeDay(c);
  }

  /** Wherever the date and its day number agree on `defined`, isCitizensHoliday reads only day numbers. */
  lemma CitizensOnDayNumbers(defined: (int, int, int) -> bool, year: int, month: int, day: int)
    requires DefinedOn(defined, MakeDay(year, month - 1, day)) == defined(year, month, day)
    ensures var k := MakeDay(year, month - 1, day);
      CitizensHolidayOn(defined, year, month, day) <==>
        Weekday(k) != 0 && !DefinedOn(defined, k) && DefinedOn(defined, k - 1) && DefinedOn(defined, k + 1)
  {
  }

  /**
   * On a valid date D with day number k, isCitizensHoliday (once it applies)
   * holds iff D is not a Sunday, D is not defined, and both D - 1 and D + 1
   * are defined.
   */
  lemma CitizensHolidayMeaning(defined: (int, int, int) -> bool, c: Civil)
    requires ValidCivil(c)
    ensures var k := MakeDay(c.year, c.month - 1, c.day);
      CitizensHolidayOn(defined, c.year, c.month, c.day) <==>
        Weekday(k) != 0 && !DefinedOn(defined, k) && DefinedOn(defined, k - 1) && DefinedOn(defined, k + 1)
  {
    DefinedOnMakeDay(defined, c);
    CitizensOnDayNumbers(defined, c.year, c.month, c.day);
  }

  /**
   * The first day after a Sunday holiday that is not a holiday, when it is
   * not itself a Sunday, ends a chain: the substitute holiday falls on the
   * nearest following non-holiday.
   */
  lemma NearestFollowingNonHoliday(p: int -> bool, s: int, k: int)
    requires Weekday(s) == 0 && p(s) && s < k && Weekday(k) != 0 && !p(k)
    requires forall j :: s < j < k ==> p(j)
    ensures ChainToSunday(p, k)
  {
    LatestSunday(s, k - 1);
  }

  /** The day after a Sunday holiday ends a chain of length one. */
  lemma DayAfterSundayHoliday(p: int -> bool, k: int)
    requires Weekday(k - 1) == 0 && p(k - 1)
    ensures ChainToSunday(p, k)
  {
  }

  /** A chain is decided by p on the seven days before k. */
  lemma ChainCongruence(p1: int -> bool, p2: int -> bool, k: int)
    requires forall j :: k - 7 <= j < k ==> p1(j) == p2(j)
    ensures ChainToSunday(p1, k) == ChainToSunday(p2, k)
  {
  }

  /** Both derived kinds depend only on the values of `defined` on the eight days up to and including the day after the date. */
  lemma DerivedCongruence(d1: (int, int, int) -> bool, d2: (int, int, int) -> bool, start: YearMonthDay, c: Civil)
    requires ValidCivil(c)
    requires var k := MakeDay(c.year, c.month - 1, c.day); forall j :: k - 7 <= j <= k + 1 ==> DefinedOn(d1, j) == DefinedOn(d2, j)
    ensures SubstituteHolidayOn(d1, start, c.year, c.month, c.day) == SubstituteHolidayOn(d2, start, c.year, c.month, c.day)
    ensures CitizensHolidayOn(d1, c.year, c.month, c.day) == CitizensHolidayOn(d2, c.year, c.month, c.day)
  {
    var k := MakeDay(c.year, c.month - 1, c.day);
    ChainCongruence(DefinedDays(d1), DefinedDays(d2), k);
    CitizensHolidayMeaning(d1, c);
    CitizensHolidayMeaning(d2, c);
  }

  /** A substitute holiday is never a Sunday, and neither is a citizens' holiday. */
  lemma DerivedNeverSunday(defined: (int, int, int) -> bool, start: YearMonthDay, year: int, month: int, day: int)
    requires Weekday(MakeDay(year, month - 1, day)) == 0
    ensures !SubstituteHolidayOn(defined, start, year, month, day) && !CitizensHolidayOn(defined, year, month, day)
  {
  }

  /**
   * A step of the walk, addDays(checkDate, -1), and the neighbours of
   * isCitizensHoliday, addDays(date, -1) and addDays(date, 1): n days on from
   * an instant whose JST year is not one of 0 to 99 is the start of the JST
   * day n days on, which the getters read as that day's civil date
   * (Jst.GettersOfJstMidnight).
   */
  lemma DaysAfterInstant(t: int, n: int)
    requires !ShortYear(JstCivil(t).year)
    ensures DaysAfter(DateValue(t), n) == JstMidnight(JstDay(t) + n)
  {
    FullYearInstantStays(t);
    JstMidnightDay(JstDay(t), 0);
  }

  /**
   * The order of isNationalHoliday (and of the holiday test of the
   * hard-coded naming engine) once the getters have read the date: nothing
   * before the law starts, then a defined holiday, then a substitute holiday,
   * then, from its start year, a citizens' holiday.
   */
  predicate HolidayOnCivil(defined: (int, int, int) -> bool, start: YearMonthDay, citizensStartYear: int, lawStartYear: int,
                           year: int, month: int, day: int) {
    if year < lawStartYear then false
    else if defined(year, month, day) then true
    else if SubstituteHolidayOn(defined, start, year, month, day) then true
    else year >= citizensStartYear && CitizensHolidayOn(defined, year, month, day)
  }

  /**
   * Reference reading of Articles 2 and 3 of the Act on National Holidays on
   * day k, with `defined` for Article 2: from the law's start year, a defined
   * day; or, from the substitute start date, a day following a defined Sunday
   * through defined days; or, from the citizens' start year, a non-Sunday
   * that is not defined but lies between two defined days.
   */
  ghost predicate HolidayByLaw(defined: (int, int, int) -> bool, start: YearMonthDay, citizensStartYear: int, lawStartYear: int, k: int) {
    var c := CivilFromDays(k);
    c.year >= lawStartYear &&
    (DefinedOn(defined, k) ||
     (!BeforeStart(start, c.year, c.month, c.day) && AfterSundayHolidayRun(DefinedDays(defined), k)) ||
     (c.year >= citizensStartYear && Weekday(k) != 0 && !DefinedOn(defined, k) && DefinedOn(defined, k - 1) && DefinedOn(defined, k + 1)))
  }

  /** The engine's order read on day numbers, for a date whose day number is k. */
  lemma HolidayOnDayNumbers(defined: (int, int, int) -> bool, start: YearMonthDay, citizensStartYear: int, lawStartYear: int,
                            year: int, month: int, day: int, k: int)
    requires MakeDay(year, month - 1, day) == k && DefinedOn(defined, k) == defined(year, month, day)
    ensures HolidayOnCivil(defined, start, citizensStartYear, lawStartYear, year, month, day) <==>
      year >= lawStartYear &&
      (DefinedOn(defined, k) ||
       (!BeforeStart(start, year, month, day) && AfterSundayHolidayRun(DefinedDays(defined), k)) ||
       (year >= citizensStartYear && Weekday(k) != 0 && !DefinedOn(defined, k) && DefinedOn(defined, k - 1) && DefinedOn(defined, k + 1)))
  {
    SubstituteHolidayMeaning(defined, start, year, month, day);
    CitizensOnDayNumbers(defined, year, month, day);
  }

  /** On the civil date of any day number, the engine's order decides exactly the reference reading. */
  lemma HolidayOnDayMeaning(defined: (int, int, int) -> bool, start: YearMonthDay, citizensStartYear: int, lawStartYear: int, k: int)
    ensures var c := CivilFromDays(k);
      HolidayOnCivil(defined, start, citizensStartYear, lawStartYear, c.year, c.month, c.day) <==>
        HolidayByLaw(defined, start, citizensStartYear, lawStartYear, k)
  {
    var c := CivilFromDays(k);
    MakeDayOfCivil(k);
    HolidayOnDayNumbers(defined, start, citizensStartYear, lawStartYear, c.year, c.month, c.day, k);
  }

  /** Two `defined` predicates that agree everywhere give the same holidays. */
  lemma HolidayOnCivilCongruence(d1: (int, int, int) -> bool, d2: (int, int, int) -> bool, start: YearMonthDay,
                                 citizensStartYear: int, lawStartYear: int, year: int, month: int, day: int)
    requires forall y, m, d :: d1(y, m, d) == d2(y, m, d)
    ensures HolidayOnCivil(d1, start, citizensStartYear, lawStartYear, year, month, day) ==
            HolidayOnCivil(d2, start, citizensStartYear, lawStartYear, year, month, day)
  {
    var k := MakeDay(year, month - 1, day);
    ChainCongruence(DefinedDays(d1), DefinedDays(d2), k);
    assert DefinedOn(d1, k - 1) == DefinedOn(d2, k - 1);
    assert DefinedOn(d1, k + 1) == DefinedOn(d2, k + 1);
  }

  /**
   * isNationalHoliday after the getters: the start-year check, then the
   * defined test, the backward walk and the citizens' test, in that order.
   * The result is the specification's before the law's start year and on
   * every date the getters read back.
   */
  method IsHoliday(defined: (int, int, int) -> bool, start: YearMonthDay, citizensStartYear: int, lawStartYear: int,
                   year: int, month: int, day: int) returns (b: bool)
    ensures year < lawStartYear || ReadBackDate(year, month, day) ==>
      b == HolidayOnCivil(defined, start, citizensStartYear, lawStartYear, year, month, day)
  {
    if year < lawStartYear {
      return false;
    }
    if defined(year, month, day) {
      return true;
    }
    var substitute := IsSubstituteHoliday(defined, start, year, month, day);
    if substitute {
      return true;
    }
    if year < citizensStartYear {
      return false;
    }
    b := CitizensHolidayOn(defined, year, month, day);
  }
}
