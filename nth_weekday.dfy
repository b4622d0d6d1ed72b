/**
 * getNthWeekday: the day of the month of the n-th given weekday. The same
 * function appears in the boolean engine and in the hard-coded naming engine;
 * it is modelled once here.
 */
module NthWeekday {
  import opened Calendar
  import opened Jst
  import opened Rules

  /** The weekday of the first day of a month. */
  function FirstWeekday(year: int, month: int): (w: int)
    ensures 0 <= w < 7
  {
    Weekday(MakeDay(year, month - 1, 1))
  }

  /**
   * The source reads that weekday as getJstDay(createJstDate(year, month - 1, 1)),
   * where Date.UTC reads a year from 0 to 99 as 1900 + year; for any other
   * year it is FirstWeekday.
   */
  lemma FirstWeekdayIsJstDay(year: int, month: int)
    ensures 1 <= month <= 12 ==>
      GetJstDay(DateValue(CreateJstDate(year, month - 1, 1))) == Weekday(MakeDay(FullYear(year), month - 1, 1))
    ensures 1 <= month <= 12 && !ShortYear(year) ==>
      FirstWeekday(year, month) == GetJstDay(DateValue(CreateJstDate(year, month - 1, 1)))
  {
    if 1 <= month <= 12 {
      JstDayOfFirst(year, month);
    }
  }

  lemma JstDayOfFirst(year: int, month: int)
    requires 1 <= month <= 12
    ensures GetJstDay(DateValue(CreateJstDate(year, month - 1, 1))) == Weekday(MakeDay(FullYear(year), month - 1, 1))
  {
    var k := MakeDay(FullYear(year), month - 1, 1);
    CreateJstDateDay(year, month - 1, 1);
    CivilOfMakeDay(Civil(FullYear(year), month, 1));
    GettersOfJstMidnight(k);
  }

  /**
   * getNthWeekday(year, month, weekday, n): days until the first such weekday,
   * wrapped into 0..6, plus n - 1 weeks.
   */
  function NthWeekday(year: int, month: int, weekday: int, n: int): int {
    var daysUntilFirst := weekday - FirstWeekday(year, month);
    var wrapped := if daysUntilFirst < 0 then daysUntilFirst + 7 else daysUntilFirst;
    1 + wrapped + (n - 1) * 7
  }

  /** The n-th weekday of a month lies in the n-th week of the month and falls on that weekday. */
  lemma NthWeekdayInWeek(year: int, month: int, weekday: int, n: int)
    requires 0 <= weekday < 7
    ensures var day := NthWeekday(year, month, weekday, n);
      7 * n - 6 <= day <= 7 * n && Weekday(MakeDay(year, month - 1, day)) == weekday
  {
    var first := MakeDay(year, month - 1, 1);
    var daysUntilFirst := weekday - Weekday(first);
    var wrapped := if daysUntilFirst < 0 then daysUntilFirst + 7 else daysUntilFirst;
    WeekdayStep(first, wrapped);
    WeekdayStep(first + wrapped, n - 1);
    assert MakeDay(year, month - 1, NthWeekday(year, month, weekday, n)) == first + wrapped + 7 * (n - 1);
  }

  /** getNthWeekday(year, rule.month, rule.weekday, rule.n) for a rule of the happy-Monday table. */
  function NthWeekdayOf(year: int, rule: NthWeekdayRule): int {
    NthWeekday(year, rule.month, rule.weekday, rule.n)
  }

  /** The weekday of the (k + 1)-th day of a month is k days on from the weekday of the first. */
  lemma WeeksAfterFirst(year: int, month: int, k: int)
    ensures Weekday(MakeDay(year, month - 1, 1 + k)) == (Weekday(MakeDay(year, month - 1, 1)) + k) % 7
  {
    WeekdayStep(MakeDay(year, month - 1, 1), k);
  }

  /** The result is 1 + ((weekday - weekday of the 1st) mod 7) + 7(n - 1). */
  lemma NthWeekdayFormula(year: int, month: int, weekday: int, n: int)
    requires 0 <= weekday < 7
    ensures NthWeekday(year, month, weekday, n) == 1 + (weekday - FirstWeekday(year, month)) % 7 + 7 * (n - 1)
  {
  }

  /** Exactly one day in the n-th week of a month falls on a given weekday: the result is the only candidate. */
  lemma NthWeekdayUnique(year: int, month: int, weekday: int, n: int, day: int)
    requires 0 <= weekday < 7
    requires 7 * n - 6 <= day <= 7 * n
    requires Weekday(MakeDay(year, month - 1, day)) == weekday
    ensures day == NthWeekday(year, month, weekday, n)
  {
    var r := NthWeekday(year, month, weekday, n);
    NthWeekdayInWeek(year, month, weekday, n);
    WeeksAfterFirst(year, month, day - 1);
    WeeksAfterFirst(year, month, r - 1);
    var w1 := Weekday(MakeDay(year, month - 1, 1));
    assert (w1 + day - 1) % 7 == (w1 + r - 1) % 7;
    assert -7 < day - r < 7;
  }

  /** Every happy-Monday rule gives a Monday between the 8th and the 21st, a valid day in every month. */
  lemma HappyMondayDays(year: int)
    ensures forall r :: r in HappyMondayList() ==>
      var day := NthWeekday(year, r.month, r.weekday, r.n);
      8 <= day <= 21 && ValidCivil(Civil(year, r.month, day)) && Weekday(DaysFromCivil(Civil(year, r.month, day))) == 1
  {
    forall r | r in HappyMondayList()
      ensures var day := NthWeekday(year, r.month, r.weekday, r.n);
        8 <= day <= 21 && ValidCivil(Civil(year, r.month, day)) && Weekday(DaysFromCivil(Civil(year, r.month, day))) == 1
    {
      HappyMondayShape();
      var day := NthWeekday(year, r.month, r.weekday, r.n);
      NthWeekdayInWeek(year, r.month, r.weekday, r.n);
      assert 1 <= r.month <= 12;
      MakeDayValid(Civil(year, r.month, day));
    }
  }
}
