/**
 * isNationalHoliday: the boolean holiday engine driven by the constant
 * tables of the Rules module. A date is a holiday when its JST year is 1948
 * or later and it is a defined holiday, a substitute holiday or a citizens'
 * holiday, tried in that order.
 */
module NationalHoliday {
  import opened Calendar
  import opened Strings
  import opened Jst
  import opened AddDays
  import opened Rules
  import opened Equinox
  import opened NthWeekday
  import opened Derived

  /** The relocated Marine Day, Sports Day or Mountain Day of an Olympic year. */
  predicate OlympicDay(o: OlympicDates, month: int, day: int) {
    (month == o.marineDay.0 && day == o.marineDay.1) ||
    (month == o.sportsDay.0 && day == o.sportsDay.1) ||
    (month == o.mountainDay.0 && day == o.mountainDay.1)
  }

  /**
   * The month-by-month rules of isDefinedHoliday; `olympicYear` switches off
   * the July, August and October rules in a year with Olympic relocations.
   */
  predicate MonthRules(year: int, month: int, day: int, olympicYear: bool) {
    var f, s := FixedHolidayDates, HolidayStartYears;
    match month
    case 1 =>
      (day == f.newYearsDay.day && year >= s.newYearsDay) ||
      (if year >= s.comingOfAgeDayHappyMonday then day == NthWeekdayOf(year, HappyMondayRules.comingOfAgeDay)
       else year >= s.comingOfAgeDay && day == f.comingOfAgeDayFixed.day)
    case 2 =>
      (day == f.nationalFoundationDay.day && year >= s.nationalFoundationDay) ||
      (day == f.emperorsBirthdayReiwa.day && year >= s.emperorsBirthdayReiwa)
    case 3 =>
      day == VernalEquinoxDay(year) && year >= s.vernalEquinoxDay
    case 4 =>
      day == f.showaDay.day && year >= s.emperorsBirthdayShowa
    case 5 =>
      (day == f.constitutionDay.day && year >= s.constitutionDay) ||
      (day == f.greenDay.day && year >= s.greenDayMay) ||
      (day == f.childrensDay.day && year >= s.childrensDay)
    case 7 =>
      !olympicYear &&
      (if year >= s.marineDayHappyMonday then day == NthWeekdayOf(year, HappyMondayRules.marineDay)
       else year >= s.marineDay && day == f.marineDayFixed.day)
    case 8 =>
      !olympicYear && day == f.mountainDay.day && year >= s.mountainDay
    case 9 =>
      (if year >= s.respectForTheAgedDayHappyMonday then day == NthWeekdayOf(year, HappyMondayRules.respectForTheAgedDay)
       else year >= s.respectForTheAgedDay && day == f.respectForTheAgedDayFixed.day) ||
      (day == AutumnalEquinoxDay(year) && year >= s.autumnalEquinoxDay)
    case 10 =>
      !olympicYear &&
      (if year >= s.sportsDayHappyMonday then day == NthWeekdayOf(year, HappyMondayRules.sportsDay)
       else year >= s.sportsDay && day == f.sportsDayFixed.day)
    case 11 =>
      (day == f.cultureDay.day && year >= s.cultureDay) ||
      (day == f.laborThanksgivingDay.day && year >= s.laborThanksgivingDay)
    case 12 =>
      day == f.emperorsBirthdayHeisei.day &&
      s.emperorsBirthdayHeiseiStart <= year <= s.emperorsBirthdayHeiseiEnd
    case _ => false
  }

  /**
   * isDefinedHoliday: a holiday of Article 2 of the Act on National Holidays
   * (or a special one-off holiday), before substitute and citizens' holidays
   * are considered. Specials are looked up by their 'YYYY-MM-DD' key first,
   * then the Olympic relocations, then the month rules.
   */
  predicate IsDefinedHoliday(year: int, month: int, day: int) {
    if IsoDate(Civil(year, month, day)) in SpecialHolidays then true
    else if year in OlympicSpecialYears && OlympicDay(OlympicSpecialYears[year], month, day) then true
    else MonthRules(year, month, day, year in OlympicSpecialYears)
  }

  /** isNationalHoliday after the getters have read the JST year, month and day of the input. */
  predicate NationalHolidayOn(date: DateInput)
    requires ValidInput(date)
  {
    HolidayOnCivil(IsDefinedHoliday, SubstituteHolidayStart, CitizensHolidayStartYear, HolidayLawStartYear,
                   GetJstFullYear(date), GetJstMonth(date) + 1, GetJstDate(date))
  }

  /**
   * isNationalHoliday(date): read the JST date, then nothing before 1948, a
   * defined holiday, a substitute holiday from 1973-04-12 on, or a citizens'
   * holiday from 1986 on.
   */
  method IsNationalHoliday(date: DateInput) returns (b: bool)
    requires ValidInput(date)
    ensures b == NationalHolidayOn(date)
  {
    var year := GetJstFullYear(date);
    var month := GetJstMonth(date) + 1;
    var day := GetJstDate(date);
    GettersReadJstDay(date);
    b := IsHoliday(IsDefinedHoliday, SubstituteHolidayStart, CitizensHolidayStartYear, HolidayLawStartYear, year, month, day);
  }

  // Properties.

  /** isNationalHoliday decides exactly the holidays of the Act on the input's JST day. */
  lemma NationalHolidayMeaning(date: DateInput)
    requires ValidInput(date)
    ensures NationalHolidayOn(date) <==>
      HolidayByLaw(IsDefinedHoliday, SubstituteHolidayStart, CitizensHolidayStartYear, HolidayLawStartYear, JstDayOf(date))
  {
    GettersReadJstDay(date);
    HolidayOnDayMeaning(IsDefinedHoliday, SubstituteHolidayStart, CitizensHolidayStartYear, HolidayLawStartYear, JstDayOf(date));
  }

  /** No date whose JST year is before 1948 is a holiday. */
  lemma BeforeLawNoHoliday(date: DateInput)
    requires ValidInput(date)
    requires CivilFromDays(JstDayOf(date)).year < HolidayLawStartYear
    ensures !NationalHolidayOn(date)
  {
    GettersReadJstDay(date);
  }

  /** A defined holiday is a holiday from 1948 on, whatever the derived rules say. */
  lemma DefinedIsNational(date: DateInput)
    requires ValidInput(date)
    requires CivilFromDays(JstDayOf(date)).year >= HolidayLawStartYear
    requires DefinedOn(IsDefinedHoliday, JstDayOf(date))
    ensures NationalHolidayOn(date)
  {
    GettersReadJstDay(date);
  }

  /** The six special dates, as civil dates. */
  function SpecialDates(): (ds: set<Civil>)
    ensures forall c :: c in ds ==> ValidCivil(c) && c.year >= 0
  {
    {Civil(1959, 4, 10), Civil(1989, 2, 24), Civil(1990, 11, 12), Civil(1993, 6, 9), Civil(2019, 5, 1), Civil(2019, 10, 22)}
  }

  /** The 'YYYY-MM-DD' text of a date from year 0 on reads back its year, month and day. */
  lemma IsoDateFields(c: Civil)
    requires c.year >= 0 && 0 <= c.month < 100 && 0 <= c.day < 100
    ensures WellFormedDate(IsoDate(c)) && ParseFields(IsoDate(c)) == (c.year, c.month, c.day)
  {
    DateStringFields(c.year, c.month, c.day);
  }

  /** Two dates from year 0 on with two-digit months and days have the same text only when they are the same date. */
  lemma IsoDateInjective(c: Civil, e: Civil)
    requires c.year >= 0 && 0 <= c.month < 100 && 0 <= c.day < 100
    requires e.year >= 0 && 0 <= e.month < 100 && 0 <= e.day < 100
    requires IsoDate(c) == IsoDate(e)
    ensures c == e
  {
    IsoDateFields(c);
    IsoDateFields(e);
  }

  // The 'YYYY-MM-DD' texts of the six special dates, one date at a time.

  lemma TextOf19590410()
    ensures IsoDate(Civil(1959, 4, 10)) == "1959-04-10"
  {
    assert IntToDecimal(1959) == "1959" by { FourDigits(1959); }
    assert Pad2(4) == "04" by { TwoDigits(4); }
    assert Pad2(10) == "10" by { TwoDigits(10); }
  }

  lemma TextOf19890224()
    ensures IsoDate(Civil(1989, 2, 24)) == "1989-02-24"
  {
    assert IntToDecimal(1989) == "1989" by { FourDigits(1989); }
    assert Pad2(2) == "02" by { TwoDigits(2); }
    assert Pad2(24) == "24" by { TwoDigits(24); }
  }

  lemma TextOf19901112()
    ensures IsoDate(Civil(1990, 11, 12)) == "1990-11-12"
  {
    assert IntToDecimal(1990) == "1990" by { FourDigits(1990); }
    assert Pad2(11) == "11" by { TwoDigits(11); }
    assert Pad2(12) == "12" by { TwoDigits(12); }
  }

  lemma TextOf19930609()
    ensures IsoDate(Civil(1993, 6, 9)) == "1993-06-09"
  {
    assert IntToDecimal(1993) == "1993" by { FourDigits(1993); }
    assert Pad2(6) == "06" by { TwoDigits(6); }
    assert Pad2(9) == "09" by { TwoDigits(9); }
  }

  lemma TextOf20190501()
    ensures IsoDate(Civil(2019, 5, 1)) == "2019-05-01"
  {
    assert IntToDecimal(2019) == "2019" by { FourDigits(2019); }
    assert Pad2(5) == "05" by { TwoDigits(5); }
    assert Pad2(1) == "01" by { TwoDigits(1); }
  }

  lemma TextOf20191022()
    ensures IsoDate(Civil(2019, 10, 22)) == "2019-10-22"
  {
    assert IntToDecimal(2019) == "2019" by { FourDigits(2019); }
    assert Pad2(10) == "10" by { TwoDigits(10); }
    assert Pad2(22) == "22" by { TwoDigits(22); }
  }

  /** Each of the six special dates has its 'YYYY-MM-DD' text among the special keys. */
  lemma SpecialDateKey(c: Civil)
    requires c in SpecialDates()
    ensures IsoDate(c) in SpecialHolidays
  {
    if c == Civil(1959, 4, 10) {
      TextOf19590410();
    } else if c == Civil(1989, 2, 24) {
      TextOf19890224();
    } else if c == Civil(1990, 11, 12) {
      TextOf19901112();
    } else if c == Civil(1993, 6, 9) {
      TextOf19930609();
    } else if c == Civil(2019, 5, 1) {
      TextOf20190501();
    } else {
      TextOf20191022();
    }
  }

  /** Every special key is the text of one of the six special dates. */
  lemma SpecialDateOfKey(k: string) returns (e: Civil)
    requires k in SpecialHolidays
    ensures e in SpecialDates() && IsoDate(e) == k
  {
    SpecialKeyTexts(k);
    if k == "1959-04-10" {
      e := Civil(1959, 4, 10);
      TextOf19590410();
    } else if k == "1989-02-24" {
      e := Civil(1989, 2, 24);
      TextOf19890224();
    } else if k == "1990-11-12" {
      e := Civil(1990, 11, 12);
      TextOf19901112();
    } else if k == "1993-06-09" {
      e := Civil(1993, 6, 9);
      TextOf19930609();
    } else if k == "2019-05-01" {
      e := Civil(2019, 5, 1);
      TextOf20190501();
    } else {
      e := Civil(2019, 10, 22);
      TextOf20191022();
    }
  }

  /** A special key is the text of no other date than a special one. */
  lemma KeyOfSpecialDate(c: Civil)
    requires c.year >= 0 && 0 <= c.month < 100 && 0 <= c.day < 100
    requires IsoDate(c) in SpecialHolidays
    ensures c in SpecialDates()
  {
    var e := SpecialDateOfKey(IsoDate(c));
    IsoDateInjective(c, e);
  }

  /** The text of a date before year 0 starts with '-', and no special key does. */
  lemma NegativeYearKey(c: Civil)
    requires c.year < 0
    ensures IsoDate(c) !in SpecialHolidays
  {
    var k := IsoDate(c);
    assert k[0] == '-';
    if k in SpecialHolidays {
      SpecialKeyTexts(k);
    }
  }

  /** A date with a two-digit month and day has a special key exactly when it is one of the six special dates. */
  lemma SpecialKeys(c: Civil)
    requires 0 <= c.month < 100 && 0 <= c.day < 100
    ensures IsoDate(c) in SpecialHolidays <==> c in SpecialDates()
  {
    if c.year < 0 {
      NegativeYearKey(c);
    } else {
      if c in SpecialDates() {
        SpecialDateKey(c);
      }
      if IsoDate(c) in SpecialHolidays {
        KeyOfSpecialDate(c);
      }
    }
  }

  /** Every special date is a defined holiday, whatever the other rules say. */
  lemma SpecialsAreDefined(c: Civil)
    requires c in SpecialDates()
    ensures IsDefinedHoliday(c.year, c.month, c.day)
  {
    SpecialKeys(c);
  }

  /**
   * In 2020 and 2021 the relocated Marine, Sports and Mountain Days are the
   * only defined holidays of July, August and October.
   */
  lemma OlympicYears(c: Civil)
    requires c.year in OlympicSpecialYears && (c.month == 7 || c.month == 8 || c.month == 10)
    requires ValidCivil(c)
    ensures IsDefinedHoliday(c.year, c.month, c.day) <==> OlympicDay(OlympicSpecialYears[c.year], c.month, c.day)
  {
    assert c !in SpecialDates();
    DefinedAwayFromSpecials(c);
    assert !MonthRules(c.year, c.month, c.day, true);
  }

  /** Away from the six special dates, isDefinedHoliday is the Olympic relocations and the month rules. */
  lemma DefinedAwayFromSpecials(c: Civil)
    requires 0 <= c.month < 100 && 0 <= c.day < 100
    requires c !in SpecialDates()
    ensures IsDefinedHoliday(c.year, c.month, c.day) <==>
      (c.year in OlympicSpecialYears && OlympicDay(OlympicSpecialYears[c.year], c.month, c.day)) ||
      MonthRules(c.year, c.month, c.day, c.year in OlympicSpecialYears)
  {
    SpecialKeys(c);
  }

  // Examples.

  /** 2025-02-23 is the Emperor's Birthday and no rule defines 2025-02-24. */
  lemma EmperorsBirthday2025()
    ensures IsDefinedHoliday(2025, 2, 23) && !IsDefinedHoliday(2025, 2, 24)
  {
    DefinedAwayFromSpecials(Civil(2025, 2, 23));
    DefinedAwayFromSpecials(Civil(2025, 2, 24));
  }

  /** The Emperor's Birthday of 2025 falls on a Sunday, day 20142. */
  lemma SundayHoliday2025()
    ensures MakeDay(2025, 1, 24) == 20143 && Weekday(20142) == 0 && DefinedOn(IsDefinedHoliday, 20142)
  {
    EmperorsBirthday2025();
    assert MakeDay(2025, 1, 23) == 20142;
    DefinedOnMakeDay(IsDefinedHoliday, Civil(2025, 2, 23));
  }

  /** So Monday 2025-02-24 is a substitute holiday. */
  lemma SubstituteHolidayExample()
    ensures !IsDefinedHoliday(2025, 2, 24)
    ensures HolidayOnCivil(IsDefinedHoliday, SubstituteHolidayStart, CitizensHolidayStartYear, HolidayLawStartYear, 2025, 2, 24)
  {
    EmperorsBirthday2025();
    SundayHoliday2025();
    DayAfterSundayHoliday(DefinedDays(IsDefinedHoliday), 20143);
  }
}
