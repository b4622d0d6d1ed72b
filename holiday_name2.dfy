/**
 * getHolidayName2: the naming engine with the rules written out month by
 * month. It returns the legal name of a defined holiday, 休日 for a
 * substitute or citizens' holiday, and nothing otherwise. Its substitute and
 * citizens' tests are the generic ones of the Derived module, instantiated
 * with "getDefinedHolidayName gives a name".
 */
module HolidayName2 {
  import opened Wrappers
  import opened Calendar
  import opened Strings
  import opened Jst
  import opened Rules
  import opened Equinox
  import opened NthWeekday
  import opened Derived
  import NationalHoliday

  /** The engine's own copy of the one-off holidays, keyed by 'YYYY-MM-DD'. */
  const SpecialHolidayNames: map<string, string> := map[
    "1959-04-10" := "結婚の儀",
    "1989-02-24" := "大喪の礼",
    "1990-11-12" := "即位礼正殿の儀",
    "1993-06-09" := "結婚の儀",
    "2019-05-01" := "休日（祝日扱い）",
    "2019-10-22" := "休日（祝日扱い）"
  ]

  /** The start dates the engine writes out as literals. */
  const LawStartYear := 1948
  const SubstituteStart := YearMonthDay(1973, 4, 12)
  const CitizensStartYear := 1986

  /** The name of substitute and citizens' holidays alike. */
  const RestDayName := "休日"

  /** The switch on the month of getDefinedHolidayName. */
  function MonthHolidayName(year: int, month: int, day: int): Option<string> {
    match month
    case 1 =>
      if day == 1 && year >= 1949 then Some("元日")
      else if year >= 2000 then (if day == NthWeekday.NthWeekday(year, 1, 1, 2) then Some("成人の日") else None)
      else if year >= 1949 && day == 15 then Some("成人の日")
      else None
    case 2 =>
      if day == 11 && year >= 1967 then Some("建国記念の日")
      else if day == 23 && year >= 2020 then Some("天皇誕生日")
      else None
    case 3 =>
      if day == VernalEquinoxDay(year) && year >= 1949 then Some("春分の日") else None
    case 4 =>
      if day != 29 then None
      else if year >= 2007 then Some("昭和の日")
      else if year >= 1989 then Some("みどりの日")
      else if year >= 1949 then Some("天皇誕生日")
      else None
    case 5 =>
      if day == 3 && year >= 1949 then Some("憲法記念日")
      else if day == 4 && year >= 2007 then Some("みどりの日")
      else if day == 5 && year >= 1949 then Some("こどもの日")
      else None
    case 7 =>
      if year == 2020 then
        (if day == 23 then Some("海の日") else if day == 24 then Some("スポーツの日") else None)
      else if year == 2021 then
        (if day == 22 then Some("海の日") else if day == 23 then Some("スポーツの日") else None)
      else if year >= 2003 then (if day == NthWeekday.NthWeekday(year, 7, 1, 3) then Some("海の日") else None)
      else if year >= 1996 && day == 20 then Some("海の日")
      else None
    case 8 =>
      if year == 2020 then (if day == 10 then Some("山の日") else None)
      else if year == 2021 then (if day == 8 then Some("山の日") else None)
      else if year >= 2016 && day == 11 then Some("山の日")
      else None
    case 9 =>
      var respectForTheAged :=
        if year >= 2003 then day == NthWeekday.NthWeekday(year, 9, 1, 3) else year >= 1966 && day == 15;
      if respectForTheAged then Some("敬老の日")
      else if day == AutumnalEquinoxDay(year) && year >= 1948 then Some("秋分の日")
      else None
    case 10 =>
      if year == 2020 || year == 2021 then None
      else if year >= 2020 then (if day == NthWeekday.NthWeekday(year, 10, 1, 2) then Some("スポーツの日") else None)
      else if year == 2019 then (if day == NthWeekday.NthWeekday(year, 10, 1, 2) then Some("体育の日（スポーツの日）") else None)
      else if year >= 2000 then (if day == NthWeekday.NthWeekday(year, 10, 1, 2) then Some("体育の日") else None)
      else if year >= 1966 && day == 10 then Some("体育の日")
      else None
    case 11 =>
      if day == 3 && year >= 1948 then Some("文化の日")
      else if day == 23 && year >= 1948 then Some("勤労感謝の日")
      else None
    case 12 =>
      if day == 23 && year >= 1989 && year <= 2018 then Some("天皇誕生日") else None
    case _ => None
  }

  /**
   * getDefinedHolidayName: a special holiday whose name is non-empty wins,
   * then the month switch.
   */
  function DefinedHolidayName(year: int, month: int, day: int): Option<string> {
    var key := IsoDate(Civil(year, month, day));
    if key in SpecialHolidayNames && SpecialHolidayNames[key] != "" then Some(SpecialHolidayNames[key])
    else MonthHolidayName(year, month, day)
  }

  /** isDefinedHoliday of this engine: getDefinedHolidayName gives a name. */
  predicate IsDefinedHoliday2(year: int, month: int, day: int) {
    DefinedHolidayName(year, month, day).Some?
  }

  /** getHolidayName2 after the getters have read the JST year, month and day. */
  function HolidayNameOnCivil(year: int, month: int, day: int): Option<string> {
    if year < LawStartYear then None
    else
      var name := DefinedHolidayName(year, month, day);
      if name.Some? && name.value != "" then name
      else if SubstituteHolidayOn(IsDefinedHoliday2, SubstituteStart, year, month, day) then Some(RestDayName)
      else if year >= CitizensStartYear && CitizensHolidayOn(IsDefinedHoliday2, year, month, day) then Some(RestDayName)
      else None
  }

  /** getHolidayName2(date) as a function of the input. */
  function HolidayNameOf(date: DateInput): Option<string>
    requires ValidInput(date)
  {
    HolidayNameOnCivil(GetJstFullYear(date), GetJstMonth(date) + 1, GetJstDate(date))
  }

  /**
   * getHolidayName2 once the JST date is read: nothing before 1948; a defined
   * name; else 休日 for a substitute holiday (found by the backward walk) or
   * a citizens' holiday.
   */
  method HolidayNameFor(year: int, month: int, day: int) returns (name: Option<string>)
    ensures year < LawStartYear || ValidCivil(Civil(year, month, day)) ==> name == HolidayNameOnCivil(year, month, day)
  {
    if year < LawStartYear {
      return None;
    }
    var holidayName := DefinedHolidayName(year, month, day);
    if holidayName.Some? && holidayName.value != "" {
      return holidayName;
    }
    var substitute := IsSubstituteHoliday(IsDefinedHoliday2, SubstituteStart, year, month, day);
    if substitute {
      return Some(RestDayName);
    }
    if year >= CitizensStartYear && CitizensHolidayOn(IsDefinedHoliday2, year, month, day) {
      return Some(RestDayName);
    }
    return None;
  }

  /** getHolidayName2(date): read the JST year, month and day, then name the date. */
  method GetHolidayName2(date: DateInput) returns (name: Option<string>)
    requires ValidInput(date)
    ensures name == HolidayNameOf(date)
  {
    var year := GetJstFullYear(date);
    var month := GetJstMonth(date) + 1;
    var day := GetJstDate(date);
    GettersReadJstDay(date);
    name := HolidayNameFor(year, month, day);
  }

  // Properties.

  /** The engine's special table is the one of the Rules module. */
  lemma SpecialTablesCoincide()
    ensures SpecialHolidayNames == SpecialHolidays
  {
  }

  /** Away from the six special dates, getDefinedHolidayName is the month switch. */
  lemma NameAwayFromSpecials(c: Civil)
    requires 0 <= c.month < 100 && 0 <= c.day < 100
    requires c !in NationalHoliday.SpecialDates()
    ensures DefinedHolidayName(c.year, c.month, c.day) == MonthHolidayName(c.year, c.month, c.day)
  {
    SpecialTablesCoincide();
    NationalHoliday.SpecialKeys(c);
  }

  /** On a special date the special name wins over every rule. */
  lemma SpecialNameWins(c: Civil)
    requires c in NationalHoliday.SpecialDates()
    ensures IsoDate(c) in SpecialHolidayNames
    ensures DefinedHolidayName(c.year, c.month, c.day) == Some(SpecialHolidayNames[IsoDate(c)])
  {
    SpecialTablesCoincide();
    NationalHoliday.SpecialDateKey(c);
    SpecialHolidayTable();
  }

  /** The special names are neither empty nor 休日. */
  lemma SpecialNameShape(key: string)
    requires key in SpecialHolidayNames
    ensures SpecialHolidayNames[key] != "" && SpecialHolidayNames[key] != RestDayName
  {
    SpecialTablesCoincide();
    SpecialKeyTexts(key);
  }

  /** The names of the month switch are neither empty nor 休日. */
  lemma MonthNameShape(year: int, month: int, day: int)
    ensures var name := MonthHolidayName(year, month, day);
      name.Some? ==> name.value != "" && name.value != RestDayName
  {
  }

  /** Every defined name is non-empty, so the truthiness tests of the source are tests for a name, and none is 休日. */
  lemma DefinedNameShape(year: int, month: int, day: int)
    ensures var name := DefinedHolidayName(year, month, day);
      name.Some? ==> name.value != "" && name.value != RestDayName
  {
    var key := IsoDate(Civil(year, month, day));
    if key in SpecialHolidayNames {
      SpecialNameShape(key);
    }
    MonthNameShape(year, month, day);
  }

  /** The month switch names a day exactly when the boolean engine's Olympic and month rules accept it. */
  lemma MonthNamesAgree(year: int, month: int, day: int)
    ensures MonthHolidayName(year, month, day).Some? <==>
      (year in OlympicSpecialYears && NationalHoliday.OlympicDay(OlympicSpecialYears[year], month, day)) ||
      NationalHoliday.MonthRules(year, month, day, year in OlympicSpecialYears)
  {
  }

  /** getDefinedHolidayName is defined exactly where isDefinedHoliday of the boolean engine holds. */
  lemma DefinedAgree(year: int, month: int, day: int)
    ensures IsDefinedHoliday2(year, month, day) == NationalHoliday.IsDefinedHoliday(year, month, day)
  {
    SpecialTablesCoincide();
    SpecialHolidayTable();
    MonthNamesAgree(year, month, day);
  }

  /** The engine's holiday test, the set of days it names, is the generic order over its own isDefinedHoliday. */
  lemma NamedIffHolidayOnCivil(year: int, month: int, day: int)
    ensures HolidayNameOnCivil(year, month, day).Some? ==
      HolidayOnCivil(IsDefinedHoliday2, SubstituteStart, CitizensStartYear, LawStartYear, year, month, day)
  {
    DefinedNameShape(year, month, day);
  }

  /** getHolidayName2 names a date exactly when isNationalHoliday holds for it. */
  lemma NamedIffNational(year: int, month: int, day: int)
    ensures HolidayNameOnCivil(year, month, day).Some? ==
      HolidayOnCivil(NationalHoliday.IsDefinedHoliday, SubstituteHolidayStart, CitizensHolidayStartYear, HolidayLawStartYear, year, month, day)
  {
    NamedIffHolidayOnCivil(year, month, day);
    forall y, m, d
      ensures IsDefinedHoliday2(y, m, d) == NationalHoliday.IsDefinedHoliday(y, m, d)
    {
      DefinedAgree(y, m, d);
    }
    HolidayOnCivilCongruence(IsDefinedHoliday2, NationalHoliday.IsDefinedHoliday, SubstituteStart, CitizensStartYear, LawStartYear,
                             year, month, day);
  }

  /** On every input, getHolidayName2 returns a name exactly when isNationalHoliday returns true. */
  lemma GetHolidayName2AgreesWithIsNationalHoliday(date: DateInput)
    requires ValidInput(date)
    ensures HolidayNameOf(date).Some? == NationalHoliday.NationalHolidayOn(date)
  {
    NamedIffNational(GetJstFullYear(date), GetJstMonth(date) + 1, GetJstDate(date));
  }

  /** Nothing is named before 1948. */
  lemma BeforeLawNoName(year: int, month: int, day: int)
    requires year < 1948
    ensures HolidayNameOnCivil(year, month, day) == None
  {
  }

  /** From 1948 on, a defined name is returned as it is, never replaced by 休日. */
  lemma DefinedNameWins(year: int, month: int, day: int)
    requires year >= 1948 && DefinedHolidayName(year, month, day).Some?
    ensures HolidayNameOnCivil(year, month, day) == DefinedHolidayName(year, month, day)
  {
    DefinedNameShape(year, month, day);
  }

  /**
   * 休日 is returned exactly for the days with no defined name that are a
   * substitute holiday or, from 1986, a citizens' holiday; the substitute
   * test comes first, but both give the same name.
   */
  lemma RestDayMeaning(year: int, month: int, day: int)
    ensures HolidayNameOnCivil(year, month, day) == Some(RestDayName) <==>
      year >= 1948 && !IsDefinedHoliday2(year, month, day) &&
      (SubstituteHolidayOn(IsDefinedHoliday2, SubstituteStart, year, month, day) ||
       (year >= 1986 && CitizensHolidayOn(IsDefinedHoliday2, year, month, day)))
  {
    DefinedNameShape(year, month, day);
  }

  /** 04-29: 天皇誕生日 from 1949 to 1988, みどりの日 from 1989 to 2006, 昭和の日 from 2007. */
  lemma April29Names(year: int)
    ensures year < 1949 ==> DefinedHolidayName(year, 4, 29) == None
    ensures 1949 <= year <= 1988 ==> DefinedHolidayName(year, 4, 29) == Some("天皇誕生日")
    ensures 1989 <= year <= 2006 ==> DefinedHolidayName(year, 4, 29) == Some("みどりの日")
    ensures year >= 2007 ==> DefinedHolidayName(year, 4, 29) == Some("昭和の日")
  {
    NameAwayFromSpecials(Civil(year, 4, 29));
  }

  /** The October case of the month switch. */
  lemma OctoberMonthNames(year: int, day: int)
    ensures 1966 <= year <= 1999 ==> (MonthHolidayName(year, 10, day) == Some("体育の日") <==> day == 10)
    ensures 2000 <= year <= 2018 ==>
      (MonthHolidayName(year, 10, day) == Some("体育の日") <==> day == NthWeekday.NthWeekday(year, 10, 1, 2))
    ensures year == 2019 ==>
      (MonthHolidayName(year, 10, day) == Some("体育の日（スポーツの日）") <==> day == NthWeekday.NthWeekday(year, 10, 1, 2))
    ensures year == 2020 || year == 2021 ==> MonthHolidayName(year, 10, day) == None
    ensures year >= 2022 ==>
      (MonthHolidayName(year, 10, day) == Some("スポーツの日") <==> day == NthWeekday.NthWeekday(year, 10, 1, 2))
  {
  }

  /** The one October special, 2019-10-22, is not the second Monday of its month. */
  lemma OctoberSpecial()
    ensures DefinedHolidayName(2019, 10, 22) == Some("休日（祝日扱い）")
    ensures NthWeekday.NthWeekday(2019, 10, 1, 2) != 22
  {
    SpecialNameWins(Civil(2019, 10, 22));
    NationalHoliday.TextOf20191022();
    SpecialHolidayTable();
    NthWeekdayInWeek(2019, 10, 1, 2);
  }

  /**
   * October: 10-10 is 体育の日 from 1966 to 1999; the second Monday is 体育の日
   * from 2000 to 2018, 体育の日（スポーツの日） in 2019 and スポーツの日 from 2022;
   * 2020 and 2021 have no October holiday.
   */
  lemma OctoberNames(year: int, day: int)
    requires 1 <= day <= 31
    ensures 1966 <= year <= 1999 ==> (DefinedHolidayName(year, 10, day) == Some("体育の日") <==> day == 10)
    ensures 2000 <= year <= 2018 ==>
      (DefinedHolidayName(year, 10, day) == Some("体育の日") <==> day == NthWeekday.NthWeekday(year, 10, 1, 2))
    ensures year == 2019 ==>
      (DefinedHolidayName(year, 10, day) == Some("体育の日（スポーツの日）") <==> day == NthWeekday.NthWeekday(year, 10, 1, 2))
    ensures year == 2020 || year == 2021 ==> DefinedHolidayName(year, 10, day) == None
    ensures year >= 2022 ==>
      (DefinedHolidayName(year, 10, day) == Some("スポーツの日") <==> day == NthWeekday.NthWeekday(year, 10, 1, 2))
  {
    if year == 2019 && day == 22 {
      OctoberSpecial();
    } else {
      NameAwayFromSpecials(Civil(year, 10, day));
      OctoberMonthNames(year, day);
    }
  }

  /**
   * In 2020 and 2021 the hard-coded July and August dates are the relocated
   * Marine, Sports and Mountain Days of the Olympic table, and no other day
   * of those months is named.
   */
  lemma OlympicNames(year: int, month: int, day: int)
    requires year in OlympicSpecialYears && (month == 7 || month == 8) && 1 <= day <= 31
    ensures var o := OlympicSpecialYears[year];
      ((month, day) == o.marineDay ==> DefinedHolidayName(year, month, day) == Some("海の日")) &&
      ((month, day) == o.sportsDay ==> DefinedHolidayName(year, month, day) == Some("スポーツの日")) &&
      ((month, day) == o.mountainDay ==> DefinedHolidayName(year, month, day) == Some("山の日")) &&
      (DefinedHolidayName(year, month, day).Some? ==> NationalHoliday.OlympicDay(o, month, day))
  {
    NameAwayFromSpecials(Civil(year, month, day));
  }

  /** A named day without a defined name is named 休日. */
  lemma UndefinedNameIsRestDay(year: int, month: int, day: int)
    requires HolidayNameOnCivil(year, month, day).Some? && !IsDefinedHoliday2(year, month, day)
    ensures HolidayNameOnCivil(year, month, day) == Some(RestDayName)
  {
  }

  // Examples.

  /** 2025-02-24, the substitute for the Emperor's Birthday on Sunday 2025-02-23, is named 休日. */
  lemma RestDayExample()
    ensures HolidayNameOnCivil(2025, 2, 24) == Some(RestDayName)
  {
    NationalHoliday.SubstituteHolidayExample();
    NamedIffNational(2025, 2, 24);
    DefinedAgree(2025, 2, 24);
    UndefinedNameIsRestDay(2025, 2, 24);
  }

  /** 2019-05-01 is named 休日（祝日扱い） by the special table. */
  lemma SpecialNameExample()
    ensures HolidayNameOnCivil(2019, 5, 1) == Some("休日（祝日扱い）")
  {
    SpecialNameWins(Civil(2019, 5, 1));
    NationalHoliday.TextOf20190501();
    SpecialHolidayTable();
    DefinedNameWins(2019, 5, 1);
  }
}
