/**
 * The constant tables of the Act on National Holidays (Act No. 178 of 1948)
 * and its amendments, as the boolean engine reads them: one-off special
 * holidays, the years rules took effect, the 2020 and 2021 Olympic
 * relocations, the fixed dates and the "happy Monday" rules.
 */
module Rules {
  import opened Calendar

  /** One-off holidays (imperial ceremonies), keyed by 'YYYY-MM-DD'. */
  const SpecialHolidays: map<string, string> := map[
    "1959-04-10" := "結婚の儀",
    "1989-02-24" := "大喪の礼",
    "1990-11-12" := "即位礼正殿の儀",
    "1993-06-09" := "結婚の儀",
    "2019-05-01" := "休日（祝日扱い）",
    "2019-10-22" := "休日（祝日扱い）"
  ]

  /** The Act on National Holidays took effect in 1948. */
  const HolidayLawStartYear := 1948

  datatype YearMonthDay = YearMonthDay(year: int, month: int, day: int)

  /** Substitute holidays (Article 3 paragraph 2) apply from 1973-04-12. */
  const SubstituteHolidayStart := YearMonthDay(1973, 4, 12)

  /** Citizens' holidays (Article 3 paragraph 3) apply from 1986. */
  const CitizensHolidayStartYear := 1986

  /** The first (or, for the Heisei birthday, also the last) year of each rule. */
  datatype StartYears = StartYears(
    newYearsDay: int,
    comingOfAgeDay: int,
    comingOfAgeDayHappyMonday: int,
    nationalFoundationDay: int,
    emperorsBirthdayReiwa: int,
    vernalEquinoxDay: int,
    showaDay: int,
    greenDayApril: int,
    emperorsBirthdayShowa: int,
    constitutionDay: int,
    greenDayMay: int,
    childrensDay: int,
    marineDay: int,
    marineDayHappyMonday: int,
    mountainDay: int,
    respectForTheAgedDay: int,
    respectForTheAgedDayHappyMonday: int,
    autumnalEquinoxDay: int,
    sportsDay: int,
    sportsDayHappyMonday: int,
    sportsDayRename: int,
    cultureDay: int,
    laborThanksgivingDay: int,
    emperorsBirthdayHeiseiStart: int,
    emperorsBirthdayHeiseiEnd: int)

  const HolidayStartYears := StartYears(
    newYearsDay := 1949,
    comingOfAgeDay := 1949,
    comingOfAgeDayHappyMonday := 2000,
    nationalFoundationDay := 1967,
    emperorsBirthdayReiwa := 2020,
    vernalEquinoxDay := 1949,
    showaDay := 2007,
    greenDayApril := 1989,
    emperorsBirthdayShowa := 1949,
    constitutionDay := 1949,
    greenDayMay := 2007,
    childrensDay := 1949,
    marineDay := 1996,
    marineDayHappyMonday := 2003,
    mountainDay := 2016,
    respectForTheAgedDay := 1966,
    respectForTheAgedDayHappyMonday := 2003,
    autumnalEquinoxDay := 1948,
    sportsDay := 1966,
    sportsDayHappyMonday := 2000,
    sportsDayRename := 2020,
    cultureDay := 1948,
    laborThanksgivingDay := 1948,
    emperorsBirthdayHeiseiStart := 1989,
    emperorsBirthdayHeiseiEnd := 2018)

  /** The (month, day) of each holiday moved for the Tokyo Olympics. */
  datatype OlympicDates = OlympicDates(marineDay: (int, int), sportsDay: (int, int), mountainDay: (int, int))

  const OlympicSpecialYears: map<int, OlympicDates> := map[
    2020 := OlympicDates((7, 23), (7, 24), (8, 10)),
    2021 := OlympicDates((7, 22), (7, 23), (8, 8))
  ]

  datatype MonthDay = MonthDay(month: int, day: int)

  datatype FixedDates = FixedDates(
    newYearsDay: MonthDay,
    comingOfAgeDayFixed: MonthDay,
    nationalFoundationDay: MonthDay,
    emperorsBirthdayReiwa: MonthDay,
    showaDay: MonthDay,
    constitutionDay: MonthDay,
    greenDay: MonthDay,
    childrensDay: MonthDay,
    marineDayFixed: MonthDay,
    mountainDay: MonthDay,
    respectForTheAgedDayFixed: MonthDay,
    sportsDayFixed: MonthDay,
    cultureDay: MonthDay,
    laborThanksgivingDay: MonthDay,
    emperorsBirthdayHeisei: MonthDay)

  const FixedHolidayDates := FixedDates(
    newYearsDay := MonthDay(1, 1),
    comingOfAgeDayFixed := MonthDay(1, 15),
    nationalFoundationDay := MonthDay(2, 11),
    emperorsBirthdayReiwa := MonthDay(2, 23),
    showaDay := MonthDay(4, 29),
    constitutionDay := MonthDay(5, 3),
    greenDay := MonthDay(5, 4),
    childrensDay := MonthDay(5, 5),
    marineDayFixed := MonthDay(7, 20),
    mountainDay := MonthDay(8, 11),
    respectForTheAgedDayFixed := MonthDay(9, 15),
    sportsDayFixed := MonthDay(10, 10),
    cultureDay := MonthDay(11, 3),
    laborThanksgivingDay := MonthDay(11, 23),
    emperorsBirthdayHeisei := MonthDay(12, 23))

  /** The n-th given weekday (0 is Sunday) of a month. */
  datatype NthWeekdayRule = NthWeekdayRule(month: int, weekday: int, n: int)

  datatype HappyMondays = HappyMondays(
    comingOfAgeDay: NthWeekdayRule,
    marineDay: NthWeekdayRule,
    respectForTheAgedDay: NthWeekdayRule,
    sportsDay: NthWeekdayRule)

  const HappyMondayRules := HappyMondays(
    comingOfAgeDay := NthWeekdayRule(1, 1, 2),
    marineDay := NthWeekdayRule(7, 1, 3),
    respectForTheAgedDay := NthWeekdayRule(9, 1, 3),
    sportsDay := NthWeekdayRule(10, 1, 2))

  /** The four happy-Monday rules, in the order they are declared. */
  function HappyMondayList(): (rules: seq<NthWeekdayRule>)
    ensures |rules| == 4
  {
    [HappyMondayRules.comingOfAgeDay, HappyMondayRules.marineDay,
     HappyMondayRules.respectForTheAgedDay, HappyMondayRules.sportsDay]
  }

  /** The fifteen fixed dates, in the order they are declared. */
  function FixedDateList(): (dates: seq<MonthDay>)
    ensures |dates| == 15
  {
    var f := FixedHolidayDates;
    [f.newYearsDay, f.comingOfAgeDayFixed, f.nationalFoundationDay, f.emperorsBirthdayReiwa,
     f.showaDay, f.constitutionDay, f.greenDay, f.childrensDay, f.marineDayFixed,
     f.mountainDay, f.respectForTheAgedDayFixed, f.sportsDayFixed, f.cultureDay,
     f.laborThanksgivingDay, f.emperorsBirthdayHeisei]
  }

  /** The law starts in 1948, substitute holidays on 1973-04-12 and citizens' holidays in 1986. */
  lemma KeyStartDates()
    ensures HolidayLawStartYear == 1948
    ensures SubstituteHolidayStart == YearMonthDay(1973, 4, 12)
    ensures CitizensHolidayStartYear == 1986
    ensures HolidayLawStartYear < SubstituteHolidayStart.year < CitizensHolidayStartYear
  {
  }

  /** There are exactly six special dates, and both 2019 entries are named 休日（祝日扱い）. */
  lemma SpecialHolidayTable()
    ensures |SpecialHolidays| == 6
    ensures SpecialHolidays.Keys == {"1959-04-10", "1989-02-24", "1990-11-12", "1993-06-09", "2019-05-01", "2019-10-22"}
    ensures SpecialHolidays["2019-05-01"] == "休日（祝日扱い）" && SpecialHolidays["2019-10-22"] == "休日（祝日扱い）"
    ensures forall k :: k in SpecialHolidays ==> SpecialHolidays[k] != ""
  {
    var keys := SpecialHolidays.Keys;
    assert keys == {"1959-04-10", "1989-02-24", "1990-11-12", "1993-06-09", "2019-05-01", "2019-10-22"};
  }

  /** Every special key is one of the six 'YYYY-MM-DD' texts. */
  lemma SpecialKeyTexts(k: string)
    requires k in SpecialHolidays
    ensures k == "1959-04-10" || k == "1989-02-24" || k == "1990-11-12" || k == "1993-06-09" || k == "2019-05-01" || k == "2019-10-22"
  {
  }

  /** The Olympic map has exactly the years 2020 and 2021, each moving three holidays into July and August. */
  lemma OlympicTable()
    ensures OlympicSpecialYears.Keys == {2020, 2021}
    ensures forall y :: y in OlympicSpecialYears ==>
      var o := OlympicSpecialYears[y];
      o.marineDay.0 == 7 && o.sportsDay.0 == 7 && o.mountainDay.0 == 8
      && o.marineDay != o.sportsDay && o.marineDay != o.mountainDay && o.sportsDay != o.mountainDay
  {
  }

  /** Every happy-Monday rule picks the second or third Monday. */
  lemma HappyMondayShape()
    ensures forall r :: r in HappyMondayList() ==> r.weekday == 1 && (r.n == 2 || r.n == 3)
  {
  }

  /** Each happy-Monday rule starts later than the fixed-date rule it replaces. */
  lemma HappyMondayAfterFixed()
    ensures HolidayStartYears.comingOfAgeDay < HolidayStartYears.comingOfAgeDayHappyMonday
    ensures HolidayStartYears.marineDay < HolidayStartYears.marineDayHappyMonday
    ensures HolidayStartYears.respectForTheAgedDay < HolidayStartYears.respectForTheAgedDayHappyMonday
    ensures HolidayStartYears.sportsDay < HolidayStartYears.sportsDayHappyMonday
  {
  }

  /** The Heisei emperor's birthday window 1989..2018 is non-empty and ends before the Reiwa birthday starts. */
  lemma HeiseiWindow()
    ensures HolidayStartYears.emperorsBirthdayHeiseiStart <= HolidayStartYears.emperorsBirthdayHeiseiEnd
    ensures HolidayStartYears.emperorsBirthdayHeiseiEnd < HolidayStartYears.emperorsBirthdayReiwa
    ensures HolidayStartYears.emperorsBirthdayShowa < HolidayStartYears.emperorsBirthdayHeiseiStart
  {
  }

  /** Every fixed date is a valid day of its month in every year. */
  lemma FixedDatesValid(year: int)
    ensures forall md :: md in FixedDateList() ==> ValidCivil(Civil(year, md.month, md.day))
  {
  }
}
