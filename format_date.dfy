/**
 * The two formatDate functions and the lookup-based createIsHoliday built on
 * them. A string input is passed through as it is; an instant is written as
 * 'YYYY-MM-DD' (ISO 8601 extended calendar date) from its JST getters, or,
 * in core.ts, from the host-local getters. A lookup is the set of date keys
 * whose `has` answers true.
 */
module Formatting {
  import opened Calendar
  import opened Strings
  import opened Jst
  import opened AddDays

  /**
   * formatDate in _internal/formatDate.ts. The JST getters read the date
   * toJstDate gives, so an instant is written as that date; for an instant
   * whose JST year is not one of 0 to 99 it is the instant's own JST date.
   */
  function FormatDate(date: DateInput): (s: string)
    ensures date.DateString? ==> s == date.s
    ensures date.DateValue? ==> s == IsoDate(JstCivil(ToJstDate(date)))
    ensures date.DateValue? && !ShortYear(JstCivil(date.time).year) ==> s == IsoDate(JstCivil(date.time))
  {
    match date
    case DateString(s) => s
    case DateValue(t) =>
      var year := GetJstFullYear(date);
      var month := Pad2(GetJstMonth(date) + 1);
      var day := Pad2(GetJstDate(date));
      GettersReadJstDay(date);
      assert !ShortYear(JstCivil(t).year) ==> Civil(year, GetJstMonth(date) + 1, GetJstDate(date)) == JstCivil(t) by {
        if !ShortYear(JstCivil(t).year) {
          GettersOfInstant(t);
        }
      }
      IntToDecimal(year) + "-" + month + "-" + day
  }

  /**
   * formatDate in core.ts: the host-local year, month and day of an instant.
   * From the year 100 on, the text reads back through toJstDate as the
   * instant's own host-local day; in the years 0 to 99 it reads back as the
   * same month and day of 1900 + year.
   */
  function FormatLocalDate(date: DateInput): (s: string)
    ensures date.DateString? ==> s == date.s
    ensures date.DateValue? ==> s == IsoDate(CivilFromDays(LocalDay(date.time)))
    ensures date.DateValue? && CivilFromDays(LocalDay(date.time)).year >= 100 ==>
      ValidInput(DateString(s)) && JstDayOf(DateString(s)) == LocalDay(date.time)
    ensures date.DateValue? && ShortYear(CivilFromDays(LocalDay(date.time)).year) ==>
      var c := CivilFromDays(LocalDay(date.time));
      ValidInput(DateString(s)) && JstDayOf(DateString(s)) == MakeDay(1900 + c.year, c.month - 1, c.day)
  {
    match date
    case DateString(s) => s
    case DateValue(t) =>
      var local := CivilFromDays(LocalDay(t));
      var text := IsoDate(local);
      assert local.year >= 0 ==>
        && ValidInput(DateString(text))
        && (local.year >= 100 ==> JstDayOf(DateString(text)) == LocalDay(t))
        && (local.year < 100 ==> JstDayOf(DateString(text)) == MakeDay(1900 + local.year, local.month - 1, local.day)) by {
        if local.year >= 0 {
          IsoDateDay(local);
          DaysCivilRoundTrip(LocalDay(t));
        }
      }
      text
  }

  /**
   * With the host in JST the two formatters agree on a string and on an
   * instant exactly when its JST year is not one of 0 to 99: the getters
   * behind the JST formatter read such a year as 1900 + year, getFullYear
   * does not.
   */
  lemma LocalFormatIsJst(date: DateInput)
    ensures date.DateString? ==> FormatLocalDate(date) == FormatDate(date)
    ensures date.DateValue? ==> (FormatLocalDate(date) == FormatDate(date) <==> !ShortYear(JstCivil(date.time).year))
  {
    if date.DateValue? && ShortYear(JstCivil(date.time).year) {
      var c := JstCivil(date.time);
      var e := JstCivil(ToJstDate(date));
      InstantResultYear(date.time);
      IsoDateYear(c);
      IsoDateYear(e);
    }
  }

  /** The year field of the text of a date from year 0 on reads back as its year. */
  lemma IsoDateYear(c: Civil)
    requires ValidCivil(c) && c.year >= 0
    ensures WellFormedDate(IsoDate(c)) && ParseFields(IsoDate(c)).0 == c.year
  {
    DateStringFields(c.year, c.month, c.day);
  }

  /** Two instants on the same JST day are written alike. */
  lemma FormatSameDay(s: int, t: int)
    requires JstDay(s) == JstDay(t)
    ensures FormatDate(DateValue(s)) == FormatDate(DateValue(t))
  {
    assert JstCivil(s) == JstCivil(t);
    assert ToJstDate(DateValue(s)) == ToJstDate(DateValue(t));
  }

  /**
   * From year 0 on, the text of an instant is a well-formed date string that
   * toJstDate reads back as toJstDate of the instant.
   */
  lemma FormatRoundTrip(t: int)
    requires JstCivil(t).year >= 0
    ensures ValidInput(DateString(FormatDate(DateValue(t))))
    ensures ToJstDate(DateString(FormatDate(DateValue(t)))) == ToJstDate(DateValue(t))
  {
    var r := ToJstDate(DateValue(t));
    var e := JstCivil(r);
    InstantResultYear(t);
    IsoDateDay(e);
    DaysCivilRoundTrip(JstDay(r));
  }

  /**
   * From year 0 on, instants written alike have the same toJstDate; when
   * neither JST year is one of 0 to 99 they lie on the same JST day.
   */
  lemma FormatSeparatesDays(s: int, t: int)
    requires JstCivil(s).year >= 0 && JstCivil(t).year >= 0
    requires FormatDate(DateValue(s)) == FormatDate(DateValue(t))
    ensures ToJstDate(DateValue(s)) == ToJstDate(DateValue(t))
    ensures !ShortYear(JstCivil(s).year) && !ShortYear(JstCivil(t).year) ==> JstDay(s) == JstDay(t)
  {
    FormatRoundTrip(s);
    FormatRoundTrip(t);
    if !ShortYear(JstCivil(s).year) && !ShortYear(JstCivil(t).year) {
      FullYearInstantStays(s);
      FullYearInstantStays(t);
      JstMidnightDay(JstDay(s), s);
      JstMidnightDay(JstDay(t), t);
    }
  }

  /** 0050-01-01 JST and 1950-01-01 JST are both written '1950-01-01'. */
  lemma FormatShortYearExample()
    ensures FormatDate(DateValue(JstMidnight(DaysFromCivil(Civil(50, 1, 1))))) ==
      FormatDate(DateValue(JstMidnight(DaysFromCivil(Civil(1950, 1, 1)))))
    ensures DaysFromCivil(Civil(50, 1, 1)) != DaysFromCivil(Civil(1950, 1, 1))
  {
    assert DaysFromCivil(Civil(50, 1, 1)) == -701265;
    assert DaysFromCivil(Civil(1950, 1, 1)) == -7305;
    ShortYearInstantSameDay();
  }

  /** toJstDate maps 0050-01-01 JST to the start of 1950-01-01 JST, day -7305. */
  lemma ShortYearInstantSameDay()
    ensures ToJstDate(DateValue(JstMidnight(-701265))) == ToJstDate(DateValue(JstMidnight(-7305)))
  {
    JstMidnightDay(-701265, 0);
    JstMidnightDay(-7305, 0);
  }

  /** createIsHoliday(lookup) in _internal/createIsHoliday.ts: the lookup has the JST text of the date. */
  predicate IsHolidayIn(lookup: set<string>, date: DateInput) {
    FormatDate(date) in lookup
  }

  /** createIsHoliday(lookup) in core.ts: the lookup has the host-local text of the date. */
  predicate IsHolidayInLocal(lookup: set<string>, date: DateInput) {
    FormatLocalDate(date) in lookup
  }

  /** A string is looked up verbatim, without any normalisation. */
  lemma LookupVerbatim(lookup: set<string>, s: string)
    ensures IsHolidayIn(lookup, DateString(s)) <==> s in lookup
    ensures IsHolidayInLocal(lookup, DateString(s)) <==> s in lookup
  {
  }

  /**
   * An instant is a holiday exactly when the lookup has the text of the JST
   * day toJstDate gives; that is its own JST day, and the host-local lookup
   * agrees, when its JST year is not one of 0 to 99.
   */
  lemma LookupOfInstant(lookup: set<string>, t: int)
    ensures IsHolidayIn(lookup, DateValue(t)) <==> IsoDate(JstCivil(ToJstDate(DateValue(t)))) in lookup
    ensures !ShortYear(JstCivil(t).year) ==> (IsHolidayIn(lookup, DateValue(t)) <==> IsoDate(JstCivil(t)) in lookup)
    ensures !ShortYear(JstCivil(t).year) ==> IsHolidayInLocal(lookup, DateValue(t)) == IsHolidayIn(lookup, DateValue(t))
  {
    LocalFormatIsJst(DateValue(t));
  }

  /** Two instants on the same JST day get the same answer. */
  lemma LookupSameDay(lookup: set<string>, s: int, t: int)
    requires JstDay(s) == JstDay(t)
    ensures IsHolidayIn(lookup, DateValue(s)) == IsHolidayIn(lookup, DateValue(t))
  {
    FormatSameDay(s, t);
  }

  /** The text of 2025-01-01. */
  lemma TextOf20250101()
    ensures IsoDate(Civil(2025, 1, 1)) == "2025-01-01"
  {
    assert IntToDecimal(2025) == "2025" by { FourDigits(2025); }
    assert Pad2(1) == "01" by { TwoDigits(1); }
  }

  /** The text of 2025-01-02. */
  lemma TextOf20250102()
    ensures IsoDate(Civil(2025, 1, 2)) == "2025-01-02"
  {
    assert IntToDecimal(2025) == "2025" by { FourDigits(2025); }
    assert Pad2(1) == "01" by { TwoDigits(1); }
    assert Pad2(2) == "02" by { TwoDigits(2); }
  }

  /** 2024-12-31T15:00Z is written '2025-01-01': the JST date. */
  lemma FormatJstExample()
    ensures FormatDate(DateValue(UtcInstant(Civil(2024, 12, 31), 15, 0, 0))) == "2025-01-01"
  {
    var t := UtcInstant(Civil(2024, 12, 31), 15, 0, 0);
    assert JstDay(t) == 20089;
    assert DayPartsOf(20089) == DayParts(5, 0, 6, 0, 306);
    TextOf20250101();
  }

  /** 2025-01-01T15:00Z is already '2025-01-02': the JST day changes at 15:00Z. */
  lemma FormatBoundaryExample()
    ensures FormatDate(DateValue(UtcInstant(Civil(2025, 1, 1), 15, 0, 0))) == "2025-01-02"
  {
    var t := UtcInstant(Civil(2025, 1, 1), 15, 0, 0);
    assert JstDay(t) == 20090;
    assert DayPartsOf(20090) == DayParts(5, 0, 6, 0, 307);
    TextOf20250102();
  }

  /** A lookup that has only '2025-01-01' answers true for that date and false for '2025-01-02'. */
  lemma LookupExample()
    ensures IsHolidayIn({"2025-01-01"}, DateString("2025-01-01"))
    ensures !IsHolidayIn({"2025-01-01"}, DateString("2025-01-02"))
  {
    assert "2025-01-02"[9] != "2025-01-01"[9];
  }
}
