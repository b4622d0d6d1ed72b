/**
 * Japan Standard Time on top of JavaScript's epoch milliseconds.
 *
 * An instant is an integer number of milliseconds since 1970-01-01T00:00Z.
 * JST is UTC+9 with no daylight saving, so a JST calendar day is a day number
 * of the calendar, starting at 15:00Z of the previous UTC day. A date input is
 * either a 'YYYY-MM-DD' string or an instant.
 */
module Jst {
  import opened Calendar
  import opened Strings

  const MsPerDay := 86400000
  const JstOffsetMs := 9 * 60 * 60 * 1000

  datatype DateInput = DateString(s: string) | DateValue(time: int)

  /** ECMAScript Day(t): the UTC day number of an instant (floor division). */
  function UtcDay(t: int): int {
    t / MsPerDay
  }

  /** The JST day number of an instant. */
  function JstDay(t: int): int {
    UtcDay(t + JstOffsetMs)
  }

  /** The instant at which JST day k begins (15:00Z of UTC day k - 1). */
  function JstMidnight(k: int): int {
    k * MsPerDay - JstOffsetMs
  }

  /** An instant given as a UTC civil date and time of day, to state examples in ISO 8601 terms. */
  function UtcInstant(c: Civil, hour: int, minute: int, second: int): int
    requires 1 <= c.month <= 12
  {
    DaysFromCivil(c) * MsPerDay + ((hour * 60 + minute) * 60 + second) * 1000
  }

  /** JST days begin at JST midnights; an instant lies in the day that begins at or before it. */
  lemma JstMidnightDay(k: int, t: int)
    ensures JstDay(JstMidnight(k)) == k
    ensures JstDay(t) == k <==> JstMidnight(k) <= t < JstMidnight(k + 1)
  {
  }

  /** Later instants never lie in earlier JST days. */
  lemma JstDayMonotone(s: int, t: int)
    requires s <= t
    ensures JstDay(s) <= JstDay(t)
  {
  }

  /** A whole year from 0 to 99, which Date.UTC reads as a year of the 1900s. */
  predicate ShortYear(year: int) {
    0 <= year <= 99
  }

  /** MakeFullYear of ECMA-262 (section 21.4.3.4, Date.UTC): years 0 to 99 mean 1900 to 1999. */
  function FullYear(year: int): (y: int)
    ensures ShortYear(year) ==> y == 1900 + year
    ensures !ShortYear(year) ==> y == year
    ensures !ShortYear(y)
  {
    if ShortYear(year) then 1900 + year else year
  }

  /** Date.UTC(year, month0, day): midnight UTC of the normalised date, the year read by FullYear. */
  function DateUtc(year: int, month0: int, day: int): int {
    MakeDay(FullYear(year), month0, day) * MsPerDay
  }

  /** createJstDate: the instant at which the JST day (year, month0 + 1, day) begins, normalised as Date.UTC does. */
  function CreateJstDate(year: int, month0: int, day: int): int {
    DateUtc(year, month0, day) - JstOffsetMs
  }

  /**
   * createJstDate gives the start of the JST day whose day number is
   * MakeDay(year, month0, day), with a year from 0 to 99 read as 1900 + year.
   */
  lemma CreateJstDateDay(year: int, month0: int, day: int)
    ensures var k := MakeDay(FullYear(year), month0, day);
      var t := CreateJstDate(year, month0, day);
      t == JstMidnight(k) && JstDay(t) == k
    ensures !ShortYear(year) ==> JstDay(CreateJstDate(year, month0, day)) == MakeDay(year, month0, day)
  {
  }

  /** Date.UTC(50, 0, 1) is 1950-01-01, not the year 50. */
  lemma CreateJstDateShortYearExample()
    ensures JstCivil(CreateJstDate(50, 0, 1)) == Civil(1950, 1, 1)
  {
    CreateJstDateOfCivil(Civil(50, 1, 1));
  }

  /** The JST civil date an instant falls on. */
  function JstCivil(t: int): (c: Civil)
    ensures ValidCivil(c)
  {
    CivilFromDays(JstDay(t))
  }

  /** The three '-'-separated leading fields of a date string are ASCII digit strings. */
  predicate WellFormedDate(s: string) {
    var parts := Split(s, '-');
    |parts| >= 3 && IsDigits(parts[0]) && IsDigits(parts[1]) && IsDigits(parts[2])
  }

  predicate ValidInput(date: DateInput) {
    date.DateValue? || WellFormedDate(date.s)
  }

  /** `Number` applied to the year, month and day fields of a well-formed date string. */
  function ParseFields(s: string): (ymd: (nat, nat, nat))
    requires WellFormedDate(s)
  {
    var parts := Split(s, '-');
    (DigitsValue(parts[0]), DigitsValue(parts[1]), DigitsValue(parts[2]))
  }

  /** A year, month and day written as digits joined by '-' parse back to themselves. */
  lemma DateStringFields(y: nat, m: int, d: int)
    requires 0 <= m < 100 && 0 <= d < 100
    ensures var s := NatToDecimal(y) + "-" + Pad2(m) + "-" + Pad2(d);
      WellFormedDate(s) && ParseFields(s) == (y, m, d)
  {
    Pad2Value(m);
    Pad2Value(d);
    NatToDecimalValue(y);
    var a, b, c := NatToDecimal(y), Pad2(m), Pad2(d);
    DigitsHaveNoSep(a, '-');
    DigitsHaveNoSep(b, '-');
    DigitsHaveNoSep(c, '-');
    SplitThree(a, b, c, '-');
    assert a + "-" + b + "-" + c == a + ['-'] + b + ['-'] + c;
  }

  /**
   * toJstDate in jst.ts: the start of a JST day. A string names that day by
   * its fields; an instant, by the JST day createJstDate rereads from its
   * JST year, month and day (RereadDay). ToJstDateAsWritten below is the
   * source's own computation, proved equal on every input.
   */
  function ToJstDate(date: DateInput): (t: int)
    requires ValidInput(date)
    ensures t == JstMidnight(JstDay(t))
    ensures date.DateString? ==>
      var (y, m, d) := ParseFields(date.s); JstDay(t) == MakeDay(FullYear(y), m - 1, d)
    ensures date.DateValue? && Year100Day <= JstDay(date.time) ==> JstDay(t) == JstDay(date.time)
  {
    match date
    case DateString(s) => StartOfStringDay(s)
    case DateValue(time) => JstMidnight(RereadDay(JstDay(time)))
  }

  /**
   * The JST day that createJstDate gives back for the civil date of day k:
   * k itself, except that the years 0 to 99 are read as 1900 to 1999, which
   * moves those days by 693960, or by 693961 before 0000-03-01 as 1900 has
   * no February 29.
   */
  function RereadDay(k: int): int {
    if k < Year0Day || Year100Day <= k then k
    else if k < -EpochDays then k + 693961
    else k + 693960
  }

  /** RereadDay is MakeDay of the civil date of day k, its year read by FullYear. */
  lemma RereadDayAsWritten(k: int)
    ensures var c := CivilFromDays(k); RereadDay(k) == MakeDay(FullYear(c.year), c.month - 1, c.day)
  {
    var c := CivilFromDays(k);
    EarlyYearsDays(k);
    if ShortYear(c.year) {
      DaysCivilRoundTrip(k);
      Shift1900(c);
      MakeDayInYear(c.year + 1900, c.month, c.day);
    } else {
      MakeDayOfCivil(k);
    }
  }

  /**
   * toJstDate in jst.ts as written: a string's fields go to createJstDate;
   * an instant is shifted by nine hours, its UTC year, month and day are
   * read, and createJstDate builds the result.
   */
  function ToJstDateAsWritten(date: DateInput): int
    requires ValidInput(date)
  {
    match date
    case DateString(s) =>
      var (y, m, d) := ParseFields(s);
      CreateJstDate(y, m - 1, d)
    case DateValue(time) =>
      var c := CivilFromDays(UtcDay(time + JstOffsetMs));
      CreateJstDate(c.year, c.month - 1, c.day)
  }

  /** toJstDate in jst.ts, as written, computes ToJstDate on every input. */
  lemma ToJstDateAsWrittenAgrees(date: DateInput)
    requires ValidInput(date)
    ensures ToJstDateAsWritten(date) == ToJstDate(date)
  {
    if date.DateValue? {
      var c := CivilFromDays(JstDay(date.time));
      RereadDayAsWritten(JstDay(date.time));
      CreateJstDateDay(c.year, c.month - 1, c.day);
    }
  }

  /** The string branch of toJstDate: createJstDate of the string's fields, the month made 0-based. */
  function StartOfStringDay(s: string): (t: int)
    requires WellFormedDate(s)
    ensures t == JstMidnight(JstDay(t))
    ensures var (y, m, d) := ParseFields(s); JstDay(t) == MakeDay(FullYear(y), m - 1, d)
  {
    var (y, m, d) := ParseFields(s);
    CreateJstDateDay(y, m - 1, d);
    CreateJstDate(y, m - 1, d)
  }

  /** The 'YYYY-MM-DD' text of a civil date, as `${year}-${pad2(month)}-${pad2(day)}` writes it. */
  function IsoDate(c: Civil): string {
    IntToDecimal(c.year) + "-" + Pad2(c.month) + "-" + Pad2(c.day)
  }

  /** The text of a date with a four-digit year, character by character. */
  lemma IsoDateChars(c: Civil)
    requires 1000 <= c.year < 10000 && 0 <= c.month < 100 && 0 <= c.day < 100
    ensures IsoDate(c) ==
      [DigitChar(c.year / 1000), DigitChar(c.year / 100 % 10), DigitChar(c.year / 10 % 10), DigitChar(c.year % 10), '-',
       DigitChar(c.month / 10), DigitChar(c.month % 10), '-', DigitChar(c.day / 10), DigitChar(c.day % 10)]
  {
    FourDigits(c.year);
    TwoDigits(c.month);
    TwoDigits(c.day);
  }

  /**
   * The text of a valid date from year 0 on is a well-formed input. From
   * year 100 on it names that date's JST day; a year from 0 to 99 is read
   * as the same month and day of 1900 + year.
   */
  lemma IsoDateDay(c: Civil)
    requires ValidCivil(c) && c.year >= 0
    ensures ValidInput(DateString(IsoDate(c)))
    ensures c.year >= 100 ==> ToJstDate(DateString(IsoDate(c))) == JstMidnight(DaysFromCivil(c))
    ensures c.year >= 100 ==> JstDayOf(DateString(IsoDate(c))) == DaysFromCivil(c)
    ensures c.year < 100 ==> JstDayOf(DateString(IsoDate(c))) == MakeDay(1900 + c.year, c.month - 1, c.day)
  {
    DateStringFields(c.year, c.month, c.day);
    var date := DateString(IsoDate(c));
    assert ParseFields(date.s) == (c.year, c.month, c.day);
    var k := JstDayOf(date);
    assert k == MakeDay(FullYear(c.year), c.month - 1, c.day);
    if c.year >= 100 {
      MakeDayValid(c);
    }
  }

  /** toJstDate in toJstDate.ts, which inlines createJstDate. */
  function ToJstDateInline(date: DateInput): int
    requires ValidInput(date)
  {
    match date
    case DateString(s) =>
      var (y, m, d) := ParseFields(s);
      DateUtc(y, m - 1, d) - JstOffsetMs
    case DateValue(time) =>
      var c := CivilFromDays(UtcDay(time + JstOffsetMs));
      DateUtc(c.year, c.month - 1, c.day) - JstOffsetMs
  }

  /** toJstDate in toJstDate.ts computes the same instant as the one in jst.ts, on every input. */
  lemma ToJstDateInlineAgrees(date: DateInput)
    requires ValidInput(date)
    ensures ToJstDateInline(date) == ToJstDateAsWritten(date)
  {
  }

  /** The JST day of a date input. */
  function JstDayOf(date: DateInput): int
    requires ValidInput(date)
  {
    JstDay(ToJstDate(date))
  }

  /** toJstUtcMidnight: the UTC midnight whose UTC date is the input's JST date. */
  function ToJstUtcMidnight(date: DateInput): (t: int)
    requires ValidInput(date)
    ensures UtcDay(t) == JstDayOf(date)
  {
    ToJstDate(date) + JstOffsetMs
  }

  function GetJstFullYear(date: DateInput): int
    requires ValidInput(date)
  {
    CivilFromDays(UtcDay(ToJstUtcMidnight(date))).year
  }

  /** The JST month, 0-based as in JavaScript. */
  function GetJstMonth(date: DateInput): (m: int)
    requires ValidInput(date)
    ensures 0 <= m < 12
  {
    CivilFromDays(UtcDay(ToJstUtcMidnight(date))).month - 1
  }

  function GetJstDate(date: DateInput): (d: int)
    requires ValidInput(date)
    ensures 1 <= d <= DaysInMonth(GetJstFullYear(date), GetJstMonth(date) + 1)
  {
    CivilFromDays(UtcDay(ToJstUtcMidnight(date))).day
  }

  /** The JST weekday: 0 is Sunday, 6 is Saturday. */
  function GetJstDay(date: DateInput): (w: int)
    requires ValidInput(date)
    ensures 0 <= w < 7
  {
    (UtcDay(ToJstUtcMidnight(date)) + 4) % 7
  }

  /** The getters read the JST civil date and weekday of the input's JST day. */
  lemma GettersReadJstDay(date: DateInput)
    requires ValidInput(date)
    ensures Civil(GetJstFullYear(date), GetJstMonth(date) + 1, GetJstDate(date)) == CivilFromDays(JstDayOf(date))
    ensures GetJstDay(date) == Weekday(JstDayOf(date))
  {
  }

  /**
   * For an instant whose JST year is not one of 0 to 99, the getters read
   * the JST calendar date the instant falls on.
   */
  lemma GettersOfInstant(t: int)
    requires !ShortYear(JstCivil(t).year)
    ensures Civil(GetJstFullYear(DateValue(t)), GetJstMonth(DateValue(t)) + 1, GetJstDate(DateValue(t))) == JstCivil(t)
  {
    FullYearInstantStays(t);
    JstMidnightDay(JstDay(t), t);
    GettersReadJstDay(DateValue(t));
  }

  /** The getters read the start of JST day k as the civil date and weekday of k. */
  lemma GettersOfJstMidnight(k: int)
    requires !ShortYear(CivilFromDays(k).year)
    ensures var t := JstMidnight(k);
      Civil(GetJstFullYear(DateValue(t)), GetJstMonth(DateValue(t)) + 1, GetJstDate(DateValue(t))) == CivilFromDays(k)
    ensures GetJstDay(DateValue(JstMidnight(k))) == Weekday(k)
  {
    EarlyYearsDays(k);
    JstMidnightDay(k, 0);
    GettersReadJstDay(DateValue(JstMidnight(k)));
  }

  /**
   * For an instant whose JST year is not one of 0 to 99, getJstDay reads the
   * weekday of the JST day the instant falls in.
   */
  lemma WeekdayOfInstant(t: int)
    requires !ShortYear(JstCivil(t).year)
    ensures GetJstDay(DateValue(t)) == Weekday(JstDay(t))
  {
    FullYearInstantStays(t);
  }

  /**
   * For an instant in a JST year from 0 to 99, the getters read the same
   * month and day of 1900 + year (when that date exists).
   */
  lemma GettersOfShortYearInstant(t: int)
    requires ShortYear(JstCivil(t).year) && ValidCivil(In1900s(JstCivil(t)))
    ensures Civil(GetJstFullYear(DateValue(t)), GetJstMonth(DateValue(t)) + 1, GetJstDate(DateValue(t))) == In1900s(JstCivil(t))
  {
    var moved := In1900s(JstCivil(t));
    RereadShortYearDay(JstDay(t));
    JstMidnightDay(RereadDay(JstDay(t)), 0);
    GettersOfValidDay(DateValue(t), moved);
  }


  /**
   * A date string names its own JST date when its fields form a valid date,
   * the year read as Date.UTC reads it.
   */
  lemma GettersOfValidString(s: string)
    requires WellFormedDate(s)
    requires var (y, m, d) := ParseFields(s); ValidCivil(Civil(FullYear(y), m, d))
    ensures var (y, m, d) := ParseFields(s);
      GetJstFullYear(DateString(s)) == FullYear(y) && GetJstMonth(DateString(s)) == m - 1 && GetJstDate(DateString(s)) == d
  {
    var (y, m, d) := ParseFields(s);
    GettersOfValidDay(DateString(s), Civil(FullYear(y), m, d));
  }

  /** The getters read back a valid date from an input whose JST day is that date's day number. */
  lemma GettersOfValidDay(date: DateInput, c: Civil)
    requires ValidInput(date) && ValidCivil(c)
    requires JstDayOf(date) == MakeDay(c.year, c.month - 1, c.day)
    ensures GetJstFullYear(date) == c.year && GetJstMonth(date) == c.month - 1 && GetJstDate(date) == c.day
  {
    CivilOfMakeDay(c);
    GettersReadJstDay(date);
  }

  /**
   * toJstDate applied to its own result returns that result exactly when the
   * result's JST year is not one of 0 to 99; a result of an instant never
   * lies in those years, so on instants toJstDate is idempotent.
   */
  lemma ToJstDateIdempotent(date: DateInput)
    requires ValidInput(date)
    ensures ToJstDate(DateValue(ToJstDate(date))) == ToJstDate(date) <==> !ShortYear(JstCivil(ToJstDate(date)).year)
    ensures date.DateValue? ==> ToJstDate(DateValue(ToJstDate(date))) == ToJstDate(date)
  {
    ToJstDateOfInstant(ToJstDate(date));
    if date.DateValue? {
      InstantResultYear(date.time);
    }
  }

  /**
   * '100-01-00' is 0099-12-31, and toJstDate of that instant is
   * 1999-12-31: toJstDate is not idempotent below the year 100.
   */
  lemma ToJstDateNotIdempotentExample()
    ensures WellFormedDate("100-01-00")
    ensures JstCivil(ToJstDate(DateString("100-01-00"))) == Civil(99, 12, 31)
    ensures JstCivil(ToJstDate(DateValue(ToJstDate(DateString("100-01-00"))))) == Civil(1999, 12, 31)
  {
    DateStringFields(100, 1, 0);
    assert NatToDecimal(100) + "-" + Pad2(1) + "-" + Pad2(0) == "100-01-00";
    var t := ToJstDate(DateString("100-01-00"));
    assert JstDay(t) == MakeDay(100, 0, 0) == Year100Day - 1 by {
      Year100DayIsNewYear();
    }
    JstMidnightDay(10956, 0);
    CenturyTurns();
  }

  /**
   * An instant maps to the start of the JST day containing it exactly when
   * its JST year is not one of 0 to 99.
   */
  lemma ToJstDateOfInstant(t: int)
    ensures ToJstDate(DateValue(t)) == JstMidnight(JstDay(t)) <==> !ShortYear(JstCivil(t).year)
    ensures !ShortYear(JstCivil(t).year) ==> ToJstDate(DateValue(t)) <= t < ToJstDate(DateValue(t)) + MsPerDay
  {
    EarlyYearsDays(JstDay(t));
    JstMidnightDay(JstDay(t), t);
  }

  /** An instant in a JST year from 0 to 99 maps to the same month and day of 1900 + year, normalised as Date.UTC does. */
  lemma ToJstDateOfShortYearInstant(t: int)
    requires ShortYear(JstCivil(t).year)
    ensures var c := JstCivil(t); JstDay(ToJstDate(DateValue(t))) == MakeDay(1900 + c.year, c.month - 1, c.day)
  {
    RereadShortYearDay(JstDay(t));
    JstMidnightDay(RereadDay(JstDay(t)), 0);
  }

  /** A day of a year from 0 to 99 is reread as the same month and day of 1900 + year. */
  lemma RereadShortYearDay(k: int)
    requires ShortYear(CivilFromDays(k).year)
    ensures var c := In1900s(CivilFromDays(k)); RereadDay(k) == MakeDay(c.year, c.month - 1, c.day)
  {
    RereadDayAsWritten(k);
  }

  /** The same month and day of 1900 + year. */
  function In1900s(c: Civil): Civil {
    Civil(1900 + c.year, c.month, c.day)
  }

  /** An instant in a JST year from 0 to 99 maps to a later JST day. */
  lemma ShortYearInstantMoves(t: int)
    requires ShortYear(JstCivil(t).year)
    ensures JstDay(t) < JstDay(ToJstDate(DateValue(t)))
  {
    EarlyYearsDays(JstDay(t));
    JstMidnightDay(RereadDay(JstDay(t)), 0);
  }

  /** An instant whose JST year is not one of 0 to 99 maps to the start of its own JST day. */
  lemma FullYearInstantStays(t: int)
    requires !ShortYear(JstCivil(t).year)
    ensures ToJstDate(DateValue(t)) == JstMidnight(JstDay(t))
  {
    EarlyYearsDays(JstDay(t));
  }

  /** Read with its year as 1900 + year, a date of the years 0 to 99 lands on a later day. */
  lemma ShortYearDateMoves(c: Civil)
    requires ValidCivil(c) && ShortYear(c.year)
    ensures DaysFromCivil(c) < MakeDay(FullYear(c.year), c.month - 1, c.day)
  {
    EarlyYearDay(c);
    YearStartMonotone(100, 1900 + c.year);
    MonthStartAfterYearStart(1900 + c.year, c.month);
  }

  /**
   * toJstDate never maps an instant into a JST year from 0 to 99, and from
   * year 0 on its result lies in a year from 100 on.
   */
  lemma InstantResultYear(t: int)
    ensures !ShortYear(JstCivil(ToJstDate(DateValue(t))).year)
    ensures JstCivil(t).year >= 0 ==> JstCivil(ToJstDate(DateValue(t))).year >= 100
  {
    JstMidnightDay(RereadDay(JstDay(t)), 0);
    RereadDayYear(JstDay(t));
  }

  /** RereadDay never lands in a year from 0 to 99, and from year 0 on it lands in a year from 100 on. */
  lemma RereadDayYear(k: int)
    ensures !ShortYear(CivilFromDays(RereadDay(k)).year)
    ensures CivilFromDays(k).year >= 0 ==> CivilFromDays(RereadDay(k)).year >= 100
  {
    EarlyYearsDays(k);
    EarlyYearsDays(RereadDay(k));
  }

  /** A day of a month from the year 100 on, normalised as MakeDay does, lies on or after 0100-01-01. */
  lemma LateMakeDay(year: int, month: int, day: int)
    requires 100 <= year && 1 <= month <= 12 && 1 <= day
    ensures Year100Day <= MakeDay(year, month - 1, day)
  {
    var first := DaysFromCivil(Civil(year, month, 1));
    assert (month - 1) / 12 == 0 && (month - 1) % 12 == month - 1;
    assert MakeDay(year, month - 1, day) == first + day - 1;
    MonthStartAfterYearStart(year, month);
    YearStartMonotone(100, year);
    Year100DayIsNewYear();
  }

  /**
   * createJstDate of a date is the start of that date's JST day, the year
   * read as Date.UTC reads it, whenever the date so read is valid.
   */
  lemma CreateJstDateOfCivil(c: Civil)
    requires ValidCivil(Civil(FullYear(c.year), c.month, c.day))
    ensures JstCivil(CreateJstDate(c.year, c.month - 1, c.day)) == Civil(FullYear(c.year), c.month, c.day)
  {
    var e := Civil(FullYear(c.year), c.month, c.day);
    var t := CreateJstDate(c.year, c.month - 1, c.day);
    CreateJstDateDay(c.year, c.month - 1, c.day);
    assert JstDay(t) == MakeDay(e.year, e.month - 1, e.day);
    CivilOfMakeDay(e);
  }

  /** Day 0 of a month is the last day of the previous month, the year read as Date.UTC reads it. */
  lemma CreateJstDateDayZero(year: int, month0: int)
    requires 0 <= month0 < 12
    ensures var y := FullYear(year);
      var prevYear := if month0 == 0 then y - 1 else y;
      var prevMonth := if month0 == 0 then 12 else month0;
      JstCivil(CreateJstDate(year, month0, 0)) == Civil(prevYear, prevMonth, DaysInMonth(prevYear, prevMonth))
  {
    var y := FullYear(year);
    var prevYear := if month0 == 0 then y - 1 else y;
    var prevMonth := if month0 == 0 then 12 else month0;
    var last := Civil(prevYear, prevMonth, DaysInMonth(prevYear, prevMonth));
    NextCivilDays(last);
    assert NextCivil(last) == Civil(y, month0 + 1, 1);
    assert MakeDay(y, month0, 0) == DaysFromCivil(Civil(y, month0 + 1, 1)) - 1;
    var t := CreateJstDate(year, month0, 0);
    CreateJstDateDay(year, month0, 0);
    assert JstDay(t) == DaysFromCivil(last);
    CivilDaysRoundTrip(last);
  }

  /** Date.UTC(50, 2, 0) is 1950-02-28. */
  lemma CreateJstDateDayZeroShortYearExample()
    ensures JstCivil(CreateJstDate(50, 2, 0)) == Civil(1950, 2, 28)
  {
    CreateJstDateDayZero(50, 2);
  }

  // Examples from the documentation and tests of jst.ts and toJstDate.ts.

  /** JST 2025-01-01 begins at 2024-12-31T15:00Z; 2025-12-15 at 2025-12-14T15:00Z. */
  lemma CreateJstDateExamples()
    ensures CreateJstDate(2025, 0, 1) == UtcInstant(Civil(2024, 12, 31), 15, 0, 0)
    ensures CreateJstDate(2025, 11, 15) == UtcInstant(Civil(2025, 12, 14), 15, 0, 0)
  {
  }

  /** Day 0 normalises to the last day of the previous month, leap day included. */
  lemma CreateJstDateZeroExamples()
    ensures CreateJstDate(2025, 1, 0) == UtcInstant(Civil(2025, 1, 30), 15, 0, 0)
    ensures CreateJstDate(2024, 2, 0) == UtcInstant(Civil(2024, 2, 28), 15, 0, 0)
  {
    DaysBeforeMarchYearSplit(5, 0, 6, 0);
    DaysBeforeMarchYearSplit(5, 0, 5, 3);
    assert MakeDay(2025, 1, 0) == 20119 == DaysFromCivil(Civil(2025, 1, 30)) + 1;
    assert MakeDay(2024, 2, 0) == 19782 == DaysFromCivil(Civil(2024, 2, 28)) + 1;
  }

  /** '2025-12-31' begins at 2025-12-30T15:00Z. */
  lemma ToJstDateStringExample()
    ensures WellFormedDate("2025-12-31")
    ensures ToJstDate(DateString("2025-12-31")) == UtcInstant(Civil(2025, 12, 30), 15, 0, 0)
  {
    DateStringFields(2025, 12, 31);
    assert NatToDecimal(2025) + "-" + Pad2(12) + "-" + Pad2(31) == "2025-12-31";
    CreateJstDateLastDayExample();
  }

  lemma CreateJstDateLastDayExample()
    ensures CreateJstDate(2025, 11, 31) == UtcInstant(Civil(2025, 12, 30), 15, 0, 0)
  {
  }

  /** The JST day changes at 15:00:00Z: 14:59:59Z is still the earlier day. */
  lemma ToJstDateBoundaryExample()
    ensures ToJstDate(DateValue(UtcInstant(Civil(2025, 1, 1), 14, 59, 59))) == UtcInstant(Civil(2024, 12, 31), 15, 0, 0)
    ensures ToJstDate(DateValue(UtcInstant(Civil(2025, 1, 1), 15, 0, 0))) == UtcInstant(Civil(2025, 1, 1), 15, 0, 0)
  {
    assert DaysFromCivil(Civil(2025, 1, 1)) == 20089 && DaysFromCivil(Civil(2024, 12, 31)) == 20088;
    assert JstDay(UtcInstant(Civil(2025, 1, 1), 14, 59, 59)) == 20089;
    assert JstDay(UtcInstant(Civil(2025, 1, 1), 15, 0, 0)) == 20090;
  }

  /** getJstFullYear reads the JST year: 2025-12-31T15:00Z is already 2026 in Japan. */
  lemma GetJstFullYearExample()
    ensures GetJstFullYear(DateValue(UtcInstant(Civil(2025, 12, 31), 15, 0, 0))) == 2026
    ensures GetJstMonth(DateValue(UtcInstant(Civil(2025, 12, 31), 15, 0, 0))) == 0
  {
    var t := UtcInstant(Civil(2025, 12, 31), 15, 0, 0);
    assert DaysFromCivil(Civil(2025, 12, 31)) == 20453;
    assert JstDay(t) == 20454 == MakeDay(2026, 0, 1);
    GettersOfValidDay(DateValue(t), Civil(2026, 1, 1));
  }

  /** 2025-01-05 is a Sunday. */
  lemma GetJstDayExample()
    ensures GetJstDay(DateValue(UtcInstant(Civil(2025, 1, 4), 15, 0, 0))) == 0
  {
    var t := UtcInstant(Civil(2025, 1, 4), 15, 0, 0);
    assert DaysFromCivil(Civil(2025, 1, 4)) == 20092;
    assert JstDay(t) == 20093;
    WeekdayOfInstant(t);
  }
}
