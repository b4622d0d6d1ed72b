/**
 * scripts/generate-check-all-test.ts: getLastYear, the latest year among the
 * holidays read from the Cabinet Office CSV, and generateTestFile, the text of
 * a test that compares isNationalHoliday with that CSV on every date from
 * 1955-01-01 to the last day of that year. The meaning of the generated test
 * (the dates its loop visits and the failures it collects) is modelled too.
 */
module CheckAllTest {
  import opened Wrappers
  import opened Strings
  import opened Calendar
  import opened Jst
  import opened Json
  import opened GenerateHolidays
  import EndOf

  // ---------------------------------------------------------------------
  // parseInt(date.substring(0, 4), 10)
  // ---------------------------------------------------------------------

  /** `s.substring(0, 4)`: the first four characters, or all of a shorter string. */
  function Substring4(s: string): (r: string)
    ensures |r| == (if |s| < 4 then |s| else 4) && r == s[..|r|]
  {
    if |s| < 4 then s else s[..4]
  }

  /** The longest run of ASCII digits at the start of s. */
  function LeadingDigits(s: string): (r: string)
    ensures |r| <= |s| && r == s[..|r|]
    ensures forall i :: 0 <= i < |r| ==> IsDigit(r[i])
    ensures |r| < |s| ==> !IsDigit(s[|r|])
    decreases |s|
  {
    if |s| > 0 && IsDigit(s[0]) then [s[0]] + LeadingDigits(s[1..]) else []
  }

  /** The text after one leading sign character, if there is one. */
  function Unsigned(t: string): string {
    if |t| > 0 && (t[0] == '-' || t[0] == '+') then t[1..] else t
  }

  /**
   * `parseInt(s, 10)`: leading white space is skipped, one sign is read, then
   * the longest run of decimal digits. None stands for NaN: there is no digit.
   */
  function ParseInt10(s: string): (r: Option<int>)
    ensures r.None? <==> |LeadingDigits(Unsigned(TrimStart(s)))| == 0
  {
    var t := TrimStart(s);
    var digits := LeadingDigits(Unsigned(t));
    if |digits| == 0 then None
    else
      var value: int := DigitsValue(digits);
      if t[0] == '-' then Some(-value) else Some(value)
  }

  /** A digit is neither white space nor a sign. */
  lemma DigitNotSpace(c: char)
    requires IsDigit(c)
    ensures !IsWhiteSpace(c) && c != '-' && c != '+'
  {
  }

  /** The run of digits at the start of digits + rest is digits, when rest does not start with a digit. */
  lemma {:induction false} LeadingDigitsOf(digits: string, rest: string)
    requires forall i :: 0 <= i < |digits| ==> IsDigit(digits[i])
    requires |rest| == 0 || !IsDigit(rest[0])
    ensures LeadingDigits(digits + rest) == digits
    decreases |digits|
  {
    if |digits| > 0 {
      assert (digits + rest)[1..] == digits[1..] + rest;
      LeadingDigitsOf(digits[1..], rest);
    }
  }

  /** Text that starts with a digit is read from its first character, with no sign. */
  lemma ParseInt10DigitFirst(s: string)
    requires |s| > 0 && IsDigit(s[0])
    ensures ParseInt10(s) == Some(DigitsValue(LeadingDigits(s)))
  {
    DigitNotSpace(s[0]);
    assert TrimStart(s) == s;
  }

  /** Parsing stops at the first character that is not a digit; what follows does not matter. */
  lemma ParseInt10Prefix(digits: string, rest: string)
    requires IsDigits(digits) && (|rest| == 0 || !IsDigit(rest[0]))
    ensures ParseInt10(digits + rest) == Some(DigitsValue(digits))
  {
    ParseInt10DigitFirst(digits + rest);
    LeadingDigitsOf(digits, rest);
  }

  /** A string of digits parses to its decimal value. */
  lemma ParseInt10Digits(s: string)
    requires IsDigits(s)
    ensures ParseInt10(s) == Some(DigitsValue(s))
  {
    assert s + "" == s;
    ParseInt10Prefix(s, "");
  }

  /** Text with no digit after the white space and the sign parses to NaN. */
  lemma ParseInt10NaN(s: string)
    requires |s| > 0 && !IsDigit(s[0]) && !IsWhiteSpace(s[0]) && s[0] != '-' && s[0] != '+'
    ensures ParseInt10(s).None?
  {
  }

  /** The year getLastYear reads from a holiday: parseInt of the first four characters of its date. */
  function YearOf(h: CsvHoliday): Option<int> {
    ParseInt10(Substring4(h.date))
  }

  /** The year read from a YYYY-MM-DD date with a four-digit year is that year. */
  lemma YearOfIsoDate(c: Civil, name: Option<string>)
    requires 1000 <= c.year <= 9999
    ensures YearOf(CsvHoliday(IsoDate(c), name)) == Some(c.year)
  {
    var y := NatToDecimal(c.year);
    FourDigitLength(c.year);
    IsoDateStartsWithYear(c);
    YearOfDigitsPrefix(IsoDate(c), y, name);
    NatToDecimalValue(c.year);
  }

  /** A four-digit number is written with four characters. */
  lemma FourDigitLength(y: nat)
    requires 1000 <= y < 10000
    ensures |NatToDecimal(y)| == 4
  {
    FourDigits(y);
  }

  /** The text of a date from year 0 on starts with the digits of its year. */
  lemma IsoDateStartsWithYear(c: Civil)
    requires c.year >= 0
    ensures var y := NatToDecimal(c.year); |IsoDate(c)| > |y| && IsoDate(c)[..|y|] == y
  {
    assert IntToDecimal(c.year) == NatToDecimal(c.year);
    StartsWith(NatToDecimal(c.year), "-", Pad2(c.month), "-", Pad2(c.day));
  }

  /** A concatenation of five strings starts with the first. */
  lemma StartsWith(a: string, b: string, c: string, d: string, e: string)
    ensures |a + b + c + d + e| >= |a| && (a + b + c + d + e)[..|a|] == a
  {
    assert a + b + c + d + e == a + (b + c + d + e);
  }

  /** A date that starts with four digits yields the number they spell. */
  lemma YearOfDigitsPrefix(date: string, y: string, name: Option<string>)
    requires IsDigits(y) && |y| == 4 && |date| >= 4 && date[..4] == y
    ensures YearOf(CsvHoliday(date, name)) == Some(DigitsValue(y))
  {
    assert Substring4(date) == y;
    ParseInt10Digits(y);
  }

  /** The same holds for a date as parseCsv writes it from a "YYYY/M/D" CSV field. */
  lemma YearOfCsvDate(c: Civil, name: Option<string>)
    requires 1000 <= c.year <= 9999 && c.month >= 0 && c.day >= 0
    ensures var field := IntToDecimal(c.year) + "/" + IntToDecimal(c.month) + "/" + IntToDecimal(c.day);
      FormatCsvDate(field).Some? && YearOf(CsvHoliday(FormatCsvDate(field).value, name)) == Some(c.year)
  {
    CsvDateIsIsoDate(c);
    YearOfIsoDate(c, name);
  }

  // ---------------------------------------------------------------------
  // getLastYear
  // ---------------------------------------------------------------------

  /** The years getLastYear reads, one per holiday, in order. */
  function Years(hs: seq<CsvHoliday>): (ys: seq<Option<int>>)
    ensures |ys| == |hs| && forall i :: 0 <= i < |hs| ==> ys[i] == YearOf(hs[i])
  {
    seq(|hs|, i requires 0 <= i < |hs| => YearOf(hs[i]))
  }

  /** 0, raised to every larger year in the list; NaN is never larger. */
  function MaxYear(ys: seq<Option<int>>): (r: int)
    ensures r >= 0
    decreases |ys|
  {
    if |ys| == 0 then 0
    else
      var m := MaxYear(ys[..|ys| - 1]);
      match ys[|ys| - 1]
      case Some(y) => if y > m then y else m
      case None => m
  }

  /** What getLastYear computes: the largest of the years read, or 0. */
  function LastYear(hs: seq<CsvHoliday>): int {
    MaxYear(Years(hs))
  }

  /** getLastYear: a single pass over the holidays keeping the largest year seen. */
  method GetLastYear(holidays: seq<CsvHoliday>) returns (maxYear: int)
    ensures maxYear == LastYear(holidays)
  {
    ghost var ys := Years(holidays);
    maxYear := 0;
    for i := 0 to |holidays|
      invariant maxYear == MaxYear(ys[..i])
    {
      var year := ReadYear(holidays[i]);
      MaxYearStep(ys, i);
      if year.Some? && year.value > maxYear {
        maxYear := year.value;
      }
    }
    assert ys[..|holidays|] == ys;
  }

  /**
   * `parseInt(holiday.date.substring(0, 4), 10)`, the year read in getLastYear's
   * loop: the value of four leading digits, and NaN for a date that starts
   * with neither a digit, white space nor a sign.
   */
  method ReadYear(h: CsvHoliday) returns (year: Option<int>)
    ensures year == YearOf(h)
    ensures |h.date| >= 4 && IsDigits(h.date[..4]) ==> year == Some(DigitsValue(h.date[..4]))
    ensures |h.date| > 0 && !IsDigit(h.date[0]) && !IsWhiteSpace(h.date[0]) && h.date[0] != '-' && h.date[0] != '+' ==> year.None?
  {
    year := ParseInt10(Substring4(h.date));
    if |h.date| >= 4 && IsDigits(h.date[..4]) {
      YearOfDigitsPrefix(h.date, h.date[..4], h.name);
    }
    if |h.date| > 0 && !IsDigit(h.date[0]) && !IsWhiteSpace(h.date[0]) && h.date[0] != '-' && h.date[0] != '+' {
      ParseInt10NaN(Substring4(h.date));
    }
  }

  /** One more year raises the maximum to it when it is larger. */
  lemma MaxYearStep(ys: seq<Option<int>>, i: int)
    requires 0 <= i < |ys|
    ensures MaxYear(ys[..i + 1]) == match ys[i] case Some(y) => (if y > MaxYear(ys[..i]) then y else MaxYear(ys[..i])) case None => MaxYear(ys[..i])
  {
    assert ys[..i + 1][..i] == ys[..i];
  }

  /** No holidays: the result is 0. */
  lemma LastYearEmpty()
    ensures LastYear([]) == 0
  {
  }

  /** No year in the list exceeds the maximum. */
  lemma {:induction false} MaxYearBoundAt(ys: seq<Option<int>>, i: int)
    requires 0 <= i < |ys| && ys[i].Some?
    ensures ys[i].value <= MaxYear(ys)
    decreases |ys|
  {
    var init := ys[..|ys| - 1];
    if i < |init| {
      assert init[i] == ys[i];
      MaxYearBoundAt(init, i);
    }
  }

  /** No year read from the list exceeds the result. */
  lemma LastYearUpperBound(hs: seq<CsvHoliday>)
    ensures forall i :: 0 <= i < |hs| && YearOf(hs[i]).Some? ==> YearOf(hs[i]).value <= LastYear(hs)
  {
    var ys := Years(hs);
    forall i | 0 <= i < |hs| && YearOf(hs[i]).Some?
      ensures YearOf(hs[i]).value <= LastYear(hs)
    {
      MaxYearBoundAt(ys, i);
    }
  }

  /** A maximum other than 0 is one of the years in the list. */
  lemma {:induction false} MaxYearAttained(ys: seq<Option<int>>)
    ensures MaxYear(ys) == 0 || exists i :: 0 <= i < |ys| && ys[i] == Some(MaxYear(ys))
    decreases |ys|
  {
    if |ys| > 0 {
      var init := ys[..|ys| - 1];
      MaxYearAttained(init);
      if MaxYear(ys) != 0 && MaxYear(ys) == MaxYear(init) {
        var i :| 0 <= i < |init| && init[i] == Some(MaxYear(init));
        assert init[i] == ys[i];
      }
    }
  }

  /** A result other than 0 is the year of one of the holidays. */
  lemma LastYearAttained(hs: seq<CsvHoliday>)
    ensures LastYear(hs) == 0 || exists i :: 0 <= i < |hs| && YearOf(hs[i]) == Some(LastYear(hs))
  {
    MaxYearAttained(Years(hs));
  }

  /** A non-negative year that no other holiday's year exceeds is the result: getLastYear is the maximum. */
  lemma LastYearIsMax(hs: seq<CsvHoliday>, k: int)
    requires 0 <= k < |hs| && YearOf(hs[k]).Some? && YearOf(hs[k]).value >= 0
    requires forall i :: 0 <= i < |hs| && YearOf(hs[i]).Some? ==> YearOf(hs[i]).value <= YearOf(hs[k]).value
    ensures LastYear(hs) == YearOf(hs[k]).value
  {
    LastYearUpperBound(hs);
    LastYearAttained(hs);
  }

  // ---------------------------------------------------------------------
  // generateDateRange, in the generated test
  // ---------------------------------------------------------------------

  /** The loop condition of generateDateRange: (year, month, day) has not passed the end date. */
  predicate NotPast(c: Civil, end: Civil) {
    c.year < end.year
    || (c.year == end.year && c.month < end.month)
    || (c.year == end.year && c.month == end.month && c.day <= end.day)
  }

  /** The Date constructor reads a year from 0 to 99 as 1900 + year. */
  function DateCtorYear(year: int): int {
    if 0 <= year <= 99 then 1900 + year else year
  }

  /** getDaysInMonth: `new Date(year, month, 0).getDate()`, day 0 of the 0-based month `month`. */
  function GetDaysInMonth(year: int, month: int): int {
    CivilFromDays(MakeDay(DateCtorYear(year), month, 0)).day
  }

  /** Day 0 of the month after the 1-based month `month` is that month's last day. */
  lemma GetDaysInMonthValue(year: int, month: int)
    requires 1 <= month <= 12
    ensures GetDaysInMonth(year, month) == DaysInMonth(DateCtorYear(year), month)
  {
    var y := DateCtorYear(year);
    var last := Civil(y, month, DaysInMonth(y, month));
    EndOf.DayZeroNumber(y, month);
    NextCivilDays(last);
    CivilDaysRoundTrip(last);
  }

  /** Years 1 to 99 have the same month lengths as 1901 to 1999. */
  lemma DateCtorYearMonths(year: int, month: int)
    requires year != 0 && 1 <= month <= 12
    ensures DaysInMonth(DateCtorYear(year), month) == DaysInMonth(year, month)
  {
  }

  /** Year 0 is a leap year but 1900 is not: the one place the two disagree. */
  lemma YearZeroFebruary()
    ensures GetDaysInMonth(0, 2) == 28 && DaysInMonth(0, 2) == 29
  {
    GetDaysInMonthValue(0, 2);
  }

  /**
   * The increment at the end of generateDateRange's loop body: the next day,
   * rolling over to the next month past getDaysInMonth and to the next year past December.
   */
  method AdvanceDay(year: int, month: int, day: int) returns (year': int, month': int, day': int)
    requires year >= 1 && ValidCivil(Civil(year, month, day))
    ensures Civil(year', month', day') == NextCivil(Civil(year, month, day))
  {
    GetDaysInMonthValue(year, month);
    DateCtorYearMonths(year, month);
    year', month', day' := year, month, day + 1;
    if day' > GetDaysInMonth(year, month) {
      day' := 1;
      month' := month + 1;
      if month' > 12 {
        month' := 1;
        year' := year + 1;
      }
    }
  }

  /** The calendar days generateDateRange visits from c up to end, one day at a time. */
  function CivilRange(c: Civil, end: Civil): seq<Civil>
    requires ValidCivil(c)
    decreases end.year - c.year, 12 - c.month, 31 - c.day
  {
    if NotPast(c, end) then [c] + CivilRange(NextCivil(c), end) else []
  }

  /** A day not past the end opens the range, and the rest starts on the next day. */
  lemma CivilRangeStep(c: Civil, end: Civil)
    requires ValidCivil(c) && NotPast(c, end)
    ensures CivilRange(c, end) == [c] + CivilRange(NextCivil(c), end)
  {
  }

  /** The dates generateDateRange yields: the visited days written as YYYY-MM-DD. */
  function DateRange(c: Civil, end: Civil): seq<string>
    requires ValidCivil(c)
  {
    var days := CivilRange(c, end);
    seq(|days|, i requires 0 <= i < |days| => IsoDate(days[i]))
  }

  /** generateDateRange: the loop that walks the calendar from the start date while the end date is not passed. */
  method GenerateDateRange(start: Civil, end: Civil) returns (dates: seq<string>)
    requires ValidCivil(start) && start.year >= 1
    ensures dates == DateRange(start, end)
  {
    var year, month, day := start.year, start.month, start.day;
    dates := [];
    ghost var visited: seq<Civil> := [];
    while year < end.year || (year == end.year && month < end.month) || (year == end.year && month == end.month && day <= end.day)
      invariant year >= 1 && ValidCivil(Civil(year, month, day))
      invariant visited + CivilRange(Civil(year, month, day), end) == CivilRange(start, end)
      invariant |dates| == |visited| && forall i :: 0 <= i < |visited| ==> dates[i] == IsoDate(visited[i])
      decreases |CivilRange(start, end)| - |visited|
    {
      var c := Civil(year, month, day);
      CivilRangeStep(c, end);
      assert visited + [c] + CivilRange(NextCivil(c), end) == visited + CivilRange(c, end);
      dates := dates + [IsoDate(c)];
      visited := visited + [c];
      year, month, day := AdvanceDay(year, month, day);
    }
    assert visited == CivilRange(start, end);
  }

  /** Within a year, a month ends before any later month begins. */
  lemma {:induction false} MonthEndsBefore(y: int, m1: int, m2: int)
    requires 1 <= m1 < m2 <= 12
    ensures DaysFromCivil(Civil(y, m1, DaysInMonth(y, m1))) < DaysFromCivil(Civil(y, m2, 1))
    decreases m2 - m1
  {
    MonthFollows(y, m1);
    if m1 + 1 < m2 {
      MonthEndsBefore(y, m1 + 1, m2);
    }
  }

  /** The month after m starts the day after m ends, and ends later still. */
  lemma MonthFollows(y: int, m: int)
    requires 1 <= m < 12
    ensures DaysFromCivil(Civil(y, m, DaysInMonth(y, m))) + 1 == DaysFromCivil(Civil(y, m + 1, 1))
    ensures DaysFromCivil(Civil(y, m + 1, 1)) <= DaysFromCivil(Civil(y, m + 1, DaysInMonth(y, m + 1)))
  {
    NextCivilDays(Civil(y, m, DaysInMonth(y, m)));
    EndOf.MonthDaysOrdered(Civil(y, m + 1, 1), Civil(y, m + 1, DaysInMonth(y, m + 1)));
  }

  /** A valid date lies between January 1 and December 31 of its year. */
  lemma WithinYear(c: Civil)
    requires ValidCivil(c)
    ensures DaysFromCivil(Civil(c.year, 1, 1)) <= DaysFromCivil(c) <= DaysFromCivil(Civil(c.year, 12, 31))
  {
    var y := c.year;
    EndOf.MonthDaysOrdered(Civil(y, c.month, 1), c);
    EndOf.MonthDaysOrdered(c, Civil(y, c.month, DaysInMonth(y, c.month)));
    if c.month > 1 {
      EndOf.MonthDaysOrdered(Civil(y, 1, 1), Civil(y, 1, 31));
      MonthEndsBefore(y, 1, c.month);
    }
    if c.month < 12 {
      EndOf.MonthDaysOrdered(Civil(y, 12, 1), Civil(y, 12, 31));
      MonthEndsBefore(y, c.month, 12);
    }
  }

  /** A year ends before any later year begins. */
  lemma {:induction false} YearEndsBefore(y1: int, y2: int)
    requires y1 < y2
    ensures DaysFromCivil(Civil(y1, 12, 31)) < DaysFromCivil(Civil(y2, 1, 1))
    decreases y2 - y1
  {
    NextCivilDays(Civil(y1, 12, 31));
    if y1 + 1 < y2 {
      WithinYear(Civil(y1 + 1, 12, 31));
      YearEndsBefore(y1 + 1, y2);
    }
  }

  /** A date that has not passed another comes no later in day numbers. */
  lemma NotPastOrdered(a: Civil, b: Civil)
    requires ValidCivil(a) && ValidCivil(b) && NotPast(a, b)
    ensures DaysFromCivil(a) <= DaysFromCivil(b)
  {
    if a.year < b.year {
      WithinYear(a);
      WithinYear(b);
      YearEndsBefore(a.year, b.year);
    } else if a.month < b.month {
      EndOf.MonthDaysOrdered(a, Civil(a.year, a.month, DaysInMonth(a.year, a.month)));
      EndOf.MonthDaysOrdered(Civil(b.year, b.month, 1), b);
      MonthEndsBefore(a.year, a.month, b.month);
    } else {
      EndOf.MonthDaysOrdered(a, b);
    }
  }

  /** The loop condition compares dates exactly as their day numbers do. */
  lemma NotPastDays(a: Civil, b: Civil)
    requires ValidCivil(a) && ValidCivil(b)
    ensures NotPast(a, b) <==> DaysFromCivil(a) <= DaysFromCivil(b)
  {
    if NotPast(a, b) {
      NotPastOrdered(a, b);
    } else {
      NotPastOrdered(b, a);
      if DaysFromCivil(a) == DaysFromCivil(b) {
        DaysFromCivilInjective(a, b);
      }
    }
  }

  /** Between two valid dates the walk visits one day per day number from start to end; none when end comes first. */
  lemma {:induction false} CivilRangeLength(start: Civil, end: Civil)
    requires ValidCivil(start) && ValidCivil(end)
    ensures var n := DaysFromCivil(end) - DaysFromCivil(start) + 1;
      |CivilRange(start, end)| == (if n < 0 then 0 else n)
    decreases DaysFromCivil(end) - DaysFromCivil(start) + 1
  {
    NotPastDays(start, end);
    if NotPast(start, end) {
      NextCivilDays(start);
      CivilRangeLength(NextCivil(start), end);
    }
  }

  /** The walk visits valid dates on consecutive day numbers, starting at start. */
  lemma {:induction false} CivilRangeDays(start: Civil, end: Civil)
    requires ValidCivil(start)
    ensures forall i :: 0 <= i < |CivilRange(start, end)| ==>
      ValidCivil(CivilRange(start, end)[i]) && DaysFromCivil(CivilRange(start, end)[i]) == DaysFromCivil(start) + i
    decreases end.year - start.year, 12 - start.month, 31 - start.day
  {
    if NotPast(start, end) {
      var next := NextCivil(start);
      NextCivilDays(start);
      CivilRangeDays(next, end);
      var r := CivilRange(start, end);
      assert r == [start] + CivilRange(next, end);
      forall i | 0 <= i < |r|
        ensures ValidCivil(r[i]) && DaysFromCivil(r[i]) == DaysFromCivil(start) + i
      {
        if i > 0 {
          assert r[i] == CivilRange(next, end)[i - 1];
        }
      }
    }
  }

  /**
   * The walk from start to end visits exactly the valid dates that are not
   * before start and not past end: every visited date lies between them, and
   * every date between them is visited, at the position of its distance from start.
   */
  lemma CivilRangeExact(start: Civil, end: Civil)
    requires ValidCivil(start) && ValidCivil(end)
    ensures forall i :: 0 <= i < |CivilRange(start, end)| ==>
      NotPast(start, CivilRange(start, end)[i]) && NotPast(CivilRange(start, end)[i], end)
    ensures forall c :: ValidCivil(c) && NotPast(start, c) && NotPast(c, end) ==>
      var i := DaysFromCivil(c) - DaysFromCivil(start);
      0 <= i < |CivilRange(start, end)| && CivilRange(start, end)[i] == c
  {
    var r := CivilRange(start, end);
    CivilRangeLength(start, end);
    CivilRangeDays(start, end);
    forall i | 0 <= i < |r|
      ensures NotPast(start, r[i]) && NotPast(r[i], end)
    {
      NotPastDays(start, r[i]);
      NotPastDays(r[i], end);
    }
    forall c | ValidCivil(c) && NotPast(start, c) && NotPast(c, end)
      ensures var i := DaysFromCivil(c) - DaysFromCivil(start);
        0 <= i < |r| && r[i] == c
    {
      NotPastDays(start, c);
      NotPastDays(c, end);
      var i := DaysFromCivil(c) - DaysFromCivil(start);
      DaysFromCivilInjective(r[i], c);
    }
  }

  /** The dates the generated test visits: generateDateRange(1955, 1, 1, lastYear, 12, 31). */
  function CheckAllRange(lastYear: int): seq<string> {
    DateRange(Civil(1955, 1, 1), Civil(lastYear, 12, 31))
  }

  /**
   * The test visits nothing when lastYear is before 1955; otherwise one date
   * per day, from 1955-01-01 to lastYear-12-31.
   */
  lemma CheckAllRangeEnds(lastYear: int)
    ensures lastYear < 1955 <==> |CheckAllRange(lastYear)| == 0
    ensures lastYear >= 1955 ==>
      |CheckAllRange(lastYear)| == DaysFromCivil(Civil(lastYear, 12, 31)) - DaysFromCivil(Civil(1955, 1, 1)) + 1 &&
      CheckAllRange(lastYear)[0] == IsoDate(Civil(1955, 1, 1)) &&
      CheckAllRange(lastYear)[|CheckAllRange(lastYear)| - 1] == IsoDate(Civil(lastYear, 12, 31))
  {
    var start, end := Civil(1955, 1, 1), Civil(lastYear, 12, 31);
    CivilRangeLength(start, end);
    NotPastDays(start, end);
    if lastYear >= 1955 {
      CivilRangeExact(start, end);
      var r := CivilRange(start, end);
      assert r[0] == start;
      assert r[|r| - 1] == end;
    }
  }

  // ---------------------------------------------------------------------
  // The comparison the generated test makes
  // ---------------------------------------------------------------------

  /** `new Set([...])` over the CSV dates. */
  function HolidaySet(hs: seq<CsvHoliday>): (r: set<string>)
    ensures forall d :: d in r <==> d in Dates(hs)
  {
    set d | d in Dates(hs)
  }

  /** A boolean as a template literal writes it. */
  function BoolText(b: bool): string {
    if b then "true" else "false"
  }

  /** One entry of the failure list: `${date}: expected ${expected}, got ${actual}`. */
  function ErrorLine(date: string, expected: bool, actual: bool): string {
    date + ": expected " + BoolText(expected) + ", got " + BoolText(actual)
  }

  /** The failure list: one entry, in order, for every date where isNationalHoliday disagrees with the set. */
  function Errors(dates: seq<string>, holidaySet: set<string>, isNational: string -> bool): (r: seq<string>)
    ensures |r| <= |dates|
    decreases |dates|
  {
    if |dates| == 0 then []
    else
      var date := dates[0];
      var expected := date in holidaySet;
      var actual := isNational(date);
      var rest := Errors(dates[1..], holidaySet, isNational);
      if actual != expected then [ErrorLine(date, expected, actual)] + rest else rest
  }

  /** The failure list is empty exactly when every date agrees. */
  lemma {:induction false} ErrorsEmpty(dates: seq<string>, holidaySet: set<string>, isNational: string -> bool)
    ensures |Errors(dates, holidaySet, isNational)| == 0 <==>
      forall i :: 0 <= i < |dates| ==> isNational(dates[i]) == (dates[i] in holidaySet)
    decreases |dates|
  {
    if |dates| > 0 {
      ErrorsEmpty(dates[1..], holidaySet, isNational);
      assert forall i :: 1 <= i < |dates| ==> dates[1..][i - 1] == dates[i];
    }
  }

  /** The assertion of the generated test: no date in the range disagrees. */
  predicate CheckAllPasses(hs: seq<CsvHoliday>, lastYear: int, isNational: string -> bool) {
    |Errors(CheckAllRange(lastYear), HolidaySet(hs), isNational)| == 0
  }

  /** Over any range of days, when no failure is collected every day's date agrees. */
  lemma RangeAgreesWhenNoErrors(start: Civil, end: Civil, hs: seq<CsvHoliday>, isNational: string -> bool)
    requires ValidCivil(start) && ValidCivil(end)
    requires |Errors(DateRange(start, end), HolidaySet(hs), isNational)| == 0
    ensures forall c :: ValidCivil(c) && NotPast(start, c) && NotPast(c, end) ==>
      isNational(IsoDate(c)) == (IsoDate(c) in Dates(hs))
  {
    var days := CivilRange(start, end);
    var range := DateRange(start, end);
    CivilRangeExact(start, end);
    ErrorsEmpty(range, HolidaySet(hs), isNational);
    forall c | ValidCivil(c) && NotPast(start, c) && NotPast(c, end)
      ensures isNational(IsoDate(c)) == (IsoDate(c) in Dates(hs))
    {
      var i := DaysFromCivil(c) - DaysFromCivil(start);
      assert range[i] == IsoDate(days[i]);
    }
  }

  /** Over any range of days, a collected failure is a day whose date disagrees. */
  lemma RangeErrorWitness(start: Civil, end: Civil, hs: seq<CsvHoliday>, isNational: string -> bool)
    requires ValidCivil(start) && ValidCivil(end)
    requires |Errors(DateRange(start, end), HolidaySet(hs), isNational)| != 0
    ensures exists c ::
      ValidCivil(c) && NotPast(start, c) && NotPast(c, end) && isNational(IsoDate(c)) != (IsoDate(c) in Dates(hs))
  {
    var days := CivilRange(start, end);
    var range := DateRange(start, end);
    CivilRangeExact(start, end);
    CivilRangeDays(start, end);
    ErrorsEmpty(range, HolidaySet(hs), isNational);
    var i :| 0 <= i < |range| && isNational(range[i]) != (range[i] in HolidaySet(hs));
    assert range[i] == IsoDate(days[i]);
    assert ValidCivil(days[i]) && NotPast(start, days[i]) && NotPast(days[i], end);
  }

  /**
   * The generated test passes exactly when, on every valid date from
   * 1955-01-01 to lastYear-12-31, isNationalHoliday says yes for the
   * YYYY-MM-DD text if and only if the CSV lists that date.
   */
  lemma CheckAllPassesMeaning(hs: seq<CsvHoliday>, lastYear: int, isNational: string -> bool)
    ensures CheckAllPasses(hs, lastYear, isNational) <==>
      forall c :: ValidCivil(c) && NotPast(Civil(1955, 1, 1), c) && NotPast(c, Civil(lastYear, 12, 31)) ==>
        isNational(IsoDate(c)) == (IsoDate(c) in Dates(hs))
  {
    var start, end := Civil(1955, 1, 1), Civil(lastYear, 12, 31);
    if CheckAllPasses(hs, lastYear, isNational) {
      RangeAgreesWhenNoErrors(start, end, hs, isNational);
    } else {
      RangeErrorWitness(start, end, hs, isNational);
    }
  }

  // ---------------------------------------------------------------------
  // generateTestFile
  // ---------------------------------------------------------------------

  /**
   * The fixed text of generateTestFile's template, cut where the dates and
   * lastYear are substituted: before the Set literal, from the Set literal to
   * the year in the test title, from there to the year argument of
   * generateDateRange, and the rest.
   */
  datatype TestTemplate = TestTemplate(head: string, afterSet: string, afterTitle: string, tail: string)

  /** The template text with the quoted dates joined by commas inside the Set literal and lastYear in both places. */
  function FillTemplate(t: TestTemplate, holidays: seq<CsvHoliday>, lastYear: int): string {
    var holidayDates := QuoteAll(Dates(holidays));
    t.head + ("[" + Join(holidayDates, ',') + "]") + t.afterSet + IntToDecimal(lastYear)
      + t.afterTitle + IntToDecimal(lastYear) + t.tail
  }

  /** generateTestFile: the check-all test's template filled in. */
  function GenerateTestFile(holidays: seq<CsvHoliday>, lastYear: int): string {
    FillTemplate(CheckAllTemplate, holidays, lastYear)
  }

  /**
   * The Set literal is the dates file's JSON array: it reads back to the
   * dates of the holidays in input order.
   */
  lemma TestFileEmbedsDates(t: TestTemplate, hs: seq<CsvHoliday>, lastYear: int)
    ensures FillTemplate(t, hs, lastYear) == t.head + HolidayDatesJson(hs) + t.afterSet
      + IntToDecimal(lastYear) + t.afterTitle + IntToDecimal(lastYear) + t.tail
    ensures ReadArray(HolidayDatesJson(hs)) == Some(Dates(hs))
  {
    HolidayDatesJsonMeaning(hs);
  }

  /** The year written into the title and the range call reads back as lastYear. */
  lemma TestFileYearText(lastYear: nat)
    ensures IsDigits(IntToDecimal(lastYear)) && DigitsValue(IntToDecimal(lastYear)) == lastYear
  {
    NatToDecimalValue(lastYear);
  }

  /**
   * The template of the check-all test. The head ends with `new Set(`,
   * afterSet starts with `);` and ends with the title's `1955-01-01 から `,
   * afterTitle ends with `generateDateRange(1955, 1, 1, ` and the tail
   * starts with `, 12, 31)`.
   */
  const CheckAllTemplate := TestTemplate(
@"/**
 * このファイルは自動生成されるため、直接編集しないこと
 * 再生成: npm run generate:check-all-test
 * @packageDocumentation
 */

import { describe, it } from 'node:test';
import assert from 'node:assert';
import { isNationalHoliday } from '../src/index.js';

/**
 * 内閣府 CSV から取得した祝日日付セット
 */
const holidaySet: ReadonlySet<string> = new Set(",
@");

/**
 * 日付を YYYY-MM-DD 形式の文字列に変換する
 */
function formatDateString(year: number, month: number, day: number): string {
  return `${year}-${String(month).padStart(2, '0')}-${String(day).padStart(2, '0')}`;
}

/**
 * 指定した年月の日数を返す
 */
function getDaysInMonth(year: number, month: number): number {
  return new Date(year, month, 0).getDate();
}

/**
 * 開始日から終了日までの全日付を生成する
 */
function* generateDateRange(
  startYear: number,
  startMonth: number,
  startDay: number,
  endYear: number,
  endMonth: number,
  endDay: number
): Generator<string> {
  let year = startYear;
  let month = startMonth;
  let day = startDay;

  while (
    year < endYear ||
    (year === endYear && month < endMonth) ||
    (year === endYear && month === endMonth && day <= endDay)
  ) {
    yield formatDateString(year, month, day);

    day++;
    if (day > getDaysInMonth(year, month)) {
      day = 1;
      month++;
      if (month > 12) {
        month = 1;
        year++;
      }
    }
  }
}

describe('isNationalHoliday 全日付チェック', () => {
  it('1955-01-01 から ",
@"-12-31 まで全日付の判定が正しい', () => {
    const errors: string[] = [];

    for (const date of generateDateRange(1955, 1, 1, ",
@", 12, 31)) {
      const expected = holidaySet.has(date);
      const actual = isNationalHoliday(date);

      if (actual !== expected) {
        errors.push(`${date}: expected ${expected}, got ${actual}`);
      }
    }

    assert.strictEqual(
      errors.length,
      0,
      `${errors.length} 件の日付で判定が一致しません:\n${errors.slice(0, 20).join('\n')}`
    );
  });
});
")
}
