# japanese-holidays, modelled in Dafny

This project models the TypeScript library japanese-holidays. The library decides whether a date is a
Japanese national holiday under the Act on National Holidays (Act No. 178 of 1948) and names the
holiday. On top of that it builds weekend, holiday and business-day arithmetic. Two scripts turn the
government's holiday CSV into JSON data files and generate an exhaustive test file.

The model keeps the library's structure:

- **Calendar and JST layer** (`calendar.dfy`, `jst.dfy`, `add_days.dfy`, `end_of.dfy`,
  `format_date.dfy`).
  - A date is an integer day number, and an instant is an integer count of epoch milliseconds.
  - Days-from-civil and civil-from-days are proved inverse to each other.
  - `Date.UTC` first reads a year from 0 to 99 as 1900 to 1999 (MakeFullYear of ECMA-262), then normalises the month
    and day with ECMAScript's MakeDay. So an instant or a string in those years lands in the 1900s.
  - JST is UTC+9. The weekday is the day number mod 7.
  - `addDays` is a method on a small `JsDate` class whose `setDate` updates its time value in place.
- **Holiday engine** (`rules.dfy`, `equinox.dfy`, `nth_weekday.dfy`, `derived.dfy`,
  `national_holiday.dfy`, `holiday_name2.dfy`, `holiday_name.dfy`).
  - The substitute-holiday walk and the citizens'-holiday test are modelled once, in `Derived`, over a
    `defined` predicate. The three engines instantiate them.
  - `Derived` proves the walk equal to a reference reading of Article 3 paragraphs 2 and 3.
  - The boolean engine (`isNationalHoliday`) and the hard-coded naming engine (`getHolidayName2`) are
    proved to agree on every input.
  - The ruleset-driven engine (`getHolidayName`) is proved to agree with them whenever its rulesets
    define the same holidays.
  - The equinox and nth-weekday helpers are defined once. The copies in `isNationalHoliday/index.ts`
    and `getHolidayName2/index.ts` are textually the same as `equinox.ts` and as each other.
- **Traversal and business days** (`traversal.dfy`, `business_days.dfy`).
  - `findNext`, `findPrev`, `advance`, `rewind` and `count` are functions over an arbitrary date
    predicate, specified by counts of satisfying days.
  - The business-day functions are instances of them.
- **Range query and scripts** (`holidays_in_range.dfy`, `json.dfy`, `generate_holidays.dfy`,
  `check_all_test.dfy`).
  - `getHolidaysInRange` is a method that filters map entries into a sequence and sorts it.
  - The JSON writers are proved to round-trip through a JSON reader.
  - `getLastYear` is a loop proved against a specification function.
  - The generated test's date walk is a loop proved to visit exactly the days from 1955-01-01 to the
    last year's December 31.

## Model

| member | source | states |
|---|---|---|
| Calendar.CivilDaysRoundTrip | src/_internal/jst.ts:26-28 | a valid civil date converted to its day number and back is the same date |
| Calendar.DaysCivilRoundTrip | src/_internal/jst.ts:80-130 | a day number converted to its civil date and back is the same day number, so the getters read the day a time value lies in |
| Calendar.DaysFromCivilInjective | src/_internal/jst.ts:26-28 | distinct valid civil dates have distinct day numbers |
| Calendar.WeekdayStep | src/_internal/jst.ts:128-130 | the weekday advances by one per day and repeats every seven days |
| Calendar.NextCivilDays | src/_internal/addDays.ts:20-24 | the civil day after a date has the next day number, across month and year ends |
| Calendar.CivilOfMakeDay | src/_internal/jst.ts:26-28 | MakeDay, the day arithmetic Date.UTC applies once it has read the year, takes a valid date's year, 0-based month and day to that very date |
| Calendar.MakeDayOfCivil | src/_internal/jst.ts:53-57 | MakeDay of the year, month and day read off a day gives back that day; Date.UTC's reading of the years 0 to 99 comes on top (Jst.RereadDayAsWritten) |
| Calendar.EarlyYearsDays | src/_internal/jst.ts:27 | a day lies in the years 0 to 99, the years Date.UTC reads as 1900 to 1999, exactly when it lies from 0000-01-01 up to 0100-01-01 |
| Calendar.Shift1900 | src/_internal/jst.ts:27 | read 1900 years later, a date of the years 0 to 99 moves by 693960 days, or by 693961 before 0000-03-01, since 1900 has no February 29 |
| Strings.JoinSplit | scripts/generate-holidays.ts:37 | joining the pieces of a split with the same separator gives back the string |
| Strings.SplitThree | src/_internal/jst.ts:47 | splitting 'Y-M-D' on '-' gives the three separator-free fields back |
| Strings.NatToDecimalValue | src/_internal/jst.ts:47 | Number(String(n)) is n for every natural n |
| Strings.Pad2Value | src/_internal/formatDate.ts:26-27 | padStart(2, '0') of a number below 100 gives two digits that read back as the number |
| Jst.CreateJstDateDay | src/_internal/jst.ts:26-28 | createJstDate(y, m, d) is the start (15:00Z of the day before) of the JST day MakeDay(y', m, d), where y' is 1900 + y for y from 0 to 99 and y otherwise |
| Jst.CreateJstDateDayZero | src/_internal/jst.ts:26-28 | day 0 of a month is the last day of the previous month of the year as Date.UTC reads it (0 to 99 as 1900 to 1999), February 29 in a leap year |
| Jst.CreateJstDateOfCivil | src/_internal/jst.ts:26-28 | createJstDate of a date lies on that date, its year read as Date.UTC reads it, whenever the date so read is valid |
| Jst.CreateJstDateShortYearExample | src/_internal/jst.ts:26-28 | Date.UTC(50, 0, 1) is 1950-01-01, not a day of the year 50 |
| Jst.CreateJstDateDayZeroShortYearExample | src/_internal/jst.ts:26-28 | Date.UTC(50, 2, 0) is 1950-02-28 |
| Jst.CreateJstDateExamples | src/_internal/jst.test.ts:14-18 | JST 2025-01-01 begins at 2024-12-31T15:00Z |
| Jst.CreateJstDateZeroExamples | src/_internal/jst.test.ts:20-36 | day 0 normalises to the previous month's last day, 2024-02-29 included |
| Jst.ToJstDate | src/_internal/jst.ts:45-58 | the result is the start of a JST day: for a string, MakeDay of its fields with a year from 0 to 99 read as 1900 + year; for an instant from 0100-01-01 on, the day it lies in |
| Jst.ToJstDateAsWrittenAgrees | src/_internal/jst.ts:45-58 | the code as written (shift by nine hours, read the UTC fields, createJstDate through Date.UTC with its year reading) computes ToJstDate on every input |
| Jst.RereadDayAsWritten | src/_internal/jst.ts:53-57 | the closed form used for an instant (its own JST day, or 693960 or 693961 days later in the years 0 to 99) is MakeDay of the day's year, month and day with the year read as Date.UTC reads it |
| Jst.ToJstDateInlineAgrees | src/_internal/toJstDate.ts:21-34 | the duplicate toJstDate computes the same instant as the one in jst.ts on every input |
| Jst.ToJstDateIdempotent | src/_internal/jst.ts:50-57 | toJstDate of its own result returns that result exactly when the result's JST year is not one of 0 to 99, so always for an instant |
| Jst.ToJstDateNotIdempotentExample | src/_internal/jst.ts:45-58 | '100-01-00' is 0099-12-31, and toJstDate of that instant is 1999-12-31 |
| Jst.ToJstDateOfInstant | src/_internal/toJstDate.ts:27-33 | an instant maps to the start of the JST day containing it exactly when its JST year is not one of 0 to 99 |
| Jst.ToJstDateOfShortYearInstant | src/_internal/jst.ts:53-57 | an instant in a JST year from 0 to 99 maps to the same month and day of 1900 + year, normalised as Date.UTC does |
| Jst.ShortYearInstantMoves | src/_internal/jst.ts:53-57 | such an instant maps to a later JST day |
| Jst.InstantResultYear | src/_internal/jst.ts:53-57 | toJstDate never maps an instant into the years 0 to 99, and from year 0 on maps it into a year from 100 on |
| Jst.ToJstDateStringExample | src/_internal/toJstDate.test.ts:7-17 | '2025-12-31' maps to 2025-12-30T15:00Z |
| Jst.ToJstDateBoundaryExample | src/_internal/toJstDate.test.ts:29-39 | 14:59:59Z stays on the earlier JST day and 15:00:00Z moves to the next |
| Jst.DateStringFields | src/_internal/jst.ts:46-48 | a year, month and day written as digits joined by '-' parse back to themselves |
| Jst.GettersReadJstDay | src/_internal/jst.ts:80-130 | getJstFullYear, getJstMonth (0-based), getJstDate and getJstDay read the civil date and weekday (0 = Sunday) of the JST day toJstDate gives |
| Jst.GettersOfInstant | src/_internal/jst.ts:80-114 | for an instant whose JST year is not one of 0 to 99, the getters read the JST civil date it falls on |
| Jst.GettersOfShortYearInstant | src/_internal/jst.ts:80-114 | for an instant in a JST year from 0 to 99, they read the same month and day of 1900 + year, when that date exists |
| Jst.GettersOfJstMidnight | src/_internal/jst.ts:80-130 | the start of JST day k, outside the years 0 to 99, reads as the civil date and the weekday of k |
| Jst.WeekdayOfInstant | src/_internal/jst.ts:128-130 | getJstDay of an instant outside the JST years 0 to 99 is the weekday of the JST day it falls in |
| Jst.GetJstDay | src/_internal/jst.ts:128-130 | the JST weekday lies in 0..6 |
| Jst.GettersOfValidString | src/_internal/jst.ts:46-49 | a string whose fields form a valid date, its year read as Date.UTC reads it, reads back that year (1900 + y for y from 0 to 99), month and day |
| Jst.IsoDateDay | src/_internal/formatDate.ts:25-28 | the 'YYYY-MM-DD' text of a date from year 0 on is a well-formed input; from year 100 it names that date's JST day, and a year from 0 to 99 names the same month and day of 1900 + year |
| Jst.GetJstFullYearExample | src/_internal/jst.test.ts:88-96 | 2025-12-31T15:00Z is already 2026 in JST |
| Jst.GetJstDayExample | src/_internal/jst.test.ts:148-153 | 2025-01-05 is a Sunday |
| AddDays.JsDate.SetDate | src/_internal/addDays.ts:22 | setDate keeps the local year, month and time of day and moves to day n of the month, running on into neighbouring months |
| AddDays.AddDays | src/_internal/addDays.ts:20-24 | addDays returns a fresh date at the start of the JST day `days` days after the input's |
| AddDays.DaysAfterZero | src/_internal/addDays.ts:20-24 | adding zero days gives the start of the input's JST day |
| AddDays.DaysAfterCompose | src/_internal/addDays.ts:20-24 | moving by a days and then by b days is moving by a + b days exactly when the first move ends outside the JST years 0 to 99 |
| AddDays.DaysAfterComposeShortYearExample | src/_internal/addDays.ts:20-24 | one day back from '100-01-01' is 0099-12-31, and one day on from that instant is 2000-01-01 |
| AddDays.DaysAfterIsMidnight | src/_internal/addDays.test.ts:61-67 | the result's JST time of day is 00:00:00 |
| AddDays.DaysAfterMonthEndExample | src/_internal/addDays.test.ts:14-19 | 2025-01-30 + 5 is 2025-02-04 |
| AddDays.DaysAfterYearEndExample | src/_internal/addDays.test.ts:21-26 | 2025-12-30 + 5 is 2026-01-04 |
| AddDays.DaysAfterNegativeExample | src/_internal/addDays.test.ts:37-42 | 2025-02-03 - 5 is 2025-01-29 |
| Equinox.QuarterFloorIsFloorDivision | src/_internal/equinox.ts:27 | the inner floor((year - 1980) / 4) is division rounding toward negative infinity |
| Equinox.QuarterFloorBefore1980 | src/_internal/equinox.ts:27 | before 1980 the inner floor rounds down: 1979 gives -1, not 0 |
| Equinox.OutOfRangeDays | src/_internal/equinox.ts:21-24 | outside 1900..2099 the vernal equinox is the 21st and the autumnal the 23rd |
| Equinox.VernalEquinoxRange | src/_internal/equinox.ts:20-30 | within 1900..2099 the vernal equinox falls on March 19 to 22 |
| Equinox.AutumnalEquinoxRange | src/_internal/equinox.ts:51-61 | within 1900..2099 the autumnal equinox falls on September 22 to 24 |
| Equinox.EquinoxDaysValid | src/isNationalHoliday/index.ts:57-87 | every equinox day, inside or outside the formula's range, is a valid day of March or September |
| Equinox.FormulaBounds | src/_internal/equinox.ts:26-29 | within 1900..2099 the floored formula stays within a few days of its base |
| Equinox.VernalExamples | src/_internal/equinox.test.ts:7-58 | vernal: 2024 gives 20, 2019 gives 21, 1980 gives 20, 1979 gives 21, and out-of-range years give 21 |
| Equinox.AutumnalExamples | src/_internal/equinox.test.ts:68-118 | autumnal: 2024 gives 22, 2025 gives 23, 1979 gives 24, 2020 gives 22, and out-of-range years give 23 |
| Rules.SpecialHolidayTable | src/_data/rules.ts:13-20 | there are exactly six special dates and both 2019 entries are named 休日（祝日扱い） |
| Rules.SpecialKeyTexts | src/_data/rules.ts:13-20 | every special key is one of the six 'YYYY-MM-DD' texts |
| Rules.HappyMondayShape | src/_data/rules.ts:174-183 | every happy-Monday rule picks the second or third Monday |
| NthWeekday.FirstWeekdayIsJstDay | src/isNationalHoliday/index.ts:36-37 | getJstDay(createJstDate(year, month - 1, 1)) is the weekday of the first of the month in the year as Date.UTC reads it, and outside the years 0 to 99 it is the weekday the model uses |
| NthWeekday.NthWeekdayFormula | src/isNationalHoliday/index.ts:30-47 | the result is 1 + ((weekday - weekday of the 1st) mod 7) + 7(n - 1) |
| NthWeekday.NthWeekdayInWeek | src/getHolidayName2/index.ts:32-49 | the result falls on `weekday` and lies in [7n - 6, 7n] |
| NthWeekday.NthWeekdayUnique | src/isNationalHoliday/index.ts:30-47 | the result is the only day of the n-th week of the month on that weekday |
| NthWeekday.HappyMondayDays | src/_data/rules.ts:174-183 | every happy-Monday rule gives a Monday between the 8th and the 21st, valid in every month |
| Derived.WalkBackToSunday | src/isNationalHoliday/index.ts:288-300 | the backward walk (at most six steps, measured by the weekday) succeeds exactly when every day from D - 1 back to the nearest Sunday is defined |
| Derived.IsSubstituteHoliday | src/isNationalHoliday/index.ts:270-308 | isSubstituteHoliday: false before the start date and on Sundays, otherwise the result of the walk |
| Derived.SubstituteHolidayMeaning | src/isNationalHoliday/index.ts:270-308 | false before 1973-04-12 and on Sundays; otherwise true iff every day from D - 1 back to the nearest Sunday, that Sunday included, is defined |
| Derived.ChainMeaning | src/isNationalHoliday/index.ts:288-307 | the walk decides exactly Article 3 paragraph 2: some Sunday holiday is followed by holidays up to D - 1 |
| Derived.CitizensHolidayMeaning | src/isNationalHoliday/index.ts:315-343 | false on Sundays and defined holidays; otherwise true iff both D - 1 and D + 1 are defined |
| Derived.DerivedNeverSunday | src/isNationalHoliday/index.ts:285 | neither a substitute nor a citizens' holiday is ever a Sunday |
| Derived.DayAfterSundayHoliday | src/isNationalHoliday/index.ts:288-307 | the day after a Sunday defined holiday is a substitute holiday when not itself defined |
| Derived.NearestFollowingNonHoliday | src/isNationalHoliday/index.ts:288-307 | after a run of defined days starting on a Sunday, the first non-defined day is the substitute holiday |
| Derived.DerivedCongruence | src/isNationalHoliday/index.ts:270-343 | both derived kinds depend only on `defined` on the eight days up to the day after the date |
| Derived.DaysAfterInstant | src/isNationalHoliday/index.ts:297 | addDays(checkDate, -1) and the neighbours of isCitizensHoliday, from an instant outside the JST years 0 to 99, are the starts of the adjacent JST days |
| Derived.ReadBackWeekday | src/isNationalHoliday/index.ts:281-282 | createJstDate of a valid date outside the years 0 to 99 lies on that date's day, and getJstDay reads its weekday |
| Derived.HolidayOnDayMeaning | src/isNationalHoliday/index.ts:363-381 | the order defined, substitute, citizens decides exactly the reference reading of Articles 2 and 3 |
| Derived.IsHoliday | src/isNationalHoliday/index.ts:369-380 | the start-year check, then the defined test, the walk and the citizens' test compute the engine's holiday predicate |
| NationalHoliday.IsNationalHoliday | src/isNationalHoliday/index.ts:363-381 | isNationalHoliday reads the JST date and is true exactly for holidays by the Act on that day |
| NationalHoliday.NationalHolidayMeaning | src/isNationalHoliday/index.ts:363-381 | isNationalHoliday = defined ∨ substitute ∨ citizens on the input's JST day, from 1948 on |
| NationalHoliday.BeforeLawNoHoliday | src/isNationalHoliday/index.ts:368-369 | no date whose JST year is before 1948 is a holiday |
| NationalHoliday.DefinedIsNational | src/isNationalHoliday/index.ts:372-374 | a defined holiday from 1948 on is a national holiday whatever the derived rules say |
| NationalHoliday.SpecialsAreDefined | src/isNationalHoliday/index.ts:94-97 | every special date is a defined holiday, whatever the other rules say |
| NationalHoliday.SpecialKeys | src/isNationalHoliday/index.ts:94-97 | a date has a special key exactly when it is one of the six special dates |
| NationalHoliday.IsoDateInjective | src/isNationalHoliday/index.ts:94 | two dates from year 0 on with the same 'YYYY-MM-DD' key are the same date |
| NationalHoliday.OlympicYears | src/isNationalHoliday/index.ts:100-105 | in 2020 and 2021 the relocated Marine, Sports and Mountain Days are the only defined holidays of July, August and October |
| NationalHoliday.DefinedAwayFromSpecials | src/isNationalHoliday/index.ts:107-259 | away from the special dates isDefinedHoliday is the Olympic relocations and the month switch |
| NationalHoliday.SubstituteHolidayExample | src/getHolidayName2/index.ts:315-316 | 2025-02-23 is a Sunday holiday, so Monday 2025-02-24 is a substitute holiday |
| HolidayName2.HolidayNameFor | src/getHolidayName2/index.ts:322-339 | nothing before 1948; a defined name; else 休日 for a substitute or, from 1986, citizens' holiday |
| HolidayName2.GetHolidayName2 | src/getHolidayName2/index.ts:322-339 | getHolidayName2 returns the engine's name for the input's JST date |
| HolidayName2.SpecialTablesCoincide | src/getHolidayName2/index.ts:14-21 | the engine's special table is the one of rules.ts |
| HolidayName2.SpecialNameWins | src/getHolidayName2/index.ts:96-100 | on a special date the special name wins over every rule |
| HolidayName2.DefinedNameShape | src/getHolidayName2/index.ts:94-217 | every defined name is non-empty and none is 休日 |
| HolidayName2.DefinedAgree | src/getHolidayName2/index.ts:94-217 | getDefinedHolidayName gives a name exactly where isDefinedHoliday of the boolean engine holds |
| HolidayName2.MonthNamesAgree | src/isNationalHoliday/index.ts:107-259 | the month switch names a day exactly when the boolean engine's Olympic and month rules accept it |
| HolidayName2.NamedIffNational | src/getHolidayName2/index.ts:322-339 | getHolidayName2 names a civil date exactly when isNationalHoliday holds for it |
| HolidayName2.GetHolidayName2AgreesWithIsNationalHoliday | src/getHolidayName2/index.ts:322-339 | on every input, getHolidayName2 returns a name exactly when isNationalHoliday returns true |
| HolidayName2.BeforeLawNoName | src/getHolidayName2/index.ts:327-328 | nothing is named before 1948 |
| HolidayName2.DefinedNameWins | src/getHolidayName2/index.ts:331-332 | from 1948 on a defined name is returned as it is, never replaced by 休日 |
| HolidayName2.RestDayMeaning | src/getHolidayName2/index.ts:334-336 | 休日 is returned exactly for days from 1948 on with no defined name that are a substitute holiday or, from 1986, a citizens' holiday |
| HolidayName2.April29Names | src/getHolidayName2/index.ts:130-134 | 04-29 is 天皇誕生日 for 1949-1988, みどりの日 for 1989-2006 and 昭和の日 from 2007 |
| HolidayName2.OctoberNames | src/getHolidayName2/index.ts:186-201 | 10-10 is 体育の日 1966-1999; the 2nd Monday is 体育の日 2000-2018, 体育の日（スポーツの日） in 2019, スポーツの日 from 2022; nothing in 2020-2021 |
| HolidayName2.OlympicNames | src/getHolidayName2/index.ts:147-174 | 2020: 07-23 海の日, 07-24 スポーツの日, 08-10 山の日; 2021: 07-22, 07-23, 08-08; no other day of those months |
| HolidayName2.RestDayExample | src/getHolidayName2/index.ts:315-316 | 2025-02-24 is named 休日 |
| HolidayName2.SpecialNameExample | src/getHolidayName2/index.ts:18 | 2019-05-01 is named 休日（祝日扱い） |
| HolidayName.GetDefinedHolidayName | src/getHolidayName/index.ts:24-53 | the special lookup, the relocation loop and the rule loop, each returning on its first hit, compute the defined name |
| HolidayName.HolidayNameFor | src/getHolidayName/index.ts:228-245 | nothing before 1948; a defined name; else 休日 for a substitute or citizens' holiday as the ruleset allows |
| HolidayName.GetHolidayName | src/getHolidayName/index.ts:228-245 | getHolidayName returns the engine's name for the input's JST date |
| HolidayName.BeforeLawNoName | src/getHolidayName/index.ts:233-234 | nothing is named before 1948, whatever the rulesets say |
| HolidayName.SpecialWins | src/getHolidayName/index.ts:27-32 | a non-empty special name wins over relocations and all rules |
| HolidayName.FirstMovedMeaning | src/getHolidayName/index.ts:34-42 | the first relocation landing on (month, day), if any, gives the name |
| HolidayName.MovedBeforeRules | src/getHolidayName/index.ts:34-42 | a relocation landing on the date is returned before any rule is tried |
| HolidayName.MovedRuleNeverMatches | src/getHolidayName/index.ts:58-64 | a rule whose holiday the year relocated never matches, so it never fires on its usual date |
| HolidayName.MatchRuleMeaning | src/getHolidayName/index.ts:69-111 | fixed matches its month and day; happy Monday its month on the n-th weekday; equinox only March (vernal) or September (autumnal) on the computed day |
| HolidayName.HappyMondayMatchDay | src/getHolidayName/index.ts:88-95 | a happy-Monday match falls on the rule's weekday within the rule's week |
| HolidayName.FirstRuleWins | src/getHolidayName/index.ts:44-50 | when several rules fire, the first in ruleset order wins |
| HolidayName.NoRuleFires | src/getHolidayName/index.ts:44-52 | the rules give no name exactly when no rule fires |
| HolidayName.SubstituteNeedsStart | src/getHolidayName/index.ts:127-139 | a substitute holiday needs a non-null start date and a date on or after it |
| HolidayName.CitizensNeedEnabled | src/getHolidayName/index.ts:176-178 | a citizens' holiday needs citizensHolidayEnabled |
| HolidayName.RulesetSubstituteMeaning | src/getHolidayName/index.ts:126-168 | the substitute test is Article 3 paragraph 2 over the engine's own defined holidays, from the ruleset's start date |
| HolidayName.NamePrecedence | src/getHolidayName/index.ts:236-244 | a non-empty defined name is returned as it is; otherwise 休日 exactly for a substitute or citizens' holiday, and nothing else |
| HolidayName.AgreesWithIsNationalHoliday | src/getHolidayName/index.ts:228-245 | with rulesets defining the boolean engine's holidays and its start dates, getHolidayName names exactly the national holidays |
| Traversal.CountOnSplit | src/_internal/dateTraversal.ts:77-86 | counts of satisfying days over adjacent ranges add up |
| Traversal.FindNext | src/_internal/dateTraversal.ts:13-15 | current when p holds there, otherwise the first later JST day start where p holds, with none in between |
| Traversal.FindPrev | src/_internal/dateTraversal.ts:24-26 | current when p holds there, otherwise the nearest earlier JST day start where p holds, with none in between |
| Traversal.FindNextIndependent | src/_internal/dateTraversal.ts:13-15 | the day found does not depend on how far away the promised satisfying day was |
| Traversal.FindPrevIndependent | src/_internal/dateTraversal.ts:24-26 | the day found does not depend on how far back the promised satisfying day was |
| Traversal.Advance | src/_internal/dateTraversal.ts:36-46 | remaining <= 0 returns current; otherwise a p-day with exactly `remaining` p-days in (current, result] |
| Traversal.Rewind | src/_internal/dateTraversal.ts:56-66 | remaining <= 0 returns current; otherwise a p-day with exactly `remaining` p-days in [result, current) |
| Traversal.Count | src/_internal/dateTraversal.ts:77-86 | acc when current is after the target; otherwise acc plus the p-days from current's day to the target's day |
| Traversal.CountFromMidnight | src/_internal/dateTraversal.ts:77-86 | from a JST midnight, count is acc plus the p-days in [start day, target day] |
| Traversal.AdvanceOneIsFindNext | src/_internal/dateTraversal.ts:36-46 | advancing by one is finding from the next day on |
| Traversal.RewindOneIsFindPrev | src/_internal/dateTraversal.ts:56-66 | rewinding by one is finding from the previous day back |
| Traversal.RewindOneNearest | src/_internal/dateTraversal.ts:56-66 | rewinding by one skips no earlier day on which p holds |
| Traversal.AdvanceOneNearest | src/_internal/dateTraversal.ts:36-46 | advancing by one skips no later day on which p holds |
| Traversal.FindPrevNearest | src/_internal/dateTraversal.ts:24-26 | no p-day lies between the day findPrev finds and the start of the search |
| EndOf.GetEndOfWeek | src/_internal/getEndOfWeek.ts:25-30 | the result is a JST midnight on a Friday, from one day before to five days after the input's day |
| EndOf.EndOfWeekUnique | src/_internal/getEndOfWeek.ts:27-29 | that Friday is the only one in the window, so the bounds fix the result |
| EndOf.EndOfWeekWeekday | src/_internal/getEndOfWeek.ts:27-29 | Monday to Friday go to the Friday of the same week |
| EndOf.EndOfWeekSaturday | src/_internal/getEndOfWeek.ts:28 | Saturday goes to the Friday before |
| EndOf.EndOfWeekSunday | src/_internal/getEndOfWeek.ts:28 | Sunday goes to the Friday five days later |
| EndOf.EndOfWeekOfFriday | src/_internal/getEndOfWeek.ts:25-30 | a Friday is its own end of week |
| EndOf.EndOfWeekExample | src/_internal/getEndOfWeek.test.ts:53-59 | Monday 2025-01-27 ends its week on Friday 2025-01-31 |
| EndOf.DayZeroIsMonthEnd | src/_internal/getEndOfMonth.ts:26 | Date.UTC(year, month + 1, 0) - 9h is the start of the last JST day of that month of the year as Date.UTC reads it (0 to 99 as 1900 to 1999) |
| EndOf.GetEndOfMonth | src/_internal/getEndOfMonth.ts:22-27 | the result is a JST midnight on the last day of the getters' month, in the getters' year as Date.UTC reads it |
| EndOf.EndOfMonthBounds | src/_internal/getEndOfMonth.ts:23-26 | for an input whose JST year is not one of 0 to 99, the result keeps that year and month and is not before the input's day |
| EndOf.EndOfMonthShortYearExample | src/_internal/getEndOfMonth.ts:22-27 | '100-01-00' is 0099-12-31, and its month end is 1999-12-31 |
| EndOf.EndOfMonthOfCivil | src/_internal/getEndOfMonth.ts:22-27 | the month end of the start of a civil day is the last day of that month, the year read as Date.UTC reads it |
| EndOf.EndOfMonthSameMonth | src/_internal/getEndOfMonth.test.ts:44-52 | dates in the same JST month, first and last day included, share their month end |
| EndOf.EndOfMonthIdempotent | src/_internal/getEndOfMonth.ts:22-27 | applied to its own result, getEndOfMonth returns that result |
| EndOf.EndOfJanuaryExample | src/_internal/getEndOfMonth.test.ts:7-13 | 2025-01 ends on the 31st |
| EndOf.EndOfAprilExample | src/_internal/getEndOfMonth.test.ts:14-19 | 2025-04 ends on the 30th |
| EndOf.EndOfFebruary2025Example | src/_internal/getEndOfMonth.test.ts:21-27 | February 2025 ends on the 28th |
| EndOf.EndOfFebruary2024Example | src/_internal/getEndOfMonth.test.ts:28-33 | February 2024 ends on the 29th |
| Formatting.FormatDate | src/_internal/formatDate.ts:21-29 | strings are returned unchanged; an instant becomes the zero-padded 'Y-MM-DD' of the JST date toJstDate gives, which is its own JST date outside the years 0 to 99 |
| Formatting.FormatLocalDate | src/core.ts:25-33 | strings are returned unchanged; an instant's text reads back through toJstDate as its own host-local day from the year 100 on, and as the same month and day of 1900 + year in the years 0 to 99 |
| Formatting.LocalFormatIsJst | src/core.ts:29-31 | with the host in JST the two formatters agree on every string, and on an instant exactly when its JST year is not one of 0 to 99 |
| Formatting.FormatSameDay | src/_internal/formatDate.ts:25-28 | two instants on the same JST day are written alike |
| Formatting.FormatRoundTrip | src/_internal/formatDate.ts:25-28 | from year 0 on, toJstDate reads the text of an instant back as the start of its JST day |
| Formatting.FormatSeparatesDays | src/_internal/formatDate.ts:25-28 | from year 0 on, instants written alike have the same toJstDate, and lie on the same JST day when neither JST year is one of 0 to 99 |
| Formatting.FormatShortYearExample | src/_internal/formatDate.ts:25-28 | 0050-01-01 JST and 1950-01-01 JST are different days written alike |
| Formatting.FormatJstExample | src/_internal/formatDate.test.ts:10-14 | 2024-12-31T15:00Z is written '2025-01-01' |
| Formatting.FormatBoundaryExample | src/_internal/formatDate.test.ts:21-23 | 2025-01-01T15:00Z is already written '2025-01-02' |
| Formatting.LookupVerbatim | src/_internal/createIsHoliday.ts:32 | a string is looked up verbatim, without normalisation |
| Formatting.LookupOfInstant | src/_internal/createIsHoliday.ts:31-33 | isHoliday(d) of an instant holds exactly when the lookup has the text of the JST day toJstDate gives; outside the years 0 to 99 that is its own JST day and the core.ts variant gives the same answer |
| Formatting.LookupSameDay | src/_internal/createIsHoliday.ts:32 | two instants on the same JST day get the same answer |
| Formatting.LookupExample | src/_internal/createIsHoliday.test.ts:6-13 | a lookup of only '2025-01-01' is true for that date and false for '2025-01-02' |
| BusinessDays.WeekendByDayNumber | src/isWeekend/index.ts:19-22 | isWeekend holds exactly when the JST weekday is 0 or 6 |
| BusinessDays.HolidayMeaning | src/isHoliday/index.ts:44-46 | a weekend date is a holiday whatever `national` says; a national holiday is one; nothing else is |
| BusinessDays.NoWeekendBusinessDay | src/isBusinessDay/index.ts:22-24 | no weekend date and no national holiday is a business day |
| BusinessDays.BusinessOnDay | src/isBusinessDay/index.ts:22-24 | the start of JST day k is a business day exactly when it is a weekday that is no national holiday |
| BusinessDays.CountBusinessDaysMeaning | src/countBusinessDays/index.ts:25-41 | equal days count 1 or 0; otherwise the business days from the earlier to the later day, both included, negated when start is later |
| BusinessDays.CountBusinessDaysAntisymmetric | src/countBusinessDays/index.ts:35-40 | for different days, swapping start and end negates the count |
| BusinessDays.CountBusinessDaysBound | src/countBusinessDays/index.ts:38 | the count's absolute value never exceeds the calendar days in the range |
| BusinessDays.AddBusinessDays | src/addBusinessDays/index.ts:22-24 | days <= 0 gives the start of the input's day; otherwise a business day with exactly `days` business days in (start, result] |
| BusinessDays.SubBusinessDays | src/subBusinessDays/index.ts:22-24 | days <= 0 gives the start of the input's day; otherwise a business day with exactly `days` business days in [result, start) |
| BusinessDays.GetNextBusinessDay | src/getNextBusinessDay/index.ts:22-24 | a business day strictly after the input, with no business day in between |
| BusinessDays.GetPreviousBusinessDay | src/getPreviousBusinessDay/index.ts:22-24 | a business day strictly before the input, with no business day in between |
| BusinessDays.NextIsAddOne | src/getNextBusinessDay/index.ts:23 | the next business day is one business day added |
| BusinessDays.PreviousIsSubOne | src/getPreviousBusinessDay/index.ts:23 | the previous business day is one business day subtracted |
| BusinessDays.LastBusinessDayUpTo | src/getLastBusinessDayOfMonth/index.ts:23-26 | the day itself when a business day, else the previous business day: a business day on or before it with none in between |
| BusinessDays.LastUpToIndependent | src/getLastBusinessDayOfMonth/index.ts:23-26 | the day found does not depend on how far back the promised business day was |
| BusinessDays.GetLastBusinessDayOfMonth | src/getLastBusinessDayOfMonth/index.ts:21-27 | a business day on or before the month end with no business day between it and the month end |
| BusinessDays.LastOfMonthSameMonth | src/getLastBusinessDayOfMonth/index.ts:22 | every day of a JST month gives the same result |
| BusinessDays.GetLastBusinessDayOfWeek | src/getLastBusinessDayOfWeek/index.ts:42-48 | a business day on or before the week's Friday with no business day between it and that Friday |
| BusinessDays.AddFromFridayExample | src/addBusinessDays/index.test.ts:28-32 | Friday 2025-01-03 + 1 is Monday 2025-01-06 |
| BusinessDays.AddSkipsHolidayExample | src/addBusinessDays/index.test.ts:42-46 | 2024-12-31 + 1 skips 元日 and is 2025-01-02 |
| BusinessDays.SubSkipsHolidayExample | src/subBusinessDays/index.test.ts:53-58 | 2025-01-14 - 1 skips 成人の日 and the weekend and is 2025-01-10 |
| BusinessDays.NextBusinessDayExample | src/getNextBusinessDay/index.test.ts:42-47 | after 2025-01-10 comes 2025-01-14 |
| BusinessDays.PreviousBusinessDayExample | src/getPreviousBusinessDay/index.test.ts:18-22 | before Monday 2025-01-06 comes Friday 2025-01-03 |
| BusinessDays.CountHolidayExample | src/countBusinessDays/index.test.ts:43-47 | 2024-12-31..2025-01-02 holds two business days |
| BusinessDays.CountReversedExample | src/countBusinessDays/index.test.ts:64-67 | ('2025-01-09', '2025-01-06') counts -4 |
| BusinessDays.LastOfMonthExample | src/getLastBusinessDayOfMonth/index.test.ts:20-24 | May 2025 ends on a Saturday and its last business day is the 30th |
| BusinessDays.LastOfWeekExample | src/getLastBusinessDayOfWeek/index.test.ts:60-69 | with Thursday and Friday holidays the last business day of the week is Wednesday |
| HolidaysInRange.LessTransitive | src/getHolidaysInRange/index.ts:65 | JavaScript string order is transitive |
| HolidaysInRange.LessTotal | src/getHolidaysInRange/index.ts:70 | of two different strings one comes first |
| HolidaysInRange.InRangeEntriesMembers | src/getHolidaysInRange/index.ts:63-68 | a holiday is pushed exactly when its pair is an entry with startStr <= date <= endStr |
| HolidaysInRange.InRangeEntriesStep | src/getHolidaysInRange/index.ts:63-68 | one more entry is pushed exactly when its date is in range |
| HolidaysInRange.InRangeEntriesCount | src/getHolidaysInRange/index.ts:64-66 | each pushed holiday appears as often as its entry, with the entry's name |
| HolidaysInRange.ReversedBoundsEmpty | src/getHolidaysInRange/index.ts:65 | with start after end nothing is in range |
| HolidaysInRange.InsertSorted | src/getHolidaysInRange/index.ts:70 | inserting into a date-sorted sequence keeps it sorted |
| HolidaysInRange.Sort | src/getHolidaysInRange/index.ts:70 | the sort is a date-ordered permutation of its input |
| HolidaysInRange.SortedUnique | src/getHolidaysInRange/index.ts:70 | two date-sorted arrangements of the same distinct-date holidays are equal |
| HolidaysInRange.GetHolidaysInRange | src/getHolidaysInRange/index.ts:56-71 | the result is the in-range entries, bounds written with the JST formatDate, sorted by date |
| HolidaysInRange.PushInRange | src/getHolidaysInRange/index.ts:63-68 | the loop pushes exactly the entries whose date lies in range, in map order |
| HolidaysInRange.SortedInRangeMembers | src/getHolidaysInRange/index.ts:63-70 | the sorted result holds exactly the entries whose date is in range |
| HolidaysInRange.OrderIndependent | src/getHolidaysInRange/index.test.ts:89-103 | with distinct keys the result does not depend on the order of the map's entries |
| HolidaysInRange.OneDayRange | src/getHolidaysInRange/index.test.ts:29-34 | a one-day range holds exactly that day's entries |
| HolidaysInRange.AllBeforeEmpty | src/getHolidaysInRange/index.test.ts:24-27 | entries all before the range give nothing |
| HolidaysInRange.UnorderedExample | src/getHolidaysInRange/index.test.ts:89-103 | entries in reverse date order come out in date order |
| Json.QuoteRoundTrip | scripts/generate-holidays.ts:62-65 | reading back a JSON string literal gives the string and the rest of the text |
| Json.QuoteInjective | scripts/generate-holidays.ts:62-65 | different strings have different JSON literals |
| Json.ArrayRoundTrip | scripts/generate-holidays.ts:62-65 | JSON.stringify of an array of strings reads back as that array |
| Json.ObjectRoundTrip | scripts/generate-holidays.ts:82-85 | JSON.stringify of an object of string members reads back as those members in order |
| GenerateHolidays.TrimOf | scripts/generate-holidays.ts:37 | trim removes exactly the leading and trailing white space |
| GenerateHolidays.FormatCsvDateOf | scripts/generate-holidays.ts:19-22 | 'Y/M/D' becomes 'Y-MM-DD' with month and day padded to two digits |
| GenerateHolidays.CsvDateIsIsoDate | scripts/generate-holidays.ts:19-22 | the unpadded CSV date of a civil date becomes that date's 'YYYY-MM-DD' key |
| GenerateHolidays.CsvDateExtraFields | scripts/generate-holidays.ts:20 | only the first three '/'-separated fields of the date are used |
| GenerateHolidays.CsvDateExamples | scripts/generate-holidays.test.ts:42-64 | two-digit months and days stay and one-digit ones are padded |
| GenerateHolidays.ParseLineTwoFields | scripts/generate-holidays.ts:42 | only the first two comma-separated fields of a line are used |
| GenerateHolidays.ParseLineWithoutName | scripts/generate-holidays.ts:42-43 | a line without a comma gives a record with no name |
| GenerateHolidays.BlankLineDropped | scripts/generate-holidays.ts:40 | a line that trims to nothing is dropped |
| GenerateHolidays.NonBlankAppend | scripts/generate-holidays.ts:40 | dropping blank lines from a concatenation concatenates the filtered parts |
| GenerateHolidays.HeaderDropped | scripts/generate-holidays.ts:39 | the first line is dropped and the rest are parsed in order |
| GenerateHolidays.HeaderOnly | scripts/generate-holidays.ts:37-39 | a trimmed text with no line break is only the header, which slice(1) drops: no records |
| GenerateHolidays.ParseCsvOneRecord | scripts/generate-holidays.test.ts:10-13 | a header and one 'Y/M/D,name' line give that one record, its date padded, with or without a trailing newline |
| GenerateHolidays.TrailingNewlineIgnored | scripts/generate-holidays.ts:37 | a trailing newline does not change the records |
| GenerateHolidays.ParseCsvTwoRecords | scripts/generate-holidays.test.ts:16-24 | a header and two record lines give the two records in order |
| GenerateHolidays.ParseCsvBlankLineSkipped | scripts/generate-holidays.test.ts:27-40 | a blank line between records is skipped |
| GenerateHolidays.SplitTwoLines | scripts/generate-holidays.ts:37 | two lines joined by a line break split back into the two lines |
| GenerateHolidays.SplitBlankBetween | scripts/generate-holidays.ts:37 | an empty line between two lines becomes an empty piece between them |
| GenerateHolidays.HolidayDatesJsonMeaning | scripts/generate-holidays.ts:62-65 | the dates file is a JSON array of the dates in input order; no records give '[]' |
| GenerateHolidays.HolidayDatesJsonTwo | scripts/generate-holidays.test.ts:68-84 | two records give their two quoted dates in order |
| GenerateHolidays.FromEntriesKeys | scripts/generate-holidays.ts:83 | Object.fromEntries has exactly the entries' dates as keys |
| GenerateHolidays.FromEntriesLast | scripts/generate-holidays.ts:83 | each property holds the name of the last entry with its date: a repeated date's last name wins |
| GenerateHolidays.HolidayNamesJsonMeaning | scripts/generate-holidays.ts:82-85 | the names file is a JSON object of the defined properties in order; no records give '{}' |
| GenerateHolidays.HolidayNamesJsonOfDistinct | scripts/generate-holidays.ts:82-85 | with distinct dates and every name given, the names file maps each date to its name in input order |
| GenerateHolidays.HolidayNamesJsonTwo | scripts/generate-holidays.test.ts:93-109 | two named records with different dates give two members in order |
| CheckAllTest.ParseInt10Prefix | scripts/generate-check-all-test.ts:14 | parseInt of digits followed by a non-digit reads the digits |
| CheckAllTest.ParseInt10NaN | scripts/generate-check-all-test.ts:14 | parseInt of text starting with a character that is no digit, white space or sign is NaN |
| CheckAllTest.YearOfIsoDate | scripts/generate-check-all-test.ts:14 | the year read from the first four characters of a four-digit-year date is that year |
| CheckAllTest.YearOfDigitsPrefix | scripts/generate-check-all-test.ts:14 | a date starting with four digits yields the number they spell |
| CheckAllTest.YearOfCsvDate | scripts/generate-check-all-test.ts:14 | the same holds for a date as parseCsv writes it |
| CheckAllTest.GetLastYear | scripts/generate-check-all-test.ts:11-20 | the for-of loop computes LastYear: the largest year read, or 0 when no year exceeds 0 |
| CheckAllTest.ReadYear | scripts/generate-check-all-test.ts:14 | a date starting with four digits yields their value; one starting with neither a digit, white space nor a sign yields NaN |
| CheckAllTest.MaxYearStep | scripts/generate-check-all-test.ts:15-17 | one more year raises the running maximum to it when larger |
| CheckAllTest.MaxYearBoundAt | scripts/generate-check-all-test.ts:15-17 | no year in the list exceeds the running maximum at the end |
| CheckAllTest.MaxYearAttained | scripts/generate-check-all-test.ts:15-17 | a maximum other than 0 is one of the years in the list |
| CheckAllTest.LastYearUpperBound | scripts/generate-check-all-test.ts:13-18 | getLastYear is at least the year of every holiday |
| CheckAllTest.LastYearAttained | scripts/generate-check-all-test.ts:15-17 | a positive result is the year of some holiday |
| CheckAllTest.LastYearIsMax | scripts/generate-check-all-test.ts:11-20 | a holiday whose non-negative year bounds every other year is the result |
| CheckAllTest.GetDaysInMonthValue | scripts/generate-check-all-test.ts:53-55 | new Date(year, month, 0).getDate() is the length of the month (years 0..99 read as 1900..1999) |
| CheckAllTest.YearZeroFebruary | scripts/generate-check-all-test.ts:53-55 | for year 0 it gives 28 days for February, while the proleptic calendar has 29 |
| CheckAllTest.AdvanceDay | scripts/generate-check-all-test.ts:79-87 | the loop's increment moves to the next civil day |
| CheckAllTest.GenerateDateRange | scripts/generate-check-all-test.ts:60-89 | the loop produces the dates of every day from start to end, in order |
| CheckAllTest.CivilRangeStep | scripts/generate-check-all-test.ts:72-87 | a day not past the end is emitted and the walk continues from the next day |
| CheckAllTest.NotPastDays | scripts/generate-check-all-test.ts:72-76 | the loop condition holds exactly when the day number is not past the end's |
| CheckAllTest.CivilRangeLength | scripts/generate-check-all-test.ts:60-89 | the walk has one date per day from start to end, none when end is before start |
| CheckAllTest.CivilRangeExact | scripts/generate-check-all-test.ts:60-89 | the walk visits exactly the valid dates between start and end, each at its day offset |
| CheckAllTest.CheckAllRangeEnds | scripts/generate-check-all-test.ts:92-95 | the test visits 1955-01-01 through lastYear-12-31, nothing when lastYear is before 1955 |
| CheckAllTest.ErrorsEmpty | scripts/generate-check-all-test.ts:96-108 | no error is recorded exactly when isNationalHoliday agrees with the set on every visited date |
| CheckAllTest.RangeAgreesWhenNoErrors | scripts/generate-check-all-test.ts:96-108 | over any range, an empty error list means every valid date in the range agrees with the set |
| CheckAllTest.RangeErrorWitness | scripts/generate-check-all-test.ts:96-108 | over any range, a recorded error names a valid date in the range that disagrees |
| CheckAllTest.CheckAllPassesMeaning | scripts/generate-check-all-test.ts:95-108 | the test passes exactly when isNationalHoliday agrees with the embedded dates on every date from 1955-01-01 to lastYear-12-31 |
| CheckAllTest.TestFileEmbedsDates | scripts/generate-check-all-test.ts:26-41 | the file embeds the dates as a JSON array, in input order, that reads back as those dates |
| CheckAllTest.TestFileYearText | scripts/generate-check-all-test.ts:92 | the last year is written in decimal and reads back as itself |

## Left out

- I/O is not modelled: fetching the CSV, its Shift_JIS decoding, writing the file, and `generate()` with its `process.exit` in scripts/generate-check-all-test.ts:117-143. scripts/generate-holidays.ts does no I/O.
- fetchCsv: scripts/generate-check-all-test.ts:4 imports `fetchCsv` from scripts/generate-holidays.ts, which does not export it (its exports are `Holiday`, `parseCsv`, `generateHolidayDatesJson` and `generateHolidayNamesJson`). The model takes the CSV text as a parameter, so the missing fetch is not needed.
- Equinox.EquinoxFormula: uses exact rational arithmetic, not IEEE-754 doubles. With six-decimal constants the exact value is never an integer for 1900-2099, so the floors agree.
- The host time zone is taken to be JST. `setDate` in addDays and the host-local getters of `formatDate` in core.ts read the host's local day; the model's local day is the JST day.
- Dates are integers with no upper or lower limit. The ECMAScript time-value range (±8.64e15 ms) and NaN dates are not modelled.
- Jst.ToJstDate: requires a string whose first three '-'-fields are non-empty runs of ASCII digits; other strings are not modelled. `Number` in src/_internal/jst.ts:47 reads some of them as real dates (an empty field as 0, so '2025--01' is JST 2024-12-01; surrounding white space, a sign, a '0x' prefix or an exponent) and the rest as NaN. The same requirement is on the getters, IsNationalHoliday, GetHolidayName and GetHolidayName2. Its own ensures for an instant covers days from 0100-01-01 on; for earlier instants Jst.ToJstDateOfInstant and Jst.ToJstDateOfShortYearInstant state the result.
- getRulesetForYear is not part of this model. The ruleset-driven engine takes the ruleset of each year as a parameter with only the fields the engine reads.
- jstGetters.ts is not part of this model; getEndOfMonth uses the getters of jst.ts.
- BusinessDays.IsHoliday: src/isBusinessDay/index.ts:2 imports `isHoliday` from src/isHoliday/index.ts, which exports only the factory `createIsHoliday` (src/isHoliday/index.ts:22); the `isHoliday` that src/full.ts:8 and src/light.ts:8 export is a different function, a lookup by date text that ignores weekends. The model gives the missing import the behaviour that the doc comment and examples of src/isBusinessDay/index.ts:4-20 describe, `createIsHoliday(isWeekend, national)`: weekend or national holiday. The national-holiday predicate stays a parameter (`national`), so the business-day functions hold for whichever one is wired in; the source does not say which.
- CheckAllTest.CheckAllPasses: `isNationalHoliday` is a parameter here too.
- Traversal.FindNext: findNext and findPrev require a satisfying day within a given horizon; where the source would recurse forever (no satisfying day) the model has no result. The JavaScript recursion depth is not modelled.
- Traversal.FindNext: the days walked over must lie on or after 0100-01-01. Below that, an addDays step from a JST day of the years 0 to 99 jumps into the 1900s (AddDays.DaysAfterComposeShortYearExample), and the walks are not modelled there.
- Traversal.FindPrev: same restriction as Traversal.FindNext above.
- Traversal.Advance: same restriction as Traversal.FindNext above.
- Traversal.Rewind: same restriction as Traversal.FindNext above.
- Traversal.Count: same restriction as Traversal.FindNext above.
- BusinessDays.CountBusinessDays: both inputs' JST days must lie on or after 0100-01-01, for the reason given at Traversal.FindNext.
- BusinessDays.AddBusinessDays: the input's JST day and the horizon must lie on or after 0100-01-01, for the reason given at Traversal.FindNext. The same holds for BusinessDays.SubBusinessDays, GetNextBusinessDay, GetPreviousBusinessDay, LastBusinessDayUpTo, GetLastBusinessDayOfMonth and GetLastBusinessDayOfWeek.
- BusinessDays.LastBusinessDayUpTo: the input day and the horizon must lie on or after 0100-01-01, because the findPrev walk it uses is stated only there (see Traversal.FindNext).
- BusinessDays.SubBusinessDays: restricted to days from 0100-01-01 on, as BusinessDays.AddBusinessDays.
- BusinessDays.GetNextBusinessDay: restricted to days from 0100-01-01 on, as BusinessDays.AddBusinessDays.
- BusinessDays.GetPreviousBusinessDay: restricted to days from 0100-01-01 on, as BusinessDays.AddBusinessDays.
- BusinessDays.GetLastBusinessDayOfMonth: restricted to days from 0100-01-01 on, as BusinessDays.AddBusinessDays.
- BusinessDays.GetLastBusinessDayOfWeek: src/getLastBusinessDayOfWeek/index.ts:2-3 imports createIsBusinessDay and createGetPreviousBusinessDay, which src/isBusinessDay/index.ts:22 and src/getPreviousBusinessDay/index.ts:22 do not export. The model gives them the behaviour their tests expect (src/isBusinessDay/index.test.ts, src/getPreviousBusinessDay/index.test.ts): a business day is a weekday whose JST text is not in the lookup (BusinessAt(LookupChecker(holidayDates))), and the previous business day is findPrev over that predicate. It is also restricted to days from 0100-01-01 on, as BusinessDays.AddBusinessDays.
- HolidayName.GetHolidayName: src/getHolidayName/index.ts:8 imports getNthWeekday from src/_internal/jst.ts, which does not export it. The model uses the getNthWeekday of src/isNationalHoliday/index.ts:30-47 (NthWeekday.NthWeekday), the behaviour src/_internal/jst.test.ts:173-216 expects.
- HolidayName.HolidayNameFor: its ensures covers years before 1948 and valid dates, which is every date the JST getters pass it.
- HolidayName2.HolidayNameFor: its ensures covers years before 1948 and valid dates, which is every date the JST getters pass it.
- Derived.IsSubstituteHoliday: equal to the specification on valid dates outside the years 0 to 99 (Derived.ReadBackDate), and false before the start date on any input. For other dates createJstDate would land on a day of the 1900s or normalise the date. The engines only pass it a date the getters read, from 1948 on.
- Derived.IsHoliday: equal to the specification before the law's start year and on valid dates outside the years 0 to 99, for the reason given at Derived.IsSubstituteHoliday.
- Derived.DaysAfterInstant: stated for instants outside the JST years 0 to 99; the walk and the neighbours of isCitizensHoliday only reach such days from 1948 on.
- NthWeekday.NthWeekday: the weekday of the first of the month is that of MakeDay(year, month - 1, 1). For a year from 0 to 99, getJstDay(createJstDate(year, month - 1, 1)) would read the first of the month in 1900 + year (NthWeekday.FirstWeekdayIsJstDay). The engines only call it from 1948 on.
- EndOf.EndOfMonthBounds: requires the input's JST year to be outside 0 to 99. For those years getEndOfMonth returns the month end in 1900 + year (EndOf.EndOfMonthShortYearExample), which EndOf.GetEndOfMonth's own ensures states.
- Formatting.FormatSeparatesDays: the same-day conclusion needs both JST years outside 0 to 99; 0050-01-01 and 1950-01-01 JST are written alike (Formatting.FormatShortYearExample).
- Calendar.CivilOfMakeDay: states ECMAScript's MakeDay alone. The reading of the years 0 to 99 that Date.UTC applies first is stated by Jst.CreateJstDateDay.
- Calendar.MakeDayOfCivil: states ECMAScript's MakeDay alone. createJstDate's reading of the years 0 to 99 is stated by Jst.RereadDayAsWritten.
- HolidaysInRange.Less: strings are sequences of Unicode code points, so `<` here is code-point order, while JavaScript compares UTF-16 code units; the two agree on text without characters beyond U+FFFF, which covers the 'YYYY-MM-DD' keys and the CSV. `substring(0, 4)` (CheckAllTest.Substring4) and the padStart lengths count code points for the same reason. `localeCompare` in the sort is modelled by the same order, which agrees with it on the 'YYYY-MM-DD' keys.
- HolidaysInRange.Sort: Array.prototype.sort is modelled as a stable insertion sort on a sequence, not as the engine's in-place algorithm; with distinct dates the result is the same.
- The holiday-name map is a sequence of (date, name) entries; JavaScript's ordering of integer-like object keys is not modelled.
- Json.Escape: escapes as JSON.stringify does for the characters in the data; lone surrogates, which JSON.stringify writes as \u escapes, are not modelled.
- GenerateHolidays.HolidayNamesJson: an entry with an undefined name is left out of the JSON text, as JSON.stringify does; the names of such entries are not otherwise modelled.
- CheckAllTest.ParseInt10: parseInt is modelled for radix 10 only, the radix the script passes.
- CheckAllTest.GenerateDateRange: requires a start year of 1 or more. The Date constructor reads years 0..99 as 1900..1999, so from year 0 the walk would use 1900's month lengths (see CheckAllTest.YearZeroFebruary).
- The text of the generated test file outside the embedded dates and years is held verbatim as a constant and not reasoned about; the assertion messages it prints are not modelled.
- The entry-point files src/full.ts, src/light.ts and src/index.ts, the empty data tables under src/data/ and the type declarations in src/types.ts are wiring only and are not modelled.
- Tests that call factory APIs missing from the source (createIsBusinessDay, createGetPreviousBusinessDay and others) are used only as date examples.
