/**
 * getHolidayName: the naming engine driven by a ruleset per year. For a date
 * it tries the ruleset's specials, then its Olympic relocations, then its
 * rules in order; the substitute and citizens' holidays follow the ruleset's
 * policy and are both named 休日. Which ruleset applies to a year is a
 * parameter of the model (`rulesetFor`), since the table that chooses it is
 * not part of the model.
 */
module HolidayName {
  import opened Wrappers
  import opened Calendar
  import opened Jst
  import opened Rules
  import opened Equinox
  import NthWeekday
  import opened Derived
  import NationalHoliday

  datatype EquinoxKind = Vernal | Autumnal

  /** One rule of a ruleset: a fixed date, the n-th weekday of a month, or an equinox day. */
  datatype HolidayRule =
    | Fixed(name: string, month: int, day: int)
    | HappyMonday(name: string, month: int, weekday: int, n: int)
    | Equinox(name: string, kind: EquinoxKind)

  /** A holiday the Olympic relocation moved to (month, day). */
  datatype MovedHoliday = MovedHoliday(name: string, month: int, day: int)

  /**
   * The fields of a ruleset the engine reads; `None` stands for the source's
   * null Olympic list and null substitute start date.
   */
  datatype Ruleset = Ruleset(
    specials: map<string, string>,
    olympicException: Option<seq<MovedHoliday>>,
    rules: seq<HolidayRule>,
    substituteHolidayStart: Option<YearMonthDay>,
    citizensHolidayEnabled: bool)

  const RestDayName := "休日"

  /** isMovedByOlympicException: some relocated holiday of the year has this name. */
  predicate IsMovedByOlympicException(name: string, olympicException: Option<seq<MovedHoliday>>) {
    olympicException.Some? &&
    exists i :: 0 <= i < |olympicException.value| && olympicException.value[i].name == name
  }

  /** matchRule: the rule's name when it applies to the date and its holiday was not relocated. */
  function MatchRule(rule: HolidayRule, year: int, month: int, day: int, olympicException: Option<seq<MovedHoliday>>)
    : Option<string>
  {
    if IsMovedByOlympicException(rule.name, olympicException) then None
    else
      match rule
      case Fixed(name, m, d) =>
        if m == month && d == day then Some(name) else None
      case HappyMonday(name, m, weekday, n) =>
        if m == month && day == NthWeekday.NthWeekday(year, m, weekday, n) then Some(name) else None
      case Equinox(name, kind) =>
        if kind == Vernal && month == 3 then (if day == VernalEquinoxDay(year) then Some(name) else None)
        else if kind == Autumnal && month == 9 then (if day == AutumnalEquinoxDay(year) then Some(name) else None)
        else None
  }

  /** The name of the first relocated holiday that lands on (month, day). */
  function FirstMoved(moved: seq<MovedHoliday>, month: int, day: int): Option<string>
    decreases |moved|
  {
    if |moved| == 0 then None
    else if month == moved[0].month && day == moved[0].day then Some(moved[0].name)
    else FirstMoved(moved[1..], month, day)
  }

  /** The non-empty name of the first rule that matches the date. */
  function FirstRuleMatch(rules: seq<HolidayRule>, year: int, month: int, day: int,
                          olympicException: Option<seq<MovedHoliday>>): Option<string>
    decreases |rules|
  {
    if |rules| == 0 then None
    else
      var name := MatchRule(rules[0], year, month, day, olympicException);
      if name.Some? && name.value != "" then name
      else FirstRuleMatch(rules[1..], year, month, day, olympicException)
  }

  /** getDefinedHolidayName with the year's ruleset: a non-empty special name, a relocation, then the rules. */
  function DefinedNameIn(ruleset: Ruleset, year: int, month: int, day: int): Option<string> {
    var key := IsoDate(Civil(year, month, day));
    if key in ruleset.specials && ruleset.specials[key] != "" then Some(ruleset.specials[key])
    else if ruleset.olympicException.Some? && FirstMoved(ruleset.olympicException.value, month, day).Some? then
      FirstMoved(ruleset.olympicException.value, month, day)
    else FirstRuleMatch(ruleset.rules, year, month, day, ruleset.olympicException)
  }

  /** isDefinedHoliday: getDefinedHolidayName, with the ruleset of the date's own year, gives a name. */
  function DefinedDaysOf(rulesetFor: int -> Ruleset): (int, int, int) -> bool {
    (y, m, d) => DefinedNameIn(rulesetFor(y), y, m, d).Some?
  }

  /** isSubstituteHoliday: only with a substitute start date in the year's ruleset. */
  predicate RulesetSubstitute(rulesetFor: int -> Ruleset, year: int, month: int, day: int) {
    var start := rulesetFor(year).substituteHolidayStart;
    start.Some? && SubstituteHolidayOn(DefinedDaysOf(rulesetFor), start.value, year, month, day)
  }

  /** isCitizensHoliday: only when the year's ruleset enables citizens' holidays. */
  predicate RulesetCitizens(rulesetFor: int -> Ruleset, year: int, month: int, day: int) {
    rulesetFor(year).citizensHolidayEnabled && CitizensHolidayOn(DefinedDaysOf(rulesetFor), year, month, day)
  }

  /** getHolidayName after the getters have read the JST year, month and day. */
  function HolidayNameOnCivil(rulesetFor: int -> Ruleset, year: int, month: int, day: int): Option<string> {
    if year < HolidayLawStartYear then None
    else
      var name := DefinedNameIn(rulesetFor(year), year, month, day);
      if name.Some? && name.value != "" then name
      else if RulesetSubstitute(rulesetFor, year, month, day) then Some(RestDayName)
      else if RulesetCitizens(rulesetFor, year, month, day) then Some(RestDayName)
      else None
  }

  /** getHolidayName(date) as a function of the input. */
  function HolidayNameOf(rulesetFor: int -> Ruleset, date: DateInput): Option<string>
    requires ValidInput(date)
  {
    HolidayNameOnCivil(rulesetFor, GetJstFullYear(date), GetJstMonth(date) + 1, GetJstDate(date))
  }

  /**
   * getDefinedHolidayName as written: the special lookup, then a loop over
   * the relocations and a loop over the rules, each returning on the first hit.
   */
  method GetDefinedHolidayName(ruleset: Ruleset, year: int, month: int, day: int) returns (name: Option<string>)
    ensures name == DefinedNameIn(ruleset, year, month, day)
  {
    var key := IsoDate(Civil(year, month, day));
    if key in ruleset.specials && ruleset.specials[key] != "" {
      return Some(ruleset.specials[key]);
    }
    if ruleset.olympicException.Some? {
      var moved := ruleset.olympicException.value;
      var i := 0;
      while i < |moved|
        invariant 0 <= i <= |moved|
        invariant FirstMoved(moved, month, day) == FirstMoved(moved[i..], month, day)
      {
        assert moved[i..][1..] == moved[i + 1..];
        if month == moved[i].month && day == moved[i].day {
          return Some(moved[i].name);
        }
        i := i + 1;
      }
    }
    var rules := ruleset.rules;
    var j := 0;
    while j < |rules|
      invariant 0 <= j <= |rules|
      invariant DefinedNameIn(ruleset, year, month, day) == FirstRuleMatch(rules[j..], year, month, day, ruleset.olympicException)
    {
      assert rules[j..][1..] == rules[j + 1..];
      var ruleName := MatchRule(rules[j], year, month, day, ruleset.olympicException);
      if ruleName.Some? && ruleName.value != "" {
        return ruleName;
      }
      j := j + 1;
    }
    return None;
  }

  /**
   * getHolidayName once the JST date is read: nothing before 1948, a defined
   * name, else 休日 for a substitute holiday (by the backward walk) or a
   * citizens' holiday, each only as the year's ruleset allows.
   */
  method HolidayNameFor(rulesetFor: int -> Ruleset, year: int, month: int, day: int) returns (name: Option<string>)
    ensures year < HolidayLawStartYear || ValidCivil(Civil(year, month, day)) ==>
      name == HolidayNameOnCivil(rulesetFor, year, month, day)
  {
    if year < HolidayLawStartYear {
      return None;
    }
    var holidayName := GetDefinedHolidayName(rulesetFor(year), year, month, day);
    if holidayName.Some? && holidayName.value != "" {
      return holidayName;
    }
    var start := rulesetFor(year).substituteHolidayStart;
    if start.Some? {
      var substitute := IsSubstituteHoliday(DefinedDaysOf(rulesetFor), start.value, year, month, day);
      if substitute {
        return Some(RestDayName);
      }
    }
    if rulesetFor(year).citizensHolidayEnabled && CitizensHolidayOn(DefinedDaysOf(rulesetFor), year, month, day) {
      return Some(RestDayName);
    }
    return None;
  }

  /** getHolidayName(date): read the JST year, month and day, then name the date. */
  method GetHolidayName(rulesetFor: int -> Ruleset, date: DateInput) returns (name: Option<string>)
    requires ValidInput(date)
    ensures name == HolidayNameOf(rulesetFor, date)
  {
    var year := GetJstFullYear(date);
    var month := GetJstMonth(date) + 1;
    var day := GetJstDate(date);
    GettersReadJstDay(date);
    name := HolidayNameFor(rulesetFor, year, month, day);
  }

  // Properties.

  /** Nothing is named before 1948, whatever the rulesets say. */
  lemma BeforeLawNoName(rulesetFor: int -> Ruleset, year: int, month: int, day: int)
    requires year < HolidayLawStartYear
    ensures HolidayNameOnCivil(rulesetFor, year, month, day) == None
  {
  }

  /** A non-empty special name for the date wins over the relocations and every rule. */
  lemma SpecialWins(ruleset: Ruleset, year: int, month: int, day: int)
    requires var key := IsoDate(Civil(year, month, day)); key in ruleset.specials && ruleset.specials[key] != ""
    ensures DefinedNameIn(ruleset, year, month, day) == Some(ruleset.specials[IsoDate(Civil(year, month, day))])
  {
  }

  /** FirstMoved finds the first relocation landing on (month, day), if there is one. */
  lemma {:induction false} FirstMovedMeaning(moved: seq<MovedHoliday>, month: int, day: int)
    ensures FirstMoved(moved, month, day).None? <==>
      forall i :: 0 <= i < |moved| ==> !(moved[i].month == month && moved[i].day == day)
    ensures FirstMoved(moved, month, day).Some? ==>
      exists i :: 0 <= i < |moved| && moved[i].month == month && moved[i].day == day &&
        FirstMoved(moved, month, day) == Some(moved[i].name) &&
        forall j :: 0 <= j < i ==> !(moved[j].month == month && moved[j].day == day)
    decreases |moved|
  {
    if |moved| > 0 {
      FirstMovedMeaning(moved[1..], month, day);
      if !(moved[0].month == month && moved[0].day == day) {
        if FirstMoved(moved[1..], month, day).Some? {
          var i :| 0 <= i < |moved[1..]| && moved[1..][i].month == month && moved[1..][i].day == day &&
            FirstMoved(moved[1..], month, day) == Some(moved[1..][i].name) &&
            forall j :: 0 <= j < i ==> !(moved[1..][j].month == month && moved[1..][j].day == day);
          assert moved[i + 1] == moved[1..][i];
          forall j | 0 <= j < i + 1
            ensures !(moved[j].month == month && moved[j].day == day)
          {
            if j > 0 {
              assert moved[j] == moved[1..][j - 1];
            }
          }
        } else {
          forall i | 0 <= i < |moved|
            ensures !(moved[i].month == month && moved[i].day == day)
          {
            if i > 0 {
              assert moved[i] == moved[1..][i - 1];
            }
          }
        }
      }
    }
  }

  /**
   * A relocation of the year that lands on the date is returned before any
   * rule is tried, unless a non-empty special name comes first.
   */
  lemma MovedBeforeRules(ruleset: Ruleset, year: int, month: int, day: int, i: int)
    requires ruleset.olympicException.Some?
    requires var moved := ruleset.olympicException.value;
      0 <= i < |moved| && moved[i].month == month && moved[i].day == day &&
      forall j :: 0 <= j < i ==> !(moved[j].month == month && moved[j].day == day)
    requires var key := IsoDate(Civil(year, month, day)); !(key in ruleset.specials && ruleset.specials[key] != "")
    ensures DefinedNameIn(ruleset, year, month, day) == Some(ruleset.olympicException.value[i].name)
  {
    var moved := ruleset.olympicException.value;
    FirstMovedMeaning(moved, month, day);
    var k :| 0 <= k < |moved| && moved[k].month == month && moved[k].day == day &&
      FirstMoved(moved, month, day) == Some(moved[k].name) &&
      forall j :: 0 <= j < k ==> !(moved[j].month == month && moved[j].day == day);
    assert k == i;
  }

  /** A rule whose holiday the year relocated never matches, so it never fires on its usual date. */
  lemma MovedRuleNeverMatches(rule: HolidayRule, year: int, month: int, day: int, olympicException: Option<seq<MovedHoliday>>)
    requires IsMovedByOlympicException(rule.name, olympicException)
    ensures MatchRule(rule, year, month, day, olympicException) == None
  {
  }

  /**
   * matchRule for a rule whose holiday was not relocated: a fixed rule on its
   * month and day, a happy-Monday rule on the n-th weekday of its month, an
   * equinox rule on the computed day of March (vernal) or September
   * (autumnal); the answer is always the rule's name.
   */
  lemma MatchRuleMeaning(rule: HolidayRule, year: int, month: int, day: int, olympicException: Option<seq<MovedHoliday>>)
    requires !IsMovedByOlympicException(rule.name, olympicException)
    ensures MatchRule(rule, year, month, day, olympicException).Some? ==>
      MatchRule(rule, year, month, day, olympicException).value == rule.name
    ensures rule.Fixed? ==>
      (MatchRule(rule, year, month, day, olympicException).Some? <==> month == rule.month && day == rule.day)
    ensures rule.HappyMonday? ==>
      (MatchRule(rule, year, month, day, olympicException).Some? <==>
       month == rule.month && day == NthWeekday.NthWeekday(year, rule.month, rule.weekday, rule.n))
    ensures rule.Equinox? ==>
      (MatchRule(rule, year, month, day, olympicException).Some? <==>
       (rule.kind == Vernal && month == 3 && day == VernalEquinoxDay(year)) ||
       (rule.kind == Autumnal && month == 9 && day == AutumnalEquinoxDay(year)))
  {
  }

  /** A happy-Monday match falls on the rule's weekday, within the rule's week of the month. */
  lemma HappyMondayMatchDay(rule: HolidayRule, year: int, month: int, day: int, olympicException: Option<seq<MovedHoliday>>)
    requires rule.HappyMonday? && 0 <= rule.weekday < 7
    requires MatchRule(rule, year, month, day, olympicException).Some?
    ensures Weekday(MakeDay(year, month - 1, day)) == rule.weekday
    ensures 7 * rule.n - 6 <= day <= 7 * rule.n
  {
    NthWeekday.NthWeekdayInWeek(year, rule.month, rule.weekday, rule.n);
  }

  /** The rule at index i gives a non-empty name for the date. */
  predicate Fires(rules: seq<HolidayRule>, i: int, year: int, month: int, day: int, olympicException: Option<seq<MovedHoliday>>)
    requires 0 <= i < |rules|
  {
    var name := MatchRule(rules[i], year, month, day, olympicException);
    name.Some? && name.value != ""
  }

  /** When several rules fire, the first in the list wins; when none fires there is no name. */
  lemma {:induction false} FirstRuleWins(rules: seq<HolidayRule>, year: int, month: int, day: int,
                                         olympicException: Option<seq<MovedHoliday>>, i: int)
    requires 0 <= i < |rules| && Fires(rules, i, year, month, day, olympicException)
    requires forall j :: 0 <= j < i ==> !Fires(rules, j, year, month, day, olympicException)
    ensures FirstRuleMatch(rules, year, month, day, olympicException) == MatchRule(rules[i], year, month, day, olympicException)
    decreases i
  {
    if i > 0 {
      assert !Fires(rules, 0, year, month, day, olympicException);
      forall j | 0 <= j < i - 1
        ensures !Fires(rules[1..], j, year, month, day, olympicException)
      {
        assert !Fires(rules, j + 1, year, month, day, olympicException);
      }
      FirstRuleWins(rules[1..], year, month, day, olympicException, i - 1);
    }
  }

  /** No rule fires exactly when the rules give no name. */
  lemma {:induction false} NoRuleFires(rules: seq<HolidayRule>, year: int, month: int, day: int,
                                       olympicException: Option<seq<MovedHoliday>>)
    ensures FirstRuleMatch(rules, year, month, day, olympicException).None? <==>
      forall j :: 0 <= j < |rules| ==> !Fires(rules, j, year, month, day, olympicException)
    decreases |rules|
  {
    if |rules| > 0 {
      NoRuleFires(rules[1..], year, month, day, olympicException);
      forall j | 1 <= j < |rules|
        ensures Fires(rules, j, year, month, day, olympicException) == Fires(rules[1..], j - 1, year, month, day, olympicException)
      {
        assert rules[j] == rules[1..][j - 1];
      }
      if Fires(rules, 0, year, month, day, olympicException) {
        assert FirstRuleMatch(rules, year, month, day, olympicException).Some?;
      } else {
        assert FirstRuleMatch(rules, year, month, day, olympicException) ==
          FirstRuleMatch(rules[1..], year, month, day, olympicException);
        if exists j :: 0 <= j < |rules| && Fires(rules, j, year, month, day, olympicException) {
          var j :| 0 <= j < |rules| && Fires(rules, j, year, month, day, olympicException);
          assert Fires(rules[1..], j - 1, year, month, day, olympicException);
        } else {
          forall j | 0 <= j < |rules[1..]|
            ensures !Fires(rules[1..], j, year, month, day, olympicException)
          {
            assert !Fires(rules, j + 1, year, month, day, olympicException);
          }
        }
      }
    }
  }

  /** A substitute holiday needs a start date in the year's ruleset and a date on or after it. */
  lemma SubstituteNeedsStart(rulesetFor: int -> Ruleset, year: int, month: int, day: int)
    requires RulesetSubstitute(rulesetFor, year, month, day)
    ensures rulesetFor(year).substituteHolidayStart.Some?
    ensures !BeforeStart(rulesetFor(year).substituteHolidayStart.value, year, month, day)
  {
  }

  /** A citizens' holiday needs the year's ruleset to enable them. */
  lemma CitizensNeedEnabled(rulesetFor: int -> Ruleset, year: int, month: int, day: int)
    requires RulesetCitizens(rulesetFor, year, month, day)
    ensures rulesetFor(year).citizensHolidayEnabled
  {
  }

  /**
   * The substitute test of this engine is Article 3 paragraph 2 over its
   * own defined holidays, from the start date of the date's ruleset.
   */
  lemma RulesetSubstituteMeaning(rulesetFor: int -> Ruleset, year: int, month: int, day: int)
    ensures RulesetSubstitute(rulesetFor, year, month, day) <==>
      var start := rulesetFor(year).substituteHolidayStart;
      start.Some? && !BeforeStart(start.value, year, month, day) &&
      AfterSundayHolidayRun(DefinedDays(DefinedDaysOf(rulesetFor)), MakeDay(year, month - 1, day))
  {
    var start := rulesetFor(year).substituteHolidayStart;
    if start.Some? {
      SubstituteHolidayMeaning(DefinedDaysOf(rulesetFor), start.value, year, month, day);
    }
  }

  /**
   * From 1948 on: a non-empty defined name is returned as it is; without
   * one, 休日 for a substitute or citizens' holiday, the substitute test
   * first; otherwise nothing.
   */
  lemma NamePrecedence(rulesetFor: int -> Ruleset, year: int, month: int, day: int)
    requires year >= HolidayLawStartYear
    ensures var defined := DefinedNameIn(rulesetFor(year), year, month, day);
      var result := HolidayNameOnCivil(rulesetFor, year, month, day);
      (defined.Some? && defined.value != "" ==> result == defined) &&
      (!(defined.Some? && defined.value != "") ==>
        (result == Some(RestDayName) <==>
         RulesetSubstitute(rulesetFor, year, month, day) || RulesetCitizens(rulesetFor, year, month, day))) &&
      (!(defined.Some? && defined.value != "") ==> result.None? || result == Some(RestDayName))
  {
  }

  /**
   * With rulesets whose defined holidays are those of the boolean engine,
   * whose substitute start is 1973-04-12 (or absent before 1973), whose
   * citizens' holidays are enabled from 1986 and whose defined names are
   * non-empty, getHolidayName names exactly the dates isNationalHoliday accepts.
   */
  lemma AgreesWithIsNationalHoliday(rulesetFor: int -> Ruleset, year: int, month: int, day: int)
    requires forall y, m, d :: DefinedDaysOf(rulesetFor)(y, m, d) == NationalHoliday.IsDefinedHoliday(y, m, d)
    requires rulesetFor(year).substituteHolidayStart == Some(SubstituteHolidayStart) ||
      (rulesetFor(year).substituteHolidayStart.None? && year < SubstituteHolidayStart.year)
    requires rulesetFor(year).citizensHolidayEnabled == (year >= CitizensHolidayStartYear)
    requires var name := DefinedNameIn(rulesetFor(year), year, month, day); name.Some? ==> name.value != ""
    ensures HolidayNameOnCivil(rulesetFor, year, month, day).Some? ==
      HolidayOnCivil(NationalHoliday.IsDefinedHoliday, SubstituteHolidayStart, CitizensHolidayStartYear, HolidayLawStartYear,
                     year, month, day)
  {
    var defined := DefinedDaysOf(rulesetFor);
    HolidayOnCivilCongruence(defined, NationalHoliday.IsDefinedHoliday, SubstituteHolidayStart, CitizensHolidayStartYear,
                             HolidayLawStartYear, year, month, day);
    assert defined(year, month, day) == DefinedNameIn(rulesetFor(year), year, month, day).Some?;
  }
}
