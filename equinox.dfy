/**
 * Days of the vernal (March) and autumnal (September) equinox by the closed
 * formula of the National Astronomical Observatory of Japan, valid for the
 * years 1900 to 2099; outside that range fixed days are used. The decimal
 * constants are computed exactly in `real`, where JavaScript uses binary
 * floating point.
 */
module Equinox {

  /** Math.floor((year - 1980) / 4) with exact division. */
  function QuarterFloor(year: int): int {
    (((year - 1980) as real) / 4.0).Floor
  }

  /** The exact floor of a quarter is integer division rounding toward negative infinity. */
  lemma QuarterFloorIsFloorDivision(year: int)
    ensures QuarterFloor(year) == (year - 1980) / 4
    ensures 4 * QuarterFloor(year) <= year - 1980 < 4 * QuarterFloor(year) + 4
  {
    var k := year - 1980;
    var q, r := k / 4, k % 4;
    assert (k as real) / 4.0 == q as real + (r as real) / 4.0;
  }

  /** Math.floor(base + 0.242194 * (year - 1980) - Math.floor((year - 1980) / 4)). */
  function EquinoxFormula(base: real, year: int): int {
    (base + 0.242194 * ((year - 1980) as real) - QuarterFloor(year) as real).Floor
  }

  function VernalEquinoxDay(year: int): int {
    if year < 1900 || year > 2099 then 21
    else if year <= 1979 then EquinoxFormula(20.8357, year)
    else EquinoxFormula(20.8431, year)
  }

  function AutumnalEquinoxDay(year: int): int {
    if year < 1900 || year > 2099 then 23
    else if year <= 1979 then EquinoxFormula(23.2588, year)
    else EquinoxFormula(23.2488, year)
  }

  /** Outside 1900..2099 the vernal equinox is fixed on the 21st and the autumnal on the 23rd. */
  lemma OutOfRangeDays(year: int)
    requires year < 1900 || year > 2099
    ensures VernalEquinoxDay(year) == 21
    ensures AutumnalEquinoxDay(year) == 23
  {
  }

  /**
   * Within 1900..2099 the formula stays within a few days of its base: the
   * drift 0.242194 per year is cancelled by one day every four years, leaving
   * at most -0.031224 per four-year cycle plus at most three years of drift.
   */
  lemma {:induction false} FormulaBounds(base: real, year: int)
    requires 1900 <= year <= 2099
    ensures base - 0.905496 <= 0.242194 * ((year - 1980) as real) - QuarterFloor(year) as real + base <= base + 1.351062
  {
    QuarterFloorIsFloorDivision(year);
    var k := year - 1980;
    var q := k / 4;
    var r := k - 4 * q;
    assert -20 <= q <= 29 && 0 <= r < 4;
    calc {
      0.242194 * (k as real) - q as real;
      0.242194 * (4 * q + r) as real - q as real;
      -0.031224 * (q as real) + 0.242194 * (r as real);
    }
  }

  /** Within 1900..2099 the vernal equinox falls on March 19 to 22. */
  lemma VernalEquinoxRange(year: int)
    requires 1900 <= year <= 2099
    ensures 19 <= VernalEquinoxDay(year) <= 22
  {
    FormulaBounds(if year <= 1979 then 20.8357 else 20.8431, year);
  }

  /** Within 1900..2099 the autumnal equinox falls on September 22 to 24. */
  lemma AutumnalEquinoxRange(year: int)
    requires 1900 <= year <= 2099
    ensures 22 <= AutumnalEquinoxDay(year) <= 24
  {
    FormulaBounds(if year <= 1979 then 23.2588 else 23.2488, year);
  }

  /** Every equinox day is a valid day of March or September. */
  lemma EquinoxDaysValid(year: int)
    ensures 19 <= VernalEquinoxDay(year) <= 22
    ensures 22 <= AutumnalEquinoxDay(year) <= 24
  {
    if 1900 <= year <= 2099 {
      VernalEquinoxRange(year);
      AutumnalEquinoxRange(year);
    }
  }

  /** Before 1980 the inner floor rounds toward negative infinity: 1979 gives -1, not 0. */
  lemma QuarterFloorBefore1980()
    ensures QuarterFloor(1979) == -1
    ensures QuarterFloor(1977) == -1
    ensures QuarterFloor(1976) == -1
    ensures QuarterFloor(1975) == -2
  {
  }

  /** Values pinned by the tests of the vernal equinox. */
  lemma VernalExamples()
    ensures VernalEquinoxDay(2024) == 20 && VernalEquinoxDay(2025) == 20 && VernalEquinoxDay(2026) == 20
    ensures VernalEquinoxDay(1980) == 20 && VernalEquinoxDay(1979) == 21 && VernalEquinoxDay(1960) == 20
    ensures VernalEquinoxDay(2000) == 20 && VernalEquinoxDay(1899) == 21 && VernalEquinoxDay(2100) == 21
    ensures VernalEquinoxDay(2020) == 20 && VernalEquinoxDay(2019) == 21 && VernalEquinoxDay(2018) == 21
    ensures VernalEquinoxDay(2017) == 20
  {
  }

  /** Values pinned by the tests of the autumnal equinox. */
  lemma AutumnalExamples()
    ensures AutumnalEquinoxDay(2024) == 22 && AutumnalEquinoxDay(2025) == 23 && AutumnalEquinoxDay(2026) == 23
    ensures AutumnalEquinoxDay(1980) == 23 && AutumnalEquinoxDay(1979) == 24 && AutumnalEquinoxDay(1960) == 23
    ensures AutumnalEquinoxDay(2000) == 23 && AutumnalEquinoxDay(1899) == 23 && AutumnalEquinoxDay(2100) == 23
    ensures AutumnalEquinoxDay(2020) == 22 && AutumnalEquinoxDay(2019) == 23 && AutumnalEquinoxDay(2018) == 23
    ensures AutumnalEquinoxDay(2017) == 23
  {
  }
}
