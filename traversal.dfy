/**
 * dateTraversal: walking day by day from a date and testing a predicate.
 *
 * A date is an instant (epoch milliseconds) and a predicate is any function
 * of it. Every step is addDays(current, 1) or addDays(current, -1), which
 * lands on the start of the neighbouring JST day as long as the walk stays
 * on or after 0100-01-01 (toJstDate reads an earlier year from 0 to 99 as
 * 1900 + year, so the walk would jump). The source recurses until
 * the predicate is met; here a ghost `horizon` (a JST day number) stands for
 * the assumption that enough satisfying days exist, and bounds the recursion.
 */
module Traversal {
  import opened Calendar
  import opened Jst
  import opened AddDays

  /** addDays(t, n) on an instant from 0100-01-01 JST on: the start of the JST day n days away. */
  function Shift(t: int, n: int): (r: int)
    requires Year100Day <= JstDay(t)
    ensures JstDay(r) == JstDay(t) + n && r == JstMidnight(JstDay(r))
  {
    DaysAfter(DateValue(t), n)
  }

  /** The predicate holds at the start of JST day k. */
  predicate HoldsOn(p: int -> bool, k: int) {
    p(JstMidnight(k))
  }

  /** The number of JST days in [lo, hi] at whose start p holds; never more than the days in the range. */
  function CountOn(p: int -> bool, lo: int, hi: int): (n: nat)
    ensures n <= if lo <= hi then hi - lo + 1 else 0
    decreases hi - lo
  {
    if lo > hi then 0 else (if HoldsOn(p, lo) then 1 else 0) + CountOn(p, lo + 1, hi)
  }

  /** Counting can also peel the last day of the range. */
  lemma {:induction false} CountOnLast(p: int -> bool, lo: int, hi: int)
    requires lo <= hi
    ensures CountOn(p, lo, hi) == CountOn(p, lo, hi - 1) + (if HoldsOn(p, hi) then 1 else 0)
    decreases hi - lo
  {
    if lo < hi {
      CountOnLast(p, lo + 1, hi);
    }
  }

  /** Counts over adjacent ranges add up. */
  lemma {:induction false} CountOnSplit(p: int -> bool, lo: int, mid: int, hi: int)
    requires lo <= mid + 1 && mid <= hi
    ensures CountOn(p, lo, hi) == CountOn(p, lo, mid) + CountOn(p, mid + 1, hi)
    decreases mid - lo
  {
    if lo <= mid {
      CountOnSplit(p, lo + 1, mid, hi);
    }
  }

  /**
   * findNext: `current` itself when p holds there, otherwise the start of the
   * first later JST day on which p holds. The caller promises such a day no
   * later than `horizon`.
   */
  function FindNext(current: int, p: int -> bool, ghost horizon: int): (r: int)
    requires Year100Day <= JstDay(current)
    requires p(current) || (JstDay(current) < horizon && HoldsOn(p, horizon))
    ensures p(r)
    ensures p(current) ==> r == current
    ensures !p(current) ==> r == JstMidnight(JstDay(r)) && JstDay(current) < JstDay(r) <= horizon
    ensures !p(current) ==> forall k :: JstDay(current) < k < JstDay(r) ==> !HoldsOn(p, k)
    decreases horizon - JstDay(current)
  {
    if p(current) then current
    else FindNext(Shift(current, 1), p, horizon)
  }

  /**
   * findPrev: `current` itself when p holds there, otherwise the start of the
   * nearest earlier JST day on which p holds. The caller promises such a day
   * no earlier than `horizon`.
   */
  function FindPrev(current: int, p: int -> bool, ghost horizon: int): (r: int)
    requires Year100Day <= horizon
    requires p(current) || (horizon < JstDay(current) && HoldsOn(p, horizon))
    ensures p(r)
    ensures p(current) ==> r == current
    ensures !p(current) ==> r == JstMidnight(JstDay(r)) && horizon <= JstDay(r) < JstDay(current)
    ensures !p(current) ==> forall k :: JstDay(r) < k < JstDay(current) ==> !HoldsOn(p, k)
    decreases JstDay(current) - horizon
  {
    if p(current) then current
    else FindPrev(Shift(current, -1), p, horizon)
  }

  /** The day findNext finds does not depend on how far away the promised day was. */
  lemma FindNextIndependent(current: int, p: int -> bool, h1: int, h2: int)
    requires Year100Day <= JstDay(current)
    requires p(current) || (JstDay(current) < h1 && HoldsOn(p, h1))
    requires p(current) || (JstDay(current) < h2 && HoldsOn(p, h2))
    ensures FindNext(current, p, h1) == FindNext(current, p, h2)
  {
    var r1, r2 := FindNext(current, p, h1), FindNext(current, p, h2);
    if !p(current) {
      if JstDay(r1) < JstDay(r2) {
        assert HoldsOn(p, JstDay(r1));
      } else if JstDay(r2) < JstDay(r1) {
        assert HoldsOn(p, JstDay(r2));
      }
    }
  }

  /** The day findPrev finds does not depend on how far away the promised day was. */
  lemma FindPrevIndependent(current: int, p: int -> bool, h1: int, h2: int)
    requires Year100Day <= h1 && Year100Day <= h2
    requires p(current) || (h1 < JstDay(current) && HoldsOn(p, h1))
    requires p(current) || (h2 < JstDay(current) && HoldsOn(p, h2))
    ensures FindPrev(current, p, h1) == FindPrev(current, p, h2)
  {
    var r1, r2 := FindPrev(current, p, h1), FindPrev(current, p, h2);
    if !p(current) {
      if JstDay(r1) < JstDay(r2) {
        assert HoldsOn(p, JstDay(r2));
      } else if JstDay(r2) < JstDay(r1) {
        assert HoldsOn(p, JstDay(r1));
      }
    }
  }

  /**
   * advance: with remaining <= 0, `current` unchanged; otherwise the start of
   * the JST day on which p has held `remaining` times after `current`, that
   * day included. The caller promises that many such days up to `horizon`.
   */
  function Advance(current: int, remaining: int, p: int -> bool, ghost horizon: int): (r: int)
    requires Year100Day <= JstDay(current)
    requires remaining <= 0 || remaining <= CountOn(p, JstDay(current) + 1, horizon)
    ensures remaining <= 0 ==> r == current
    ensures remaining > 0 ==> r == JstMidnight(JstDay(r)) && p(r) && JstDay(current) < JstDay(r) <= horizon
    ensures remaining > 0 ==> CountOn(p, JstDay(current) + 1, JstDay(r)) == remaining
    decreases horizon - JstDay(current)
  {
    if remaining <= 0 then current
    else
      var next := Shift(current, 1);
      if p(next) then Advance(next, remaining - 1, p, horizon)
      else Advance(next, remaining, p, horizon)
  }

  /**
   * rewind: with remaining <= 0, `current` unchanged; otherwise the start of
   * the JST day on which p has held `remaining` times before `current`, that
   * day included. The caller promises that many such days back to `horizon`.
   */
  function Rewind(current: int, remaining: int, p: int -> bool, ghost horizon: int): (r: int)
    requires Year100Day <= horizon
    requires remaining <= 0 || remaining <= CountOn(p, horizon, JstDay(current) - 1)
    ensures remaining <= 0 ==> r == current
    ensures remaining > 0 ==> r == JstMidnight(JstDay(r)) && p(r) && horizon <= JstDay(r) < JstDay(current)
    ensures remaining > 0 ==> CountOn(p, JstDay(r), JstDay(current) - 1) == remaining
    decreases JstDay(current) - horizon
  {
    if remaining <= 0 then current
    else
      var next := Shift(current, -1);
      CountOnLast(p, horizon, JstDay(current) - 1);
      var r := Rewind(next, if p(next) then remaining - 1 else remaining, p, horizon);
      CountOnLast(p, JstDay(r), JstDay(current) - 1);
      r
  }

  /**
   * count: acc plus the number of dates from `current` up to `targetTime`,
   * walking one JST day at a time, at which p holds; acc alone when current
   * is already past the target.
   */
  function Count(current: int, targetTime: int, p: int -> bool, acc: int): (r: int)
    requires Year100Day <= JstDay(current)
    ensures r == acc + if current > targetTime then 0
                       else (if p(current) then 1 else 0) + CountOn(p, JstDay(current) + 1, JstDay(targetTime))
    decreases targetTime - current
  {
    if current > targetTime then acc
    else
      var increment := if p(current) then 1 else 0;
      var next := Shift(current, 1);
      JstMidnightDay(JstDay(current), current);
      JstMidnightDay(JstDay(next), targetTime);
      Count(next, targetTime, p, acc + increment)
  }

  /** From the start of a JST day, count covers exactly the days from it to the target's day. */
  lemma CountFromMidnight(current: int, targetTime: int, p: int -> bool, acc: int)
    requires Year100Day <= JstDay(current) && current == JstMidnight(JstDay(current))
    ensures Count(current, targetTime, p, acc) == acc + CountOn(p, JstDay(current), JstDay(targetTime))
  {
    JstMidnightDay(JstDay(current), targetTime);
  }

  /** A day on which p holds lies in the count over any range holding it. */
  lemma CountHolds(p: int -> bool, lo: int, k: int, hi: int)
    requires lo <= k <= hi && HoldsOn(p, k)
    ensures CountOn(p, lo, hi) >= 1
  {
    CountOnSplit(p, lo, k - 1, hi);
  }

  /** Advancing by one from a date is finding from the next day on. */
  lemma AdvanceOneIsFindNext(current: int, p: int -> bool, horizon: int)
    requires Year100Day <= JstDay(current) < horizon && HoldsOn(p, horizon)
    ensures 1 <= CountOn(p, JstDay(current) + 1, horizon)
    ensures Advance(current, 1, p, horizon) == FindNext(Shift(current, 1), p, horizon)
  {
    var d := JstDay(current);
    CountHolds(p, d + 1, horizon, horizon);
    AdvanceOneNearest(current, p, horizon);
    var r1, r2 := FindNext(Shift(current, 1), p, horizon), Advance(current, 1, p, horizon);
    var k1, k2 := JstDay(r1), JstDay(r2);
    assert HoldsOn(p, k2);
    assert r1 == JstMidnight(k1) && HoldsOn(p, k1);
  }

  /** Advancing by one lands on the nearest later day on which p holds. */
  lemma AdvanceOneNearest(current: int, p: int -> bool, horizon: int)
    requires Year100Day <= JstDay(current) && 1 <= CountOn(p, JstDay(current) + 1, horizon)
    ensures forall k :: JstDay(current) < k < JstDay(Advance(current, 1, p, horizon)) ==> !HoldsOn(p, k)
  {
    var d := JstDay(current);
    var k2 := JstDay(Advance(current, 1, p, horizon));
    forall k | d < k < k2
      ensures !HoldsOn(p, k)
    {
      if HoldsOn(p, k) {
        CountOnSplit(p, d + 1, k, k2);
        CountHolds(p, d + 1, k, k);
        CountHolds(p, k + 1, k2, k2);
      }
    }
  }

  /** Rewinding by one from a date is finding from the previous day back. */
  lemma RewindOneIsFindPrev(current: int, p: int -> bool, horizon: int)
    requires Year100Day <= horizon < JstDay(current) && HoldsOn(p, horizon)
    ensures 1 <= CountOn(p, horizon, JstDay(current) - 1)
    ensures Rewind(current, 1, p, horizon) == FindPrev(Shift(current, -1), p, horizon)
  {
    var d := JstDay(current);
    var prev := Shift(current, -1);
    CountHolds(p, horizon, horizon, d - 1);
    RewindOneNearest(current, p, horizon);
    var r1, r2 := FindPrev(prev, p, horizon), Rewind(current, 1, p, horizon);
    var k1, k2 := JstDay(r1), JstDay(r2);
    FindPrevNearest(prev, p, horizon, k2);
    assert r1 == JstMidnight(k1) && HoldsOn(p, k1);
  }

  /** Rewinding by one lands on the nearest earlier day on which p holds. */
  lemma RewindOneNearest(current: int, p: int -> bool, horizon: int)
    requires Year100Day <= horizon && 1 <= CountOn(p, horizon, JstDay(current) - 1)
    ensures forall k :: JstDay(Rewind(current, 1, p, horizon)) < k < JstDay(current) ==> !HoldsOn(p, k)
  {
    var d := JstDay(current);
    var k2 := JstDay(Rewind(current, 1, p, horizon));
    forall k | k2 < k < d
      ensures !HoldsOn(p, k)
    {
      if HoldsOn(p, k) {
        CountOnSplit(p, k2, k - 1, d - 1);
        CountHolds(p, k2, k2, k - 1);
        CountHolds(p, k, k, d - 1);
      }
    }
  }

  /** No day on which p holds lies between the day findPrev finds and the start of the search. */
  lemma FindPrevNearest(current: int, p: int -> bool, horizon: int, k: int)
    requires Year100Day <= horizon
    requires p(current) || (horizon < JstDay(current) && HoldsOn(p, horizon))
    requires current == JstMidnight(JstDay(current))
    requires k <= JstDay(current) && HoldsOn(p, k)
    ensures k <= JstDay(FindPrev(current, p, horizon))
  {
  }
}
