/**
 * getHolidaysInRange: the entries of a holiday-name map whose date key lies
 * between the formatted bounds, both included, sorted by date.
 *
 * The map's entries are a sequence of (date, name) pairs in insertion order.
 * Strings are compared code unit by code unit, as JavaScript's `<` and `>=`
 * do; the sort's comparator localeCompare is taken to be the same order.
 */
module HolidaysInRange {
  import opened Jst
  import opened Formatting

  /** A holiday in the result: a date key and its name. */
  datatype Holiday = Holiday(date: string, name: string)

  /** JavaScript's `a < b` on strings: the first differing code unit decides, and a proper prefix comes first. */
  predicate Less(a: string, b: string)
    decreases |a|
  {
    if |b| == 0 then false
    else if |a| == 0 then true
    else if a[0] != b[0] then a[0] < b[0]
    else Less(a[1..], b[1..])
  }

  /** No string comes before itself. */
  lemma {:induction false} LessIrreflexive(a: string)
    ensures !Less(a, a)
    decreases |a|
  {
    if |a| > 0 {
      LessIrreflexive(a[1..]);
    }
  }

  /** The order is transitive. */
  lemma {:induction false} LessTransitive(a: string, b: string, c: string)
    requires Less(a, b) && Less(b, c)
    ensures Less(a, c)
    decreases |a|
  {
    if |a| > 0 && a[0] == b[0] && b[0] == c[0] {
      LessTransitive(a[1..], b[1..], c[1..]);
    }
  }

  /** Of two different strings, one comes before the other. */
  lemma {:induction false} LessTotal(a: string, b: string)
    requires a != b
    ensures Less(a, b) || Less(b, a)
    decreases |a|
  {
    if |a| > 0 && |b| > 0 && a[0] == b[0] {
      assert a == [a[0]] + a[1..] && b == [b[0]] + b[1..];
      LessTotal(a[1..], b[1..]);
    }
  }

  /** Of two strings, one never comes both before and after the other. */
  lemma LessAsymmetric(a: string, b: string)
    requires Less(a, b)
    ensures !Less(b, a)
  {
    if Less(b, a) {
      LessTransitive(a, b, a);
      LessIrreflexive(a);
    }
  }

  /** Strings that agree before index k and differ there are ordered by their code units at k. */
  lemma {:induction false} LessAt(a: string, b: string, k: nat)
    requires k < |a| && k < |b| && a[..k] == b[..k] && a[k] < b[k]
    ensures Less(a, b)
    decreases k
  {
    if k > 0 {
      assert a[0] == a[..k][0] && b[0] == b[..k][0];
      assert a[1..][..k - 1] == a[..k][1..] && b[1..][..k - 1] == b[..k][1..];
      LessAt(a[1..], b[1..], k - 1);
    }
  }

  /** `date >= lo && date <= hi`, the test applied to each entry. */
  predicate InRange(lo: string, hi: string, date: string) {
    !Less(date, lo) && !Less(hi, date)
  }

  /** The entries in range, in the map's order, as holidays: what the for-of loop pushes. */
  function InRangeEntries(entries: seq<(string, string)>, lo: string, hi: string): (r: seq<Holiday>)
    ensures |r| <= |entries|
  {
    if |entries| == 0 then []
    else
      var (date, name) := entries[|entries| - 1];
      InRangeEntries(entries[..|entries| - 1], lo, hi) + (if InRange(lo, hi, date) then [Holiday(date, name)] else [])
  }

  /** A holiday is among the pushed ones exactly when its pair is an entry and its date is in range. */
  lemma {:induction false} InRangeEntriesMembers(entries: seq<(string, string)>, lo: string, hi: string, h: Holiday)
    ensures h in InRangeEntries(entries, lo, hi) <==> (h.date, h.name) in entries && InRange(lo, hi, h.date)
  {
    if |entries| > 0 {
      var front, last := entries[..|entries| - 1], entries[|entries| - 1];
      InRangeEntriesMembers(front, lo, hi, h);
      assert entries == front + [last];
      assert InRangeEntries(entries, lo, hi) ==
        InRangeEntries(front, lo, hi) + (if InRange(lo, hi, last.0) then [Holiday(last.0, last.1)] else []);
    }
  }

  /** Pushing one more entry adds its holiday at the end when its date is in range. */
  lemma InRangeEntriesSnoc(front: seq<(string, string)>, e: (string, string), lo: string, hi: string)
    ensures InRangeEntries(front + [e], lo, hi) ==
      InRangeEntries(front, lo, hi) + (if InRange(lo, hi, e.0) then [Holiday(e.0, e.1)] else [])
  {
    assert (front + [e])[..|front|] == front;
  }

  /** The pushed holidays appear as often as their entries do: nothing is dropped twice or added. */
  lemma {:induction false} InRangeEntriesCount(entries: seq<(string, string)>, lo: string, hi: string, h: Holiday)
    ensures multiset(InRangeEntries(entries, lo, hi))[h] ==
      if InRange(lo, hi, h.date) then multiset(entries)[(h.date, h.name)] else 0
  {
    if |entries| > 0 {
      var front, last := entries[..|entries| - 1], entries[|entries| - 1];
      InRangeEntriesCount(front, lo, hi, h);
      assert entries == front + [last];
      assert multiset(entries) == multiset(front) + multiset{last};
      assert InRangeEntries(entries, lo, hi) ==
        InRangeEntries(front, lo, hi) + (if InRange(lo, hi, last.0) then [Holiday(last.0, last.1)] else []);
    }
  }

  /** With the upper bound before the lower one, no date is in range. */
  lemma ReversedBoundsEmpty(entries: seq<(string, string)>, lo: string, hi: string)
    requires Less(hi, lo)
    ensures InRangeEntries(entries, lo, hi) == []
  {
    var r := InRangeEntries(entries, lo, hi);
    if |r| > 0 {
      var d := r[0].date;
      InRangeEntriesMembers(entries, lo, hi, r[0]);
      if d != lo && d != hi {
        LessTotal(d, lo);
        LessTransitive(hi, lo, d);
      }
      assert false;
    }
  }

  /** Ascending by date: no holiday comes after one with a later date. */
  predicate SortedByDate(s: seq<Holiday>) {
    forall i, j :: 0 <= i < j < |s| ==> !Less(s[j].date, s[i].date)
  }

  /** Inserting after every holiday whose date is not later: one step of a stable sort. */
  function Insert(s: seq<Holiday>, h: Holiday): (r: seq<Holiday>)
    ensures multiset(r) == multiset(s) + multiset{h}
    ensures |r| == |s| + 1
  {
    if |s| == 0 then [h]
    else if Less(h.date, s[0].date) then [h] + s
    else
      assert s == [s[0]] + s[1..];
      [s[0]] + Insert(s[1..], h)
  }

  /** No holiday of s has a date before d. */
  predicate NoneBefore(s: seq<Holiday>, d: string) {
    forall j :: 0 <= j < |s| ==> !Less(s[j].date, d)
  }

  /** Inserting a holiday not before d into holidays not before d leaves none before d. */
  lemma {:induction false} InsertNoneBefore(s: seq<Holiday>, h: Holiday, d: string)
    requires NoneBefore(s, d) && !Less(h.date, d)
    ensures NoneBefore(Insert(s, h), d)
  {
    if |s| > 0 && !Less(h.date, s[0].date) {
      InsertNoneBefore(s[1..], h, d);
      assert Insert(s, h) == [s[0]] + Insert(s[1..], h);
    }
  }

  /** A holiday before the first of a sorted sequence can go in front of it. */
  lemma SortedCons(h: Holiday, s: seq<Holiday>)
    requires SortedByDate(s) && NoneBefore(s, h.date)
    ensures SortedByDate([h] + s)
  {
  }

  /** Insertion keeps the order. */
  lemma {:induction false} InsertSorted(s: seq<Holiday>, h: Holiday)
    requires SortedByDate(s)
    ensures SortedByDate(Insert(s, h))
  {
    if |s| > 0 {
      var d := s[0].date;
      if Less(h.date, d) {
        forall j | 0 <= j < |s|
          ensures !Less(s[j].date, h.date)
        {
          if Less(s[j].date, h.date) {
            LessTransitive(s[j].date, h.date, d);
            if j == 0 { LessIrreflexive(d); }
          }
        }
        SortedCons(h, s);
      } else {
        SortedTail(s);
        assert NoneBefore(s[1..], d) by {
          forall j | 0 <= j < |s| - 1
            ensures !Less(s[1..][j].date, d)
          {
            assert s[1..][j] == s[j + 1];
          }
        }
        InsertSorted(s[1..], h);
        InsertNoneBefore(s[1..], h, d);
        SortedCons(s[0], Insert(s[1..], h));
      }
    }
  }

  /** A sorted sequence stays sorted without its first holiday. */
  lemma SortedTail(a: seq<Holiday>)
    requires |a| > 0 && SortedByDate(a)
    ensures SortedByDate(a[1..])
  {
    forall i, j | 0 <= i < j < |a| - 1
      ensures !Less(a[1..][j].date, a[1..][i].date)
    {
      assert a[1..][j] == a[j + 1] && a[1..][i] == a[i + 1];
    }
  }

  /** Array.prototype.sort with the date comparator, as a stable insertion sort in entry order. */
  function Sort(s: seq<Holiday>): (r: seq<Holiday>)
    ensures SortedByDate(r)
    ensures multiset(r) == multiset(s)
  {
    if |s| == 0 then []
    else
      var front := s[..|s| - 1];
      assert s == front + [s[|s| - 1]];
      InsertSorted(Sort(front), s[|s| - 1]);
      Insert(Sort(front), s[|s| - 1])
  }

  /** No two holidays share a date and none appears twice, as for the entries of a map. */
  predicate DistinctDates(m: multiset<Holiday>) {
    forall g, h :: g in m && h in m && g.date == h.date ==> g == h && m[g] == 1
  }

  /** The rest of a sequence holds its holidays but the first. */
  lemma TailMultiset(s: seq<Holiday>)
    requires |s| > 0
    ensures multiset(s[1..]) == multiset(s) - multiset{s[0]}
  {
    assert s == [s[0]] + s[1..];
    assert multiset(s) == multiset{s[0]} + multiset(s[1..]);
  }

  /** Dropping the first holiday keeps the dates distinct, and the rest are the other holidays. */
  lemma DistinctTail(a: seq<Holiday>)
    requires |a| > 0 && DistinctDates(multiset(a))
    ensures multiset(a[1..]) == multiset(a) - multiset{a[0]}
    ensures DistinctDates(multiset(a[1..]))
  {
    TailMultiset(a);
  }

  /** Two date-sorted arrangements of the same distinct-date holidays start alike. */
  lemma SortedHeads(a: seq<Holiday>, b: seq<Holiday>)
    requires |a| > 0 && |b| > 0
    requires SortedByDate(a) && SortedByDate(b)
    requires multiset(a) == multiset(b) && DistinctDates(multiset(a))
    ensures a[0] == b[0]
  {
    assert a[0] in multiset(b) && b[0] in multiset(a);
    var x :| 0 <= x < |b| && b[x] == a[0];
    var y :| 0 <= y < |a| && a[y] == b[0];
    if x != 0 && y != 0 {
      assert !Less(a[y].date, a[0].date) && !Less(b[x].date, b[0].date);
      if a[0].date != b[0].date {
        LessTotal(a[0].date, b[0].date);
      }
    }
  }

  /** Two date-sorted arrangements of the same distinct-date holidays agree on the first and on the rest. */
  lemma SortedSplit(a: seq<Holiday>, b: seq<Holiday>)
    requires |a| > 0
    requires SortedByDate(a) && SortedByDate(b)
    requires multiset(a) == multiset(b) && DistinctDates(multiset(a))
    ensures |b| > 0 && a[0] == b[0]
    ensures SortedByDate(a[1..]) && SortedByDate(b[1..])
    ensures multiset(a[1..]) == multiset(b[1..]) && DistinctDates(multiset(a[1..]))
  {
    assert |a| == |multiset(a)| == |b|;
    SortedHeads(a, b);
    DistinctTail(a);
    SortedTail(a);
    SortedTail(b);
    TailMultiset(b);
  }

  /** Two date-sorted arrangements of the same holidays with distinct dates are the same sequence. */
  lemma {:induction false} SortedUnique(a: seq<Holiday>, b: seq<Holiday>)
    requires SortedByDate(a) && SortedByDate(b)
    requires multiset(a) == multiset(b) && DistinctDates(multiset(a))
    ensures a == b
    decreases |a|
  {
    if |a| > 0 {
      SortedSplit(a, b);
      SortedUnique(a[1..], b[1..]);
      assert a == [a[0]] + a[1..] && b == [b[0]] + b[1..];
    } else {
      assert |multiset(b)| == 0;
    }
  }

  /** With distinct dates, sorting gives the one date-ordered arrangement of the holidays. */
  lemma SortOfDistinct(s: seq<Holiday>, sorted: seq<Holiday>)
    requires SortedByDate(sorted) && multiset(s) == multiset(sorted) && DistinctDates(multiset(s))
    ensures Sort(s) == sorted
  {
    SortedUnique(Sort(s), sorted);
  }

  /**
   * getHolidaysInRange: the bounds are written with the JST formatDate, the
   * entries in range are pushed in map order, and the result is sorted by date.
   */
  method GetHolidaysInRange(entries: seq<(string, string)>, start: DateInput, end: DateInput)
    returns (result: seq<Holiday>)
    ensures result == Sort(InRangeEntries(entries, FormatDate(start), FormatDate(end)))
    ensures SortedByDate(result)
    ensures forall h :: h in result <==>
      (h.date, h.name) in entries && InRange(FormatDate(start), FormatDate(end), h.date)
  {
    var startStr := FormatDate(start);
    var endStr := FormatDate(end);
    var pushed := PushInRange(entries, startStr, endStr);
    result := Sort(pushed);
    SortedInRangeMembers(entries, startStr, endStr);
  }

  /** The loop of getHolidaysInRange: each entry whose date lies in [lo, hi] is pushed, in map order. */
  method PushInRange(entries: seq<(string, string)>, lo: string, hi: string) returns (pushed: seq<Holiday>)
    ensures pushed == InRangeEntries(entries, lo, hi)
  {
    pushed := [];
    var i := 0;
    while i < |entries|
      invariant 0 <= i <= |entries|
      invariant pushed == InRangeEntries(entries[..i], lo, hi)
    {
      var (date, name) := entries[i];
      InRangeEntriesStep(entries, i, lo, hi);
      if !Less(date, lo) && !Less(hi, date) {
        pushed := pushed + [Holiday(date, name)];
      }
      i := i + 1;
    }
    assert entries[..i] == entries;
  }

  /** Taking one more entry pushes that entry exactly when its date is in range. */
  lemma InRangeEntriesStep(entries: seq<(string, string)>, i: int, lo: string, hi: string)
    requires 0 <= i < |entries|
    ensures InRangeEntries(entries[..i + 1], lo, hi) ==
      InRangeEntries(entries[..i], lo, hi) + (if InRange(lo, hi, entries[i].0) then [Holiday(entries[i].0, entries[i].1)] else [])
  {
    assert entries[..i + 1][..i] == entries[..i];
  }

  /** The sorted holidays in range are exactly the entries whose date is in range. */
  lemma SortedInRangeMembers(entries: seq<(string, string)>, lo: string, hi: string)
    ensures forall h :: h in Sort(InRangeEntries(entries, lo, hi)) <==> (h.date, h.name) in entries && InRange(lo, hi, h.date)
  {
    var pushed := InRangeEntries(entries, lo, hi);
    forall h
      ensures h in Sort(pushed) <==> (h.date, h.name) in entries && InRange(lo, hi, h.date)
    {
      InRangeEntriesMembers(entries, lo, hi, h);
      assert h in Sort(pushed) <==> h in multiset(pushed);
    }
  }

  /**
   * Whatever the order of a map's entries, the result is the same: with
   * distinct keys, the sorted holidays in range depend only on which entries
   * there are.
   */
  lemma OrderIndependent(e1: seq<(string, string)>, e2: seq<(string, string)>, lo: string, hi: string)
    requires multiset(e1) == multiset(e2)
    requires DistinctDates(multiset(InRangeEntries(e1, lo, hi)))
    ensures Sort(InRangeEntries(e1, lo, hi)) == Sort(InRangeEntries(e2, lo, hi))
  {
    var r1, r2 := InRangeEntries(e1, lo, hi), InRangeEntries(e2, lo, hi);
    assert multiset(r1) == multiset(r2) by {
      forall h ensures multiset(r1)[h] == multiset(r2)[h] {
        InRangeEntriesCount(e1, lo, hi, h);
        InRangeEntriesCount(e2, lo, hi, h);
      }
    }
    SortedUnique(Sort(r1), Sort(r2));
  }

  /** Both bounds are included: a one-day range holds exactly the entries of that day. */
  lemma OneDayRange(entries: seq<(string, string)>, d: string, h: Holiday)
    ensures h in InRangeEntries(entries, d, d) <==> (h.date, h.name) in entries && h.date == d
  {
    InRangeEntriesMembers(entries, d, d, h);
    LessIrreflexive(d);
    if h.date != d {
      LessTotal(h.date, d);
    }
  }

  /** Every date key of the map comes before March 2025. */
  lemma KeysBeforeMarch(d1: string, d2: string, d3: string, d4: string, d5: string, lo: string)
    requires d1 == "2025-01-01" && d2 == "2025-01-13" && d3 == "2025-02-11"
    requires d4 == "2025-02-23" && d5 == "2025-02-24" && lo == "2025-03-01"
    ensures Less(d1, lo) && Less(d2, lo) && Less(d3, lo) && Less(d4, lo) && Less(d5, lo)
  {
    LessAt(d1, lo, 6);
    LessAt(d2, lo, 6);
    LessAt(d3, lo, 6);
    LessAt(d4, lo, 6);
    LessAt(d5, lo, 6);
  }

  /** Entries whose dates all come before the lower bound leave nothing in range. */
  lemma AllBeforeEmpty(entries: seq<(string, string)>, lo: string, hi: string)
    requires forall e :: e in entries ==> Less(e.0, lo)
    ensures InRangeEntries(entries, lo, hi) == []
  {
    var r := InRangeEntries(entries, lo, hi);
    if |r| > 0 {
      InRangeEntriesMembers(entries, lo, hi, r[0]);
      assert false;
    }
  }

  /**
   * A map keyed by 2025-01-01, 2025-01-13, 2025-02-11, 2025-02-23 and
   * 2025-02-24 holds nothing in March 2025.
   */
  lemma EmptyRangeExample(entries: seq<(string, string)>, lo: string, hi: string)
    requires |entries| == 5 && entries[0].0 == "2025-01-01" && entries[1].0 == "2025-01-13"
    requires entries[2].0 == "2025-02-11" && entries[3].0 == "2025-02-23" && entries[4].0 == "2025-02-24"
    requires lo == "2025-03-01" && hi == "2025-03-31"
    ensures InRangeEntries(entries, lo, hi) == []
  {
    KeysBeforeMarch(entries[0].0, entries[1].0, entries[2].0, entries[3].0, entries[4].0, lo);
    forall e | e in entries
      ensures Less(e.0, lo)
    {
      var i :| 0 <= i < 5 && entries[i] == e;
    }
    AllBeforeEmpty(entries, lo, hi);
  }

  /** The three dates of the sorting test, in order, all within 2025-01-01 to 2025-02-28. */
  lemma UnorderedDates(a: string, b: string, c: string, lo: string, hi: string)
    requires a == "2025-01-01" && b == "2025-01-13" && c == "2025-02-11"
    requires lo == "2025-01-01" && hi == "2025-02-28"
    ensures Less(a, b) && Less(b, c) && Less(a, c)
    ensures InRange(lo, hi, a) && InRange(lo, hi, b) && InRange(lo, hi, c)
  {
    LessAt(a, b, 8);
    LessAt(b, c, 6);
    LessAt(a, c, 6);
    LessAt(c, hi, 8);
    LessAt(b, hi, 6);
    LessAt(a, hi, 6);
    LessAsymmetric(a, b);
    LessAsymmetric(a, c);
    LessAsymmetric(a, hi);
    LessAsymmetric(b, hi);
    LessAsymmetric(c, hi);
    LessIrreflexive(lo);
  }

  /**
   * Entries in reverse date order (2025-02-11 建国記念の日, 2025-01-13 成人の日,
   * 2025-01-01 元日) come out in date order, whatever the names.
   */
  lemma UnorderedExample(a: Holiday, b: Holiday, c: Holiday, lo: string, hi: string)
    requires a.date == "2025-01-01" && b.date == "2025-01-13" && c.date == "2025-02-11"
    requires lo == "2025-01-01" && hi == "2025-02-28"
    ensures Sort(InRangeEntries([(c.date, c.name), (b.date, b.name), (a.date, a.name)], lo, hi)) == [a, b, c]
  {
    var entries := [(c.date, c.name), (b.date, b.name), (a.date, a.name)];
    UnorderedDates(a.date, b.date, c.date, lo, hi);
    InRangeEntriesSnoc([], entries[0], lo, hi);
    InRangeEntriesSnoc([entries[0]], entries[1], lo, hi);
    InRangeEntriesSnoc([entries[0], entries[1]], entries[2], lo, hi);
    assert entries == [entries[0], entries[1]] + [entries[2]];
    var r := InRangeEntries(entries, lo, hi);
    assert r == [c, b, a];
    assert multiset(r) == multiset{a, b, c} == multiset([a, b, c]);
    SortedThree(a, b, c);
    SortOfDistinct(r, [a, b, c]);
  }

  /** Three holidays with increasing dates are sorted and have distinct dates. */
  lemma SortedThree(a: Holiday, b: Holiday, c: Holiday)
    requires Less(a.date, b.date) && Less(b.date, c.date)
    ensures SortedByDate([a, b, c]) && DistinctDates(multiset{a, b, c})
  {
    LessTransitive(a.date, b.date, c.date);
    LessAsymmetric(a.date, b.date);
    LessAsymmetric(b.date, c.date);
    LessAsymmetric(a.date, c.date);
    LessIrreflexive(a.date);
    LessIrreflexive(b.date);
  }
}
