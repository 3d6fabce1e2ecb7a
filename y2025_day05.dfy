/**
 * Cafeteria (2025, day 5): fresh ingredient ids are given as inclusive
 * ranges; once the ranges are sorted by their lower bound, an ingredient
 * is fresh when some range contains it.
 */
module Cafeteria {
  /** A line "min-max" of the range list. */
  datatype Range = Range(min: int, max: int)

  predicate SortedByMin(ranges: seq<Range>)
  {
    forall i, j | 0 <= i < j < |ranges| :: ranges[i].min <= ranges[j].min
  }

  /** Places a range after every range whose lower bound is not above its own, keeping the sort stable. */
  function Insert(r: Range, sorted: seq<Range>): (s: seq<Range>)
    ensures |s| == |sorted| + 1
  {
    if sorted == [] then [r]
    else if r.min < sorted[0].min then [r] + sorted
    else [sorted[0]] + Insert(r, sorted[1..])
  }

  /** Inserting adds the range and loses none. */
  lemma {:induction false} InsertPermutes(r: Range, sorted: seq<Range>)
    ensures multiset(Insert(r, sorted)) == multiset(sorted) + multiset{r}
  {
    if sorted != [] && r.min >= sorted[0].min {
      InsertPermutes(r, sorted[1..]);
      assert sorted == [sorted[0]] + sorted[1..];
    }
  }

  /** A lower bound shared by the range and the list is one of the result. */
  lemma {:induction false} InsertLowerBound(r: Range, sorted: seq<Range>, lo: int)
    requires r.min >= lo && forall i | 0 <= i < |sorted| :: sorted[i].min >= lo
    ensures forall i | 0 <= i < |Insert(r, sorted)| :: Insert(r, sorted)[i].min >= lo
  {
    if sorted != [] && r.min >= sorted[0].min {
      InsertLowerBound(r, sorted[1..], lo);
    }
  }

  /** Inserting into a sorted list keeps it sorted. */
  lemma {:induction false} InsertSorted(r: Range, sorted: seq<Range>)
    requires SortedByMin(sorted)
    ensures SortedByMin(Insert(r, sorted))
  {
    if sorted != [] && r.min >= sorted[0].min {
      var rest := Insert(r, sorted[1..]);
      InsertSorted(r, sorted[1..]);
      InsertLowerBound(r, sorted[1..], sorted[0].min);
      var s := [sorted[0]] + rest;
      assert Insert(r, sorted) == s;
      forall i, j | 0 <= i < j < |s|
        ensures s[i].min <= s[j].min
      {
        assert s[j] == rest[j - 1];
        if i > 0 {
          assert s[i] == rest[i - 1];
        }
      }
    }
  }

  /** Two lists holding the same multiset hold the same elements. */
  lemma SameElements(a: seq<Range>, b: seq<Range>, x: Range)
    requires multiset(a) == multiset(b) && x in a
    ensures exists j | 0 <= j < |b| :: b[j] == x
  {
    assert x in multiset(a);
    assert x in b;
  }

  /**
   * `parseRanges` once the lines are split into their two numbers:
   * `sort((a, b) => a[0] - b[0])`, a stable sort by lower bound.
   */
  function ParseRanges(ranges: seq<Range>): (s: seq<Range>)
    ensures SortedByMin(s)
    ensures multiset(s) == multiset(ranges)
  {
    if ranges == [] then []
    else
      assert ranges == ranges[..|ranges| - 1] + [ranges[|ranges| - 1]];
      InsertSorted(ranges[|ranges| - 1], ParseRanges(ranges[..|ranges| - 1]));
      InsertPermutes(ranges[|ranges| - 1], ParseRanges(ranges[..|ranges| - 1]));
      Insert(ranges[|ranges| - 1], ParseRanges(ranges[..|ranges| - 1]))
  }

  predicate Contains(ranges: seq<Range>, ingredient: int)
  {
    exists k | 0 <= k < |ranges| :: ranges[k].min <= ingredient <= ranges[k].max
  }

  /** Sorting keeps exactly the same ranges, so whether some range contains an ingredient does not change. */
  lemma ParseRangesKeepsContainment(ranges: seq<Range>, ingredient: int)
    ensures Contains(ranges, ingredient) <==> Contains(ParseRanges(ranges), ingredient)
  {
    var sorted := ParseRanges(ranges);
    if Contains(ranges, ingredient) {
      var k :| 0 <= k < |ranges| && ranges[k].min <= ingredient <= ranges[k].max;
      SameElements(ranges, sorted, ranges[k]);
    }
    if Contains(sorted, ingredient) {
      var k :| 0 <= k < |sorted| && sorted[k].min <= ingredient <= sorted[k].max;
      SameElements(sorted, ranges, sorted[k]);
    }
  }

  /** The answer of the first range that decides: false when it starts above the ingredient, true when it reaches it. */
  function FreshScan(ingredient: int, ranges: seq<Range>): bool
  {
    if ranges == [] then false
    else if ingredient < ranges[0].min then false
    else if ingredient <= ranges[0].max then true
    else FreshScan(ingredient, ranges[1..])
  }

  /** A true answer always names a range containing the ingredient. */
  lemma {:induction false} FreshScanSound(ingredient: int, ranges: seq<Range>)
    ensures FreshScan(ingredient, ranges) ==> Contains(ranges, ingredient)
  {
    if ranges != [] && ranges[0].max < ingredient && FreshScan(ingredient, ranges[1..]) {
      FreshScanSound(ingredient, ranges[1..]);
      var k :| 0 <= k < |ranges[1..]| && ranges[1..][k].min <= ingredient <= ranges[1..][k].max;
      assert ranges[k + 1] == ranges[1..][k];
    }
  }

  /** On ranges sorted by lower bound the early false answer is right: the scan answers true exactly when some range contains the ingredient. */
  lemma {:induction false} FreshScanComplete(ingredient: int, ranges: seq<Range>)
    requires SortedByMin(ranges)
    ensures FreshScan(ingredient, ranges) <==> Contains(ranges, ingredient)
  {
    FreshScanSound(ingredient, ranges);
    if ranges != [] && ranges[0].min <= ingredient && ranges[0].max < ingredient {
      FreshScanComplete(ingredient, ranges[1..]);
      if Contains(ranges, ingredient) {
        var k :| 0 <= k < |ranges| && ranges[k].min <= ingredient <= ranges[k].max;
        assert k > 0;
        assert ranges[1..][k - 1] == ranges[k];
      }
    }
  }

  /** `isFresh`: walks the ranges in order and stops at the first range that decides. */
  method IsFresh(ingredient: int, ranges: seq<Range>) returns (isFresh: bool)
    ensures isFresh == FreshScan(ingredient, ranges)
    ensures ranges == [] ==> !isFresh
  {
    var k := 0;
    while k < |ranges|
      invariant 0 <= k <= |ranges|
      invariant FreshScan(ingredient, ranges[k..]) == FreshScan(ingredient, ranges)
    {
      var r := ranges[k];
      assert ranges[k..][1..] == ranges[k + 1..];
      if ingredient < r.min {
        return false;
      }
      if ingredient <= r.max {
        return true;
      }
      k := k + 1;
    }
    return false;
  }

  /** Without the sort the scan can miss: 1 lies in the second range, but the first starts above it. */
  lemma UnsortedMisses()
    ensures Contains([Range(5, 6), Range(1, 2)], 1)
    ensures !FreshScan(1, [Range(5, 6), Range(1, 2)])
  {
    var ranges := [Range(5, 6), Range(1, 2)];
    assert ranges[1].min <= 1 <= ranges[1].max;
  }
}
