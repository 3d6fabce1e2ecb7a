/**
 * Camp Cleanup (2022, day 4): pairs of inclusive section intervals; part 1
 * counts the pairs where one interval holds the other, part 2 the pairs
 * that overlap at all.
 */
module CampCleanup {
  import opened Common

  /** An `Interval`; `NaN` is the interval whose bounds are both NaN. */
  datatype Interval = Interval(start: int, end: int) | NaN

  /** `findOverlap`: NaN when the intervals are apart, else the shared bounds. */
  function FindOverlap(a: Interval, target: Interval): (o: Interval)
    requires a.Interval? && target.Interval?
    ensures o.Interval? ==> o.start == Max(a.start, target.start) && o.end == Min(a.end, target.end)
    ensures o.NaN? <==> target.start > a.end || a.start > target.end
  {
    if target.start > a.end || a.start > target.end then NaN
    else Interval(Max(a.start, target.start), Min(a.end, target.end))
  }

  /** The `length` getter: 0 for NaN bounds, else end - start + 1. */
  function Length(i: Interval): (n: int)
    ensures n > 0 <==> WellFormed(i)
  {
    if i.NaN? then 0 else i.end - i.start + 1
  }

  /** An interval as the input writes one: its start is not after its end. */
  predicate WellFormed(i: Interval)
  {
    i.Interval? && i.start <= i.end
  }

  /** The sections an interval covers. */
  predicate Covers(i: Interval, x: int)
  {
    i.Interval? && i.start <= x <= i.end
  }

  /** The overlap covers exactly the sections both intervals cover. */
  lemma OverlapIsIntersection(a: Interval, b: Interval, x: int)
    requires a.Interval? && b.Interval?
    ensures Covers(FindOverlap(a, b), x) <==> Covers(a, x) && Covers(b, x)
  {
  }

  /** The sections lo..hi as a set. */
  function Sections(lo: int, hi: int): (r: set<int>)
    ensures forall x :: x in r <==> lo <= x <= hi
    decreases hi - lo
  {
    if lo > hi then {} else Sections(lo, hi - 1) + {hi}
  }

  /** The length of a well-formed interval is the number of its sections. */
  lemma {:induction false} LengthCountsSections(lo: int, hi: int)
    requires lo <= hi + 1
    ensures Length(Interval(lo, hi)) == |Sections(lo, hi)|
    decreases hi - lo
  {
    if lo <= hi {
      LengthCountsSections(lo, hi - 1);
      assert hi !in Sections(lo, hi - 1);
    }
  }

  /** `isFullyContained`: the overlap is as long as one of the two intervals. */
  predicate IsFullyContained(a: Interval, b: Interval)
    requires a.Interval? && b.Interval?
    ensures WellFormed(a) && WellFormed(b) ==>
      (IsFullyContained(a, b) <==>
        (b.start <= a.start && a.end <= b.end) || (a.start <= b.start && b.end <= a.end))
  {
    var overlap := FindOverlap(a, b);
    Length(overlap) == Length(a) || Length(overlap) == Length(b)
  }

  /** For well-formed intervals, that is exactly one interval covering every section of the other. */
  lemma FullyContainedMeansSubset(a: Interval, b: Interval)
    requires WellFormed(a) && WellFormed(b)
    ensures IsFullyContained(a, b) <==>
      (forall x :: Covers(a, x) ==> Covers(b, x)) || (forall x :: Covers(b, x) ==> Covers(a, x))
  {
    if IsFullyContained(a, b) {
      var o := FindOverlap(a, b);
      assert o.Interval?;
      if Length(o) == Length(a) {
        assert o.start == a.start && o.end == a.end;
      } else {
        assert o.start == b.start && o.end == b.end;
      }
    } else {
      var o := FindOverlap(a, b);
      var wa := if o.NaN? || o.start > a.start then a.start else a.end;
      var wb := if o.NaN? || o.start > b.start then b.start else b.end;
      assert Covers(a, wa) && !Covers(b, wa);
      assert Covers(b, wb) && !Covers(a, wb);
    }
  }

  /** `hasAnyOverlap`: the overlap has a positive length. */
  predicate HasAnyOverlap(a: Interval, b: Interval)
    requires a.Interval? && b.Interval?
    ensures WellFormed(a) && WellFormed(b) ==> (HasAnyOverlap(a, b) <==> a.start <= b.end && b.start <= a.end)
  {
    Length(FindOverlap(a, b)) > 0
  }

  /** For well-formed intervals, that is some section being covered by both. */
  lemma AnyOverlapMeansShared(a: Interval, b: Interval)
    requires WellFormed(a) && WellFormed(b)
    ensures HasAnyOverlap(a, b) <==> exists x :: Covers(a, x) && Covers(b, x)
  {
    var o := FindOverlap(a, b);
    if HasAnyOverlap(a, b) {
      assert Covers(a, o.start) && Covers(b, o.start);
    }
  }

  /** The answers: how many pairs satisfy each predicate. */
  function CountPairs(pairs: seq<(Interval, Interval)>, full: bool): (n: nat)
    requires forall k | 0 <= k < |pairs| :: pairs[k].0.Interval? && pairs[k].1.Interval?
    ensures n <= |pairs|
  {
    if pairs == [] then 0
    else
      var p := pairs[|pairs| - 1];
      var hit := if full then IsFullyContained(p.0, p.1) else HasAnyOverlap(p.0, p.1);
      CountPairs(pairs[..|pairs| - 1], full) + (if hit then 1 else 0)
  }

  /** A pair where one interval holds the other also overlaps (the part 1 pairs are among the part 2 pairs). */
  lemma {:induction false} ContainedPairsOverlap(pairs: seq<(Interval, Interval)>)
    requires forall k | 0 <= k < |pairs| :: pairs[k].0.Interval? && pairs[k].1.Interval?
    requires forall k | 0 <= k < |pairs| :: WellFormed(pairs[k].0) && WellFormed(pairs[k].1)
    ensures CountPairs(pairs, true) <= CountPairs(pairs, false)
  {
    if pairs != [] {
      var p := pairs[|pairs| - 1];
      ContainedPairsOverlap(pairs[..|pairs| - 1]);
      if IsFullyContained(p.0, p.1) {
        var o := FindOverlap(p.0, p.1);
        assert o.Interval?;
      }
    }
  }
}
