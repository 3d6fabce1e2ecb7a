/**
 * Red-Nosed Reports (2024, day 2): a report of levels is safe when every
 * step between neighbours changes by 1 to 3 in the direction of the first
 * step; with a tolerance, one level may be dropped to make it safe.
 */
module RedNosedReports {
  import opened Common

  const MinChange := 1
  const MaxChange := 3

  /** `Math.sign`. */
  function Sign(x: int): int { if x < 0 then -1 else if x > 0 then 1 else 0 }

  /** The difference that index `i` of a report steps to its right neighbour. */
  function Step(report: seq<int>, i: nat): int
    requires i + 1 < |report|
  {
    report[i + 1] - report[i]
  }

  /**
   * Every step is 1..3 in size and has the sign of the first step; a report
   * with fewer than two levels has no step and is safe.
   */
  predicate Safe(report: seq<int>)
  {
    forall i | 0 <= i < |report| - 1 ::
      MinChange <= Abs(Step(report, i)) <= MaxChange && Sign(Step(report, i)) == Sign(Step(report, 0))
  }

  /** `isSafe`: the loop over the steps, stopping at the first bad one. */
  method IsSafe(report: seq<int>) returns (safe: bool)
    ensures safe == Safe(report)
  {
    if |report| < 2 {
      return true;
    }
    var firstChange := Sign(report[1] - report[0]);
    var i := 0;
    while i < |report| - 1
      invariant 0 <= i <= |report| - 1
      invariant forall k | 0 <= k < i ::
        MinChange <= Abs(Step(report, k)) <= MaxChange && Sign(Step(report, k)) == firstChange
    {
      var diff := report[i + 1] - report[i];
      assert diff == Step(report, i) && firstChange == Sign(Step(report, 0));
      if Abs(diff) > MaxChange || Abs(diff) < MinChange {
        return false;
      }
      if firstChange != Sign(diff) {
        return false;
      }
      i := i + 1;
    }
    return true;
  }

  /** A safe report is strictly increasing or strictly decreasing. */
  predicate Increasing(report: seq<int>)
  {
    forall i, j | 0 <= i < j < |report| :: report[i] < report[j]
  }

  predicate Decreasing(report: seq<int>)
  {
    forall i, j | 0 <= i < j < |report| :: report[i] > report[j]
  }

  lemma {:induction false} SafeIncreasing(report: seq<int>, j: nat)
    requires Safe(report) && 1 < |report| && report[0] < report[1] && j < |report|
    ensures forall i | 0 <= i < j :: report[i] < report[j]
  {
    if j > 0 {
      SafeIncreasing(report, j - 1);
      assert Sign(Step(report, j - 1)) == 1;
    }
  }

  lemma {:induction false} SafeDecreasing(report: seq<int>, j: nat)
    requires Safe(report) && 1 < |report| && report[0] > report[1] && j < |report|
    ensures forall i | 0 <= i < j :: report[i] > report[j]
  {
    if j > 0 {
      SafeDecreasing(report, j - 1);
      assert Sign(Step(report, j - 1)) == -1;
    }
  }

  /** The levels of a safe report all increase or all decrease. */
  lemma SafeIsMonotone(report: seq<int>)
    requires Safe(report)
    ensures Increasing(report) || Decreasing(report)
  {
    if |report| >= 2 {
      assert Abs(Step(report, 0)) >= MinChange;
      if report[0] < report[1] {
        forall j | 0 <= j < |report| ensures forall i | 0 <= i < j :: report[i] < report[j] {
          SafeIncreasing(report, j);
        }
      } else {
        forall j | 0 <= j < |report| ensures forall i | 0 <= i < j :: report[i] > report[j] {
          SafeDecreasing(report, j);
        }
      }
    }
  }

  /** Conversely, a monotone report whose steps are all 1..3 in size is safe. */
  lemma MonotoneIsSafe(report: seq<int>)
    requires Increasing(report) || Decreasing(report)
    requires forall i | 0 <= i < |report| - 1 :: MinChange <= Abs(Step(report, i)) <= MaxChange
    ensures Safe(report)
  {
    if |report| >= 2 {
      forall i | 0 <= i < |report| - 1
        ensures Sign(Step(report, i)) == Sign(Step(report, 0))
      {
        assert report[i] < report[i + 1] <==> report[0] < report[1];
      }
    }
  }

  /** The report without the level at `i` (`toSpliced(i, 1)`). */
  function Remove(report: seq<int>, i: nat): (r: seq<int>)
    requires i < |report|
    ensures |r| == |report| - 1
    ensures forall k | 0 <= k < |r| :: r[k] == if k < i then report[k] else report[k + 1]
  {
    report[..i] + report[i + 1..]
  }

  /** Safe as it is, or safe once some single level is dropped. */
  predicate SafeWithTolerance(report: seq<int>)
  {
    Safe(report) || exists i | 0 <= i < |report| :: Safe(Remove(report, i))
  }

  /** `isSafeWithTolerance`: first the report itself, then every removal in index order. */
  method IsSafeWithTolerance(report: seq<int>) returns (safe: bool)
    ensures safe == SafeWithTolerance(report)
  {
    var isBaseSafe := IsSafe(report);
    if isBaseSafe {
      return true;
    }
    var i := 0;
    while i < |report|
      invariant 0 <= i <= |report|
      invariant forall k | 0 <= k < i :: !Safe(Remove(report, k))
    {
      var newSafe := IsSafe(Remove(report, i));
      if newSafe {
        return true;
      }
      i := i + 1;
    }
    return false;
  }

  /** Any report with at most two levels is safe with the tolerance. */
  lemma ShortToleranceSafe(report: seq<int>)
    requires |report| <= 2
    ensures SafeWithTolerance(report)
  {
    if |report| > 0 {
      assert Safe(Remove(report, 0));
    }
  }

  /** Dropping the last level of a safe report leaves it safe. */
  lemma SafeDropLast(report: seq<int>)
    requires Safe(report) && |report| > 0
    ensures Safe(Remove(report, |report| - 1))
  {
    var r := Remove(report, |report| - 1);
    forall i | 0 <= i < |r| - 1
      ensures Step(r, i) == Step(report, i)
    {
    }
  }

  /** Appending one bad level to a safe report leaves it safe with the tolerance. */
  lemma SafePlusOneLevel(report: seq<int>, level: int)
    requires Safe(report)
    ensures SafeWithTolerance(report + [level])
  {
    var extended := report + [level];
    assert Remove(extended, |report|) == report;
  }
}
