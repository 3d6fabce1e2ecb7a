/**
 * Sonar Sweep (2021, day 1, Go): count how often the sum of a sliding window of depth
 * measurements increases. The loop compares each measurement with the one `windowSize`
 * places earlier, which the source justifies by telescoping the window sums.
 */
module SonarSweepGo {
  import opened Common

  /** Number of indices i < k with depths[i + w] > depths[i]. */
  function CountUpTo(depths: seq<int>, w: nat, k: nat): (c: nat)
    requires k + w <= |depths|
    ensures c <= k
  {
    if k == 0 then 0
    else CountUpTo(depths, w, k - 1) + (if depths[k - 1 + w] > depths[k - 1] then 1 else 0)
  }

  /** Sum of the window of length w starting at i. */
  function WindowSum(depths: seq<int>, i: nat, w: nat): int
    requires i + w <= |depths|
  {
    Sum(depths[i..i + w])
  }

  /** Number of i < k whose window sum is smaller than the next window's. */
  function CountWindowIncreases(depths: seq<int>, w: nat, k: nat): nat
    requires k + w <= |depths|
  {
    if k == 0 then 0
    else
      var step := if WindowSum(depths, k, w) > WindowSum(depths, k - 1, w) then 1 else 0;
      CountWindowIncreases(depths, w, k - 1) + step
  }

  /**
   * The loop over `depths[windowSize:]`. A `windowSize` above the length, or a negative
   * one, makes the slice expression panic, so callers must stay within the slice bounds.
   */
  method CountIncreases(depths: seq<int>, windowSize: int) returns (count: nat)
    requires 0 <= windowSize <= |depths|
    ensures count == CountUpTo(depths, windowSize, |depths| - windowSize)
    ensures count <= |depths| - windowSize
    ensures windowSize == |depths| ==> count == 0
  {
    count := 0;
    var tail := depths[windowSize..];
    for i := 0 to |tail|
      invariant count == CountUpTo(depths, windowSize, i)
    {
      if tail[i] > depths[i] {
        count := count + 1;
      }
    }
  }

  /** Consecutive windows share all but one element: the telescoping argument. */
  lemma WindowStep(depths: seq<int>, i: nat, w: nat)
    requires i + w < |depths|
    ensures WindowSum(depths, i + 1, w) > WindowSum(depths, i, w) <==> depths[i + w] > depths[i]
  {
    assert depths[i..i + w + 1] == [depths[i]] + depths[i + 1..i + 1 + w];
    assert depths[i..i + w + 1] == depths[i..i + w] + [depths[i + w]];
    SumAppend([depths[i]], depths[i + 1..i + 1 + w]);
    SumAppend(depths[i..i + w], [depths[i + w]]);
    assert Sum([depths[i]]) == depths[i] by { assert [depths[i]][..0] == []; }
    assert Sum([depths[i + w]]) == depths[i + w] by { assert [depths[i + w]][..0] == []; }
  }

  /** Counting pairwise comparisons is the same as counting increasing window sums. */
  lemma {:induction false} CountIsWindowCount(depths: seq<int>, w: nat, k: nat)
    requires k + w <= |depths|
    ensures CountUpTo(depths, w, k) == CountWindowIncreases(depths, w, k)
  {
    if k > 0 {
      CountIsWindowCount(depths, w, k - 1);
      WindowStep(depths, k - 1, w);
    }
  }
}
