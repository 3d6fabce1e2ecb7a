/**
 * Tuning Trouble (2022, day 6): the start-of-packet marker ends at the first
 * position whose last `windowSize` characters are all different.
 */
module TuningTrouble {

  /** The characters at positions lo .. hi - 1 are pairwise different. */
  predicate AllDifferent(s: string, lo: int, hi: int)
    requires 0 <= lo <= hi <= |s|
  {
    forall a, b | lo <= a < b < hi :: s[a] != s[b]
  }

  /** The window of the given size ending at position i holds no repeat. */
  predicate MarkerAt(s: string, windowSize: nat, i: int)
    requires windowSize - 1 <= i < |s|
  {
    AllDifferent(s, i - windowSize + 1, i + 1)
  }

  /**
   * `findMarker`: the one-based position i + 1 of the first i >= windowSize - 1
   * whose window is all different, or -1 when there is none. A window size
   * of 0 or less makes the outer loop start at i = windowSize - 1 and the
   * inner loop do nothing, so the answer is windowSize itself.
   */
  method FindMarker(signal: string, windowSize: int) returns (r: int)
    ensures windowSize <= 0 ==> r == windowSize
    ensures windowSize > 0 && r != -1 ==>
      windowSize <= r <= |signal| && MarkerAt(signal, windowSize, r - 1)
    ensures windowSize > 0 && r != -1 ==>
      forall i | windowSize - 1 <= i < r - 1 :: !MarkerAt(signal, windowSize, i)
    ensures windowSize > 0 && r == -1 ==>
      forall i | windowSize - 1 <= i < |signal| :: !MarkerAt(signal, windowSize, i)
  {
    if windowSize <= 0 {
      return windowSize;
    }
    var i := windowSize - 1;
    while i < |signal|
      invariant windowSize - 1 <= i
      invariant forall k | windowSize - 1 <= k < i && k < |signal| :: !MarkerAt(signal, windowSize, k)
      decreases |signal| - i
    {
      var seen: set<char> := {};
      var repeat := false;
      var j := 0;
      while j < windowSize && !repeat
        invariant 0 <= j <= windowSize
        invariant !repeat ==> seen == set m | i - j < m <= i :: signal[m]
        invariant !repeat ==> AllDifferent(signal, i - j + 1, i + 1)
        invariant repeat ==> !MarkerAt(signal, windowSize, i)
        decreases windowSize - j, !repeat
      {
        if signal[i - j] in seen {
          var m :| i - j < m <= i && signal[m] == signal[i - j];
          assert !AllDifferent(signal, i - windowSize + 1, i + 1);
          repeat := true;
        } else {
          seen := seen + {signal[i - j]};
          j := j + 1;
        }
      }
      if !repeat {
        return i + 1;
      }
      i := i + 1;
    }
    return -1;
  }
}
