/**
 * Sonar Sweep (2021, day 1, TypeScript): the same count written as a single `reduce`
 * over the measurements.
 */
module SonarSweep {
  import SonarSweepGo
  import opened Common

  /** The reducer's test for index i: in range, and smaller than the value `window` later. */
  predicate Increases(depths: seq<int>, window: int, i: nat)
    requires i < |depths|
  {
    i < |depths| - window && 0 <= i + window < |depths| && depths[i] < depths[i + window]
  }

  /** `depths.reduce(...)` over the first k elements. */
  function CountPrefix(depths: seq<int>, window: int, k: nat): (c: nat)
    requires k <= |depths|
    ensures c <= k
  {
    if k == 0 then 0
    else CountPrefix(depths, window, k - 1) + (if Increases(depths, window, k - 1) then 1 else 0)
  }

  function CountIncreases(depths: seq<int>, window: int): nat
  {
    CountPrefix(depths, window, |depths|)
  }

  /** The result lies in 0..max(0, len - window), and is 0 once the window covers the input. */
  lemma {:induction false} CountIncreasesBound(depths: seq<int>, window: int, k: nat)
    requires k <= |depths|
    ensures CountPrefix(depths, window, k) <= Max(0, Min(k, |depths| - window))
  {
    if k > 0 {
      CountIncreasesBound(depths, window, k - 1);
    }
  }

  /** For 0 <= window <= len the reduce agrees with the Go loop, hence with the window sums. */
  lemma {:induction false} AgreesWithLoop(depths: seq<int>, window: nat, k: nat)
    requires window <= |depths| && k <= |depths| - window
    ensures CountPrefix(depths, window, k) == SonarSweepGo.CountUpTo(depths, window, k)
  {
    if k > 0 {
      AgreesWithLoop(depths, window, k - 1);
    }
  }

  lemma {:induction false} TailAddsNothing(depths: seq<int>, window: nat, k: nat)
    requires window <= |depths| && |depths| - window <= k <= |depths|
    ensures CountPrefix(depths, window, k) == CountPrefix(depths, window, |depths| - window)
  {
    if k > |depths| - window {
      TailAddsNothing(depths, window, k - 1);
    }
  }

  /** The reduce counts increasing window sums. */
  lemma CountsWindowIncreases(depths: seq<int>, window: nat)
    requires window <= |depths|
    ensures CountIncreases(depths, window)
         == SonarSweepGo.CountWindowIncreases(depths, window, |depths| - window)
  {
    TailAddsNothing(depths, window, |depths|);
    AgreesWithLoop(depths, window, |depths| - window);
    SonarSweepGo.CountIsWindowCount(depths, window, |depths| - window);
  }

  lemma WindowCoversInput(depths: seq<int>, window: int)
    requires window >= |depths|
    ensures CountIncreases(depths, window) == 0
  {
    CountIncreasesBound(depths, window, |depths|);
  }
}
