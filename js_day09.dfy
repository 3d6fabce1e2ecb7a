/**
 * Encoding Error: in XMAS data every number after the preamble should be
 * the sum of two of the n numbers before it; the first one that is not
 * is the invalid number, and the weakness is found in a contiguous run of
 * numbers that adds up to it.
 */
module EncodingError {
  import opened Common
  import opened GlobalUtils

  /** `findSum(data.slice(i - n, i), data[i], 2)` finds a pair. */
  predicate HasPair(data: seq<int>, n: nat, i: nat)
    requires n <= i < |data|
  {
    FindSumSpec(data[i - n..i], data[i], 2, map[]) != []
  }

  /**
   * data[i] has a pair exactly when two numbers at distinct positions of
   * the window before it add up to it, the earlier of them non-zero (a
   * stored 0 reads as false).
   */
  lemma HasPairMeaning(data: seq<int>, n: nat, i: nat)
    requires n <= i < |data|
    ensures HasPair(data, n, i) <==>
      exists a, b | i - n <= a < b < i :: data[a] + data[b] == data[i] && data[a] != 0
  {
    WindowPairs(data, n, i);
    if HasPair(data, n, i) {
      PairInData(data, n, i);
    }
    if exists a, b | i - n <= a < b < i :: data[a] + data[b] == data[i] && data[a] != 0 {
      var a, b :| i - n <= a < b < i && data[a] + data[b] == data[i] && data[a] != 0;
      PairInWindow(data, n, i, a, b);
    }
  }

  lemma PairInData(data: seq<int>, n: nat, i: nat)
    requires n <= i < |data|
    requires var w := data[i - n..i]; exists a, b | 0 <= a < b < |w| :: PairAt(w, data[i], a, b)
    ensures exists a, b | i - n <= a < b < i :: data[a] + data[b] == data[i] && data[a] != 0
  {
    var w := data[i - n..i];
    var a', b' :| 0 <= a' < b' < |w| && PairAt(w, data[i], a', b');
    assert data[i - n + a'] == w[a'] && data[i - n + b'] == w[b'];
  }

  lemma PairInWindow(data: seq<int>, n: nat, i: nat, a: nat, b: nat)
    requires n <= i && i - n <= a < b < i < |data| && data[a] + data[b] == data[i] && data[a] != 0
    ensures var w := data[i - n..i]; exists a', b' | 0 <= a' < b' < |w| :: PairAt(w, data[i], a', b')
  {
    var w := data[i - n..i];
    assert w[a - (i - n)] == data[a] && w[b - (i - n)] == data[b];
    assert PairAt(w, data[i], a - (i - n), b - (i - n));
  }

  /** The pair scan from an empty dict, read on the window alone. */
  lemma WindowPairs(data: seq<int>, n: nat, i: nat)
    requires n <= i < |data|
    ensures var w := data[i - n..i];
      HasPair(data, n, i) <==> exists a, b | 0 <= a < b < |w| :: PairAt(w, data[i], a, b)
  {
    PairScanFresh(data[i - n..i], data[i]);
  }

  /** `findInvalidNumber`: None for null, when every number after the preamble has a pair. */
  method FindInvalidNumber(data: seq<int>, n: nat) returns (r: Option<int>)
    ensures r.None? <==> forall i | n <= i < |data| :: HasPair(data, n, i)
    ensures r.Some? ==> exists i | n <= i < |data| ::
      r.value == data[i] && !HasPair(data, n, i) && forall k | n <= k < i :: HasPair(data, n, k)
  {
    var i := n;
    while i < |data|
      invariant n <= i
      invariant forall k | n <= k < i && k < |data| :: HasPair(data, n, k)
    {
      var found := FindSum(data[i - n..i], data[i], 2, map[]);
      if |found| == 0 {
        assert !HasPair(data, n, i);
        return Some(data[i]);
      }
      i := i + 1;
    }
    return None;
  }

  /** The sum of data[l..h]. */
  function RunSum(data: seq<int>, l: nat, h: nat): int
    requires l <= h <= |data|
  {
    Sum(data[l..h])
  }

  predicate Positive(data: seq<int>)
  {
    forall k | 0 <= k < |data| :: data[k] > 0
  }

  lemma RunSumExtend(data: seq<int>, l: nat, h: nat)
    requires l <= h < |data|
    ensures RunSum(data, l, h + 1) == RunSum(data, l, h) + data[h]
  {
    assert data[l..h + 1][..h - l] == data[l..h];
  }

  lemma RunSumDropFirst(data: seq<int>, l: nat, h: nat)
    requires l < h <= |data|
    ensures RunSum(data, l + 1, h) == RunSum(data, l, h) - data[l]
  {
    assert data[l..h] == [data[l]] + data[l + 1..h];
    SumAppend([data[l]], data[l + 1..h]);
    assert [data[l]][..0] == [];
  }

  /** With positive numbers a run is larger than any run it strictly contains at its end. */
  lemma {:induction false} RunSumShorter(data: seq<int>, l: nat, m: nat, h: nat)
    requires Positive(data) && l < m <= h <= |data|
    ensures RunSum(data, m, h) < RunSum(data, l, h)
    decreases m - l
  {
    RunSumDropFirst(data, l, h);
    if l + 1 < m {
      RunSumShorter(data, l + 1, m, h);
    }
  }

  /** With positive numbers every non-empty run has a positive sum. */
  lemma PositiveRuns(data: seq<int>)
    ensures Positive(data) ==> forall l, h | 0 <= l < h <= |data| :: RunSum(data, l, h) > 0
  {
    if Positive(data) {
      forall l, h | 0 <= l < h <= |data| ensures RunSum(data, l, h) > 0 {
        RunSumShorter(data, l, h, h);
      }
    }
  }

  /** `Math.min(...arr)` and `Math.max(...arr)` of a non-empty run. */
  function SeqMin(s: seq<int>): (m: int)
    requires s != []
    ensures m in s && forall x | x in s :: m <= x
  {
    if |s| == 1 then s[0]
    else
      assert s == s[..|s| - 1] + [s[|s| - 1]];
      Min(SeqMin(s[..|s| - 1]), s[|s| - 1])
  }

  function SeqMax(s: seq<int>): (m: int)
    requires s != []
    ensures m in s && forall x | x in s :: x <= m
  {
    if |s| == 1 then s[0]
    else
      assert s == s[..|s| - 1] + [s[|s| - 1]];
      Max(SeqMax(s[..|s| - 1]), s[|s| - 1])
  }

  /** A non-empty run data[l..h] adds up to the target and the answer is its smallest plus its largest number. */
  predicate WeaknessOf(data: seq<int>, invalidNumber: int, l: nat, h: nat, answer: int)
    requires l < h <= |data|
  {
    RunSum(data, l, h) == invalidNumber && answer == SeqMin(data[l..h]) + SeqMax(data[l..h])
  }

  /** No non-empty run ending before h adds up to the target. */
  predicate NoRunEndsBefore(data: seq<int>, target: int, h: nat)
    requires h <= |data|
  {
    forall l, h' | 0 <= l < h' < h :: RunSum(data, l, h') != target
  }

  /**
   * `findEncryptionWeakness`: the window data[lo..i] (`arr`) and its sum
   * `acc` slide along the data. None is the undefined the function returns
   * when no run is found, and also the NaN it produces when `shift` empties
   * the window (acc becomes NaN and can never match again) or when the
   * window is empty as it matches.
   */
  method FindEncryptionWeakness(data: seq<int>, invalidNumber: int) returns (r: Option<int>)
    ensures r.Some? ==> exists l, h | 0 <= l < h <= |data| :: WeaknessOf(data, invalidNumber, l, h, r.value)
    ensures Positive(data) && r.Some? ==> exists l, h | 0 <= l < h <= |data| ::
      WeaknessOf(data, invalidNumber, l, h, r.value) && NoRunEndsBefore(data, invalidNumber, h)
    ensures Positive(data) && (exists l, h | 0 <= l < h <= |data| :: RunSum(data, l, h) == invalidNumber) ==> r.Some?
  {
    var lo := 0;
    var acc := 0;
    var i := 0;
    while i < |data|
      invariant 0 <= lo <= i <= |data|
      invariant acc == RunSum(data, lo, i)
      invariant i > 0 ==> acc <= invalidNumber
      invariant Positive(data) ==> forall l | 0 <= l < lo :: RunSum(data, l, i) > invalidNumber
      invariant Positive(data) ==> forall l, h | 0 <= l < h <= i :: RunSum(data, l, h) != invalidNumber
    {
      RunSumExtend(data, lo, i);
      acc := acc + data[i];
      var next := i + 1;
      if Positive(data) {
        forall l | 0 <= l < lo ensures RunSum(data, l, next) > invalidNumber {
          RunSumExtend(data, l, i);
        }
      }
      i := next;
      while acc > invalidNumber
        invariant 0 <= lo <= i <= |data|
        invariant acc == RunSum(data, lo, i)
        invariant Positive(data) ==> forall l | 0 <= l < lo :: RunSum(data, l, i) > invalidNumber
        decreases i - lo
      {
        if lo == i {
          PositiveRuns(data);
          return None;
        }
        RunSumDropFirst(data, lo, i);
        acc := acc - data[lo];
        lo := lo + 1;
      }
      if acc == invalidNumber {
        if lo == i {
          PositiveRuns(data);
          return None;
        }
        var answer := SeqMin(data[lo..i]) + SeqMax(data[lo..i]);
        assert WeaknessOf(data, invalidNumber, lo, i, answer);
        assert Positive(data) ==> NoRunEndsBefore(data, invalidNumber, i);
        return Some(answer);
      }
      if Positive(data) {
        forall l, h | 0 <= l < h <= i ensures RunSum(data, l, h) != invalidNumber {
          if h == i && lo < l {
            RunSumShorter(data, lo, l, i);
          }
        }
      }
    }
    return None;
  }

  /** The puzzle's example run 15, 25, 47, 40 adds up to 127, and its weakness is 15 + 47. */
  lemma ExampleWeakness()
    ensures WeaknessOf([35, 20, 15, 25, 47, 40, 62], 127, 2, 6, 62)
  {
    var data := [35, 20, 15, 25, 47, 40, 62];
    var run := data[2..6];
    assert run == [15, 25, 47, 40];
    assert Sum(run[..1]) == 15 by { assert run[..1][..0] == []; }
    assert Sum(run[..2]) == 40 by { assert run[..2][..1] == run[..1]; }
    assert Sum(run[..3]) == 87 by { assert run[..3][..2] == run[..2]; }
    assert Sum(run) == 127 by { assert run[..3] == run[..|run| - 1]; }
    assert SeqMin(run) == 15 && SeqMax(run) == 47;
  }

  /**
   * The doc comment of `findEncryptionWeakness` calls the answer the product
   * of the least and greatest numbers of the run; on the example run that is
   * 15 * 47 = 705, not the 15 + 47 = 62 the code returns and the puzzle asks for.
   */
  lemma DocumentedProductDiffers()
    ensures var run := [35, 20, 15, 25, 47, 40, 62][2..6];
      SeqMin(run) * SeqMax(run) == 705 && SeqMin(run) + SeqMax(run) == 62
  {
    var run := [35, 20, 15, 25, 47, 40, 62][2..6];
    assert run == [15, 25, 47, 40];
    assert SeqMin(run) == 15 && SeqMax(run) == 47;
  }
}
