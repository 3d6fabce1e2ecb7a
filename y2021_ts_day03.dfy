/**
 * Binary Diagnostic (2021, day 3, TypeScript): rows of binary digits, the most common
 * digit per position (gamma, ties favouring 1), the power consumption, and the bit-criteria
 * filter that narrows the rows position by position until one is left.
 */
module BinaryDiagnostic {
  import opened Common
  import opened Bits

  type Bit = x: int | 0 <= x <= 1

  /** `acc[i] = digit + (acc[i] || 0)` for every digit of one row. */
  function AddRow(acc: seq<int>, row: seq<Bit>): seq<int>
  {
    seq(Max(|acc|, |row|), i requires 0 <= i < Max(|acc|, |row|) =>
      (if i < |row| then row[i] else 0) + (if i < |acc| then acc[i] else 0))
  }

  /** The first reduce: per-position digit sums. */
  function ColumnSums(diag: seq<seq<Bit>>): seq<int>
  {
    if diag == [] then [] else AddRow(ColumnSums(diag[..|diag| - 1]), diag[|diag| - 1])
  }

  /** The second reduce: '1' where the sum reaches `diag.length / 2` (real division). */
  function FindGamma(diag: seq<seq<Bit>>): string
  {
    var sums := ColumnSums(diag);
    seq(|sums|, i requires 0 <= i < |sums| => if 2 * sums[i] >= |diag| then '1' else '0')
  }

  predicate Uniform(diag: seq<seq<Bit>>, w: nat)
  {
    forall k :: 0 <= k < |diag| ==> |diag[k]| == w
  }

  /** Number of rows whose digit i is 1. */
  function Ones(diag: seq<seq<Bit>>, i: nat): (c: nat)
    requires forall k :: 0 <= k < |diag| ==> i < |diag[k]|
    ensures c <= |diag|
  {
    if diag == [] then 0 else Ones(diag[..|diag| - 1], i) + diag[|diag| - 1][i]
  }

  lemma {:induction false} ColumnSumsAreOnes(diag: seq<seq<Bit>>, w: nat, i: nat)
    requires Uniform(diag, w) && i < w
    ensures |ColumnSums(diag)| == if diag == [] then 0 else w
    ensures diag != [] ==> ColumnSums(diag)[i] == Ones(diag, i)
  {
    if diag != [] {
      ColumnSumsAreOnes(diag[..|diag| - 1], w, i);
    }
  }

  /** Gamma's digit i is 1 exactly when at least as many rows have a 1 there as a 0. */
  lemma GammaIsMajority(diag: seq<seq<Bit>>, w: nat, i: nat)
    requires diag != [] && Uniform(diag, w) && i < w
    ensures |FindGamma(diag)| == w
    ensures FindGamma(diag)[i] == '1' <==> Ones(diag, i) >= |diag| - Ones(diag, i)
  {
    ColumnSumsAreOnes(diag, w, i);
  }

  /**
   * `parseInt(gamma, 2) * (parseInt(gamma, 2) ^ parseInt('1'.repeat(gamma.length), 2))`; an
   * empty gamma parses to NaN, here None.
   */
  function FindPowerConsumption(diag: seq<seq<Bit>>): (r: Option<int>)
    requires |FindGamma(diag)| <= 31
    ensures r.None? <==> FindGamma(diag) == []
  {
    var gamma := FindGamma(diag);
    if gamma == [] then None
    else
      var g := BinaryValue(gamma);
      Some(g * Xor(g, BinaryValue(Repeat('1', |gamma|))))
  }

  /** The power consumption is gamma times epsilon, epsilon being gamma with every bit flipped. */
  lemma PowerIsGammaTimesEpsilon(diag: seq<seq<Bit>>)
    requires 1 <= |FindGamma(diag)| <= 31
    ensures var gamma := FindGamma(diag);
            var g := BinaryValue(gamma);
            FindPowerConsumption(diag) == Some(g * (Pow2(|gamma|) - 1 - g))
  {
    var gamma := FindGamma(diag);
    AllOnesValue(|gamma|);
    XorAllOnes(BinaryValue(gamma), |gamma|);
  }

  // ---- findByBitCriteria ----

  datatype Outcome = Found(digits: string) | NotFound | Throws

  /** `diag[0].join('')`. */
  function Digits(row: seq<Bit>): string
  {
    seq(|row|, i requires 0 <= i < |row| => if row[i] == 1 then '1' else '0')
  }

  /**
   * `+gamma[i] ^ +leastCommon`: a missing gamma character is NaN, which `^` reads as 0.
   */
  function Criterion(gamma: string, i: nat, leastCommon: bool): Bit
  {
    var g := if i < |gamma| && gamma[i] == '1' then 1 else 0;
    var l := if leastCommon then 1 else 0;
    if g == l then 0 else 1
  }

  /** `diag.filter(number => number[i] === bit)`; a missing digit is undefined and is dropped. */
  function FilterBit(diag: seq<seq<Bit>>, i: nat, bit: Bit): (r: seq<seq<Bit>>)
    ensures |r| <= |diag|
    ensures forall row :: row in r ==> row in diag && i < |row| && row[i] == bit
  {
    if diag == [] then []
    else
      var init := FilterBit(diag[..|diag| - 1], i, bit);
      var last := diag[|diag| - 1];
      if i < |last| && last[i] == bit then init + [last] else init
  }

  function MaxLen(diag: seq<seq<Bit>>): (m: nat)
    ensures forall row :: row in diag ==> |row| <= m
  {
    if diag == [] then 0 else Max(MaxLen(diag[..|diag| - 1]), |diag[|diag| - 1]|)
  }

  lemma {:induction false} MaxLenSubset(diag: seq<seq<Bit>>, sub: seq<seq<Bit>>)
    requires forall row :: row in sub ==> row in diag
    ensures MaxLen(sub) <= MaxLen(diag)
  {
    if sub != [] {
      MaxLenSubset(diag, sub[..|sub| - 1]);
    }
  }

  /** The rows one filtering pass keeps at position i. */
  function Next(diag: seq<seq<Bit>>, leastCommon: bool, i: nat): (r: seq<seq<Bit>>)
    ensures |r| <= |diag|
    ensures forall row :: row in r ==> row in diag
  {
    FilterBit(diag, i, Criterion(FindGamma(diag), i, leastCommon))
  }

  /** The loop from position i on; its bound `diag[0].length` is re-read every time. */
  function Criteria(diag: seq<seq<Bit>>, leastCommon: bool, i: nat): Outcome
    decreases MaxLen(diag) - i
  {
    if diag == [] then Throws
    else if i >= |diag[0]| then NotFound
    else
      var next := Next(diag, leastCommon, i);
      if |next| == 1 then Found(Digits(next[0]))
      else
        MaxLenSubset(diag, next);
        Criteria(next, leastCommon, i + 1)
  }

  method FindByBitCriteria(diag: seq<seq<Bit>>, leastCommon: bool) returns (r: Outcome)
    ensures r == Criteria(diag, leastCommon, 0)
  {
    var rows := diag;
    var i := 0;
    while true
      invariant Criteria(rows, leastCommon, i) == Criteria(diag, leastCommon, 0)
      decreases MaxLen(rows) - i
    {
      if rows == [] {
        return Throws;
      }
      if i >= |rows[0]| {
        return NotFound;
      }
      var next := Next(rows, leastCommon, i);
      if |next| == 1 {
        return Found(Digits(next[0]));
      }
      MaxLenSubset(rows, next);
      rows, i := next, i + 1;
    }
  }

  /** A returned value is the digits of one of the input rows. */
  lemma {:induction false} FoundIsAnInputRow(diag: seq<seq<Bit>>, leastCommon: bool, i: nat)
    requires Criteria(diag, leastCommon, i).Found?
    ensures exists row :: row in diag && Digits(row) == Criteria(diag, leastCommon, i).digits
    decreases MaxLen(diag) - i
  {
    assert diag != [] && i < |diag[0]|;
    var next := Next(diag, leastCommon, i);
    if |next| == 1 {
      var row := next[0];
      assert row in next;
      assert row in diag && Digits(row) == Criteria(diag, leastCommon, i).digits;
    } else {
      MaxLenSubset(diag, next);
      assert Criteria(diag, leastCommon, i) == Criteria(next, leastCommon, i + 1);
      FoundIsAnInputRow(next, leastCommon, i + 1);
      var row :| row in next && Digits(row) == Criteria(next, leastCommon, i + 1).digits;
      assert row in diag;
    }
  }

  lemma {:induction false} FilterCounts(diag: seq<seq<Bit>>, w: nat, i: nat)
    requires Uniform(diag, w) && i < w
    ensures |FilterBit(diag, i, 1)| == Ones(diag, i)
    ensures |FilterBit(diag, i, 0)| == |diag| - Ones(diag, i)
  {
    if diag != [] {
      FilterCounts(diag[..|diag| - 1], w, i);
    }
  }

  lemma UniformSubset(diag: seq<seq<Bit>>, sub: seq<seq<Bit>>, w: nat)
    requires Uniform(diag, w)
    requires forall row :: row in sub ==> row in diag
    ensures Uniform(sub, w)
  {
    forall k | 0 <= k < |sub| ensures |sub[k]| == w {
      assert sub[k] in diag;
    }
  }

  /**
   * Filtering by the most common digit always keeps a row, so on equal-width rows the
   * oxygen search never reaches the `diag[0]` TypeError.
   */
  lemma {:induction false} MostCommonNeverThrows(diag: seq<seq<Bit>>, w: nat, i: nat)
    requires diag != [] && Uniform(diag, w)
    ensures Criteria(diag, false, i) != Throws
    decreases MaxLen(diag) - i
  {
    if i < |diag[0]| {
      var bit := Criterion(FindGamma(diag), i, false);
      var next := Next(diag, false, i);
      assert next == FilterBit(diag, i, bit);
      GammaIsMajority(diag, w, i);
      FilterCounts(diag, w, i);
      assert |next| >= 1;
      if |next| != 1 {
        MaxLenSubset(diag, next);
        UniformSubset(diag, next, w);
        MostCommonNeverThrows(next, w, i + 1);
      }
    }
  }

  /** Re-running the most-common filter on a single row gives that row back. */
  lemma SingleRowIsFixed(row: seq<Bit>)
    requires |row| >= 1
    ensures Criteria([row], false, 0) == Found(Digits(row))
  {
    assert Uniform([row], |row|);
    GammaIsMajority([row], |row|, 0);
    assert Ones([row], 0) == row[0] by { assert [row][..0] == []; }
    var next := FilterBit([row], 0, Criterion(FindGamma([row]), 0, false));
    assert [row][..0] == [];
    assert next == [row];
  }

  /** Unlike the Go version, ["1", "0"] has majority digit 1 here (ties favour 1). */
  lemma TieFavoursOne()
    ensures FindGamma([[1], [0]]) == "1"
  {
    var d: seq<seq<Bit>> := [[1], [0]];
    assert d[..1] == [[1]];
    assert d[..1][..0] == [];
    assert ColumnSums([[1]]) == [1];
    assert ColumnSums(d) == [1];
  }
}
