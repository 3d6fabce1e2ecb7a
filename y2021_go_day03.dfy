/**
 * Binary Diagnostic (2021, day 3, Go): the most common bit per position (gamma), the power
 * consumption derived from it, and the bit-criteria filter. The Go version skips the first
 * string's digits when it creates the count slots, and its filter returns "" on every path.
 */
module BinaryDiagnosticGo {
  import opened Common
  import opened Strings
  import opened Bits

  /** `strconv.Atoi(string(digit))` with the error dropped: non-digits read as 0. */
  function DigitOf(c: char): nat
  {
    if IsDigit(c) then DigitValue(c) else 0
  }

  /**
   * The counts after one more string: slots that already exist add that string's digit,
   * slots created for this string start at 0 and do not receive its digit.
   */
  function AddRow(counts: seq<int>, s: string): seq<int>
  {
    seq(Max(|counts|, |s|), i requires 0 <= i < Max(|counts|, |s|) =>
      if i < |counts| then counts[i] + (if i < |s| then DigitOf(s[i]) else 0) else 0)
  }

  /** The `counts` slice after the nested loops over every string. */
  function Counts(diags: seq<string>): seq<int>
  {
    if diags == [] then [] else AddRow(Counts(diags[..|diags| - 1]), diags[|diags| - 1])
  }

  /** One character per count: '1' when the count reaches `len(diags)/2`, integer division. */
  function GammaOf(diags: seq<string>): string
  {
    var counts := Counts(diags);
    seq(|counts|, i requires 0 <= i < |counts| => if counts[i] >= |diags| / 2 then '1' else '0')
  }

  method Gamma(diags: seq<string>) returns (gamma: string)
    ensures gamma == GammaOf(diags)
  {
    var counts: seq<int> := [];
    for k := 0 to |diags|
      invariant counts == Counts(diags[..k])
    {
      var number := diags[k];
      ghost var before := counts;
      for i := 0 to |number|
        invariant counts == AddRow(before, number[..i])
      {
        if |counts| <= i {
          counts := counts + [0];
        } else {
          counts := counts[i := counts[i] + DigitOf(number[i])];
        }
      }
      assert number[..|number|] == number;
      assert diags[..k + 1][..k] == diags[..k];
    }
    assert diags[..|diags|] == diags;
    gamma := [];
    for i := 0 to |counts|
      invariant gamma == GammaOf(diags)[..i]
    {
      if counts[i] >= |diags| / 2 {
        gamma := gamma + "1";
      } else {
        gamma := gamma + "0";
      }
    }
  }

  function MaxLen(diags: seq<string>): nat
  {
    if diags == [] then 0 else Max(MaxLen(diags[..|diags| - 1]), |diags[|diags| - 1]|)
  }

  /** gamma has one character per position of the longest string. */
  lemma {:induction false} GammaLength(diags: seq<string>)
    ensures |GammaOf(diags)| == MaxLen(diags)
  {
    CountsLength(diags);
  }

  lemma {:induction false} CountsLength(diags: seq<string>)
    ensures |Counts(diags)| == MaxLen(diags)
  {
    if diags != [] {
      CountsLength(diags[..|diags| - 1]);
    }
  }

  /** Sum of column i's digits over the given rows. */
  function ColumnSum(rows: seq<string>, i: nat): nat
    requires forall k :: 0 <= k < |rows| ==> i < |rows[k]|
  {
    if rows == [] then 0 else ColumnSum(rows[..|rows| - 1], i) + DigitOf(rows[|rows| - 1][i])
  }

  predicate Uniform(rows: seq<string>, w: nat)
  {
    forall k :: 0 <= k < |rows| ==> |rows[k]| == w
  }

  /** With equal-length strings, every count is the column sum of all strings but the first. */
  lemma {:induction false} FirstStringSkipped(diags: seq<string>, w: nat, i: nat)
    requires |diags| >= 1 && Uniform(diags, w) && i < w
    ensures |Counts(diags)| == w
    ensures Counts(diags)[i] == ColumnSum(diags[1..], i)
  {
    if |diags| == 1 {
      assert Counts(diags[..0]) == [];
    } else {
      var init := diags[..|diags| - 1];
      FirstStringSkipped(init, w, i);
      assert diags[1..][..|diags[1..]| - 1] == init[1..];
    }
  }

  /** A concrete input where the skipped string changes the answer: ["1", "0"] gives "0". */
  lemma SkippedStringCounterexample()
    ensures GammaOf(["1", "0"]) == "0"
    ensures ColumnSum(["1", "0"], 0) * 2 >= 2
  {
    var d: seq<string> := ["1", "0"];
    assert d[..1] == ["1"];
    assert ["1"][..0] == [];
    assert Counts(["1"]) == [0];
    assert Counts(d) == [0];
    assert d[..1][..0] == [];
  }

  /**
   * `strconv.ParseInt(s, 2, 16)` with the error dropped, for strings of '0'/'1': the empty
   * string is a syntax error (0), and values beyond int16 are clamped to 32767.
   */
  function ParseInt16(s: string): nat
  {
    if s == [] then 0 else Min(BinaryValue(s), 32767)
  }

  function FindPowerConsumption(diags: seq<string>): int
  {
    var strGamma := GammaOf(diags);
    var g := ParseInt16(strGamma);
    var inverter := ParseInt16(Repeat('1', |strGamma|));
    g * Xor(g, inverter)
  }

  /** Up to 15 positions nothing is clamped, and the power is g × (2^w − 1 − g). */
  lemma PowerClosedForm(diags: seq<string>)
    requires 1 <= |GammaOf(diags)| <= 15
    ensures var w := |GammaOf(diags)|;
            var g := BinaryValue(GammaOf(diags));
            FindPowerConsumption(diags) == g * (Pow2(w) - 1 - g)
  {
    var strGamma := GammaOf(diags);
    var w := |strGamma|;
    var g := BinaryValue(strGamma);
    Pow2Monotone(w, 15);
    assert Pow2(15) == 32768 by {
      assert Pow2(7) == 128 && Pow2(8) == 256;
      Pow2Add(8, 7);
    }
    AllOnesValue(w);
    assert ParseInt16(strGamma) == g;
    assert ParseInt16(Repeat('1', w)) == Pow2(w) - 1;
    XorAllOnes(g, w);
    assert Xor(g, Pow2(w) - 1) == Pow2(w) - 1 - g;
  }

  lemma {:induction false} Pow2Monotone(a: nat, b: nat)
    requires a <= b
    ensures Pow2(a) <= Pow2(b)
  {
    if a < b { Pow2Monotone(a, b - 1); }
  }

  // ---- filterBitCriteria ----

  /** What the function does: return a string, or panic on an out-of-range index. */
  datatype Outcome = Returns(value: string) | Panics

  predicate Keeps(g: string, num: string, i: nat, leastCommon: bool)
    requires i < |g| && i < |num|
  {
    (g[i] == num[i]) != leastCommon
  }

  predicate LongerThan(rows: seq<string>, i: nat)
  {
    forall k :: 0 <= k < |rows| ==> i < |rows[k]|
  }

  /** One pass: the strings whose bit i equals g[i] (differs from it, for leastCommon). */
  function FilterPass(rows: seq<string>, g: string, i: nat, leastCommon: bool): (r: seq<string>)
    requires LongerThan(rows, i) && i < |g|
    ensures |r| <= |rows|
    ensures forall s :: s in r ==> s in rows
  {
    if rows == [] then []
    else
      var init := FilterPass(rows[..|rows| - 1], g, i, leastCommon);
      var last := rows[|rows| - 1];
      if Keeps(g, last, i, leastCommon) then init + [last] else init
  }

  /** The `filtered` slice after positions i..n-1; None when an index panics. */
  function Survivors(filtered: seq<string>, leastCommon: bool, i: nat, n: nat): Option<seq<string>>
    decreases n - i
  {
    if i >= n then Some(filtered)
    else if exists k :: 0 <= k < |filtered| && |filtered[k]| <= i then None
    else
      var g := GammaOf(filtered);
      assert filtered != [] ==> |g| > i by {
        if filtered != [] {
          GammaLength(filtered);
          MaxLenAtLeast(filtered, 0);
        }
      }
      if filtered == [] then Survivors(filtered, leastCommon, i + 1, n)
      else Survivors(FilterPass(filtered, g, i, leastCommon), leastCommon, i + 1, n)
  }

  lemma {:induction false} MaxLenAtLeast(rows: seq<string>, k: nat)
    requires k < |rows|
    ensures |rows[k]| <= MaxLen(rows)
  {
    if k < |rows| - 1 {
      MaxLenAtLeast(rows[..|rows| - 1], k);
    }
  }

  /**
   * The function as written: it filters position by position and then returns "" whatever
   * survived. The survivors are also returned here, so that their properties can be stated.
   */
  method FilterBitCriteria(diags: seq<string>, leastCommon: bool) returns (r: Outcome, survivors: seq<string>)
    ensures diags == [] ==> r == Panics
    ensures diags != [] ==> (r == Panics <==> Survivors(diags, leastCommon, 0, |diags[0]|) == None)
    ensures r.Returns? ==> r.value == "" && Survivors(diags, leastCommon, 0, |diags[0]|) == Some(survivors)
  {
    if diags == [] {
      return Panics, [];
    }
    var filtered := diags;
    var n := |diags[0]|;
    for i := 0 to n
      invariant Survivors(filtered, leastCommon, i, n) == Survivors(diags, leastCommon, 0, n)
    {
      var g := GammaOf(filtered);
      var panics, temp := FilterPosition(filtered, g, i, leastCommon);
      if panics {
        return Panics, [];
      }
      filtered := temp;
    }
    return Returns(""), filtered;
  }

  /** The inner loop of filterBitCriteria: keep the strings that agree with g at i, or panic at the first too-short one. */
  method FilterPosition(filtered: seq<string>, g: string, i: nat, leastCommon: bool) returns (panics: bool, temp: seq<string>)
    requires g == GammaOf(filtered)
    ensures panics <==> exists k :: 0 <= k < |filtered| && |filtered[k]| <= i
    ensures !panics && filtered != [] ==> i < |g| && LongerThan(filtered, i) && temp == FilterPass(filtered, g, i, leastCommon)
    ensures !panics && filtered == [] ==> temp == []
  {
    temp := [];
    for k := 0 to |filtered|
      invariant LongerThan(filtered[..k], i) && (k > 0 ==> i < |g|)
      invariant k > 0 ==> temp == FilterPass(filtered[..k], g, i, leastCommon)
      invariant k == 0 ==> temp == []
    {
      var num := filtered[k];
      if |g| <= i || |num| <= i {
        assert |num| <= i by {
          if |g| <= i && i < |num| {
            GammaLength(filtered);
            MaxLenAtLeast(filtered, k);
          }
        }
        return true, [];
      }
      assert filtered[..k + 1][..k] == filtered[..k];
      if Keeps(g, num, i, leastCommon) {
        temp := temp + [num];
      }
    }
    assert filtered[..|filtered|] == filtered;
    panics := false;
  }

  lemma UniformSubset(rows: seq<string>, sub: seq<string>, n: nat)
    requires Uniform(rows, n)
    requires forall s :: s in sub ==> s in rows
    ensures Uniform(sub, n)
  {
    forall k | 0 <= k < |sub| ensures |sub[k]| == n {
      assert sub[k] in rows;
    }
  }

  /** With strings all as long as the first, no index panics. */
  lemma {:induction false} UniformNeverPanics(rows: seq<string>, leastCommon: bool, i: nat, n: nat)
    requires Uniform(rows, n)
    ensures Survivors(rows, leastCommon, i, n).Some?
    decreases n - i
  {
    if i < n {
      if rows != [] {
        GammaLength(rows);
        MaxLenAtLeast(rows, 0);
        UniformSubset(rows, FilterPass(rows, GammaOf(rows), i, leastCommon), n);
        UniformNeverPanics(FilterPass(rows, GammaOf(rows), i, leastCommon), leastCommon, i + 1, n);
      } else {
        UniformNeverPanics(rows, leastCommon, i + 1, n);
      }
    }
  }

  /** Every survivor is one of the input strings. */
  lemma {:induction false} SurvivorsFromInput(rows: seq<string>, leastCommon: bool, i: nat, n: nat)
    requires Survivors(rows, leastCommon, i, n).Some?
    ensures forall s :: s in Survivors(rows, leastCommon, i, n).value ==> s in rows
    decreases n - i
  {
    if i < n && rows != [] {
      GammaLength(rows);
      MaxLenAtLeast(rows, 0);
      SurvivorsFromInput(FilterPass(rows, GammaOf(rows), i, leastCommon), leastCommon, i + 1, n);
    } else if i < n {
      SurvivorsFromInput(rows, leastCommon, i + 1, n);
    }
  }
}
