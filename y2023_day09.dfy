/**
 * Mirage Maintenance (2023, day 9): a history of readings is extended by
 * taking consecutive differences until a row is all zeros, then folding the
 * rows back up.
 */
module MirageMaintenance {

  /** `!numbers.some(n => n !== 0)`: true of the empty row too. */
  predicate AllZero(s: seq<int>)
  {
    forall i | 0 <= i < |s| :: s[i] == 0
  }

  /** The row of consecutive differences, one shorter (empty for an empty row). */
  function Differences(s: seq<int>): (d: seq<int>)
    ensures |d| == if s == [] then 0 else |s| - 1
  {
    if |s| <= 1 then [] else seq(|s| - 1, i requires 0 <= i < |s| - 1 => s[i + 1] - s[i])
  }

  /** Any row of the right length holding the consecutive differences is the difference row. */
  lemma DifferencesExt(s: seq<int>, d: seq<int>)
    requires |s| >= 1 && |d| == |s| - 1
    requires forall k | 0 <= k < |d| :: d[k] == s[k + 1] - s[k]
    ensures d == Differences(s)
  {
    if |s| > 1 {
      var e := Differences(s);
      assert forall k | 0 <= k < |d| :: e[k] == s[k + 1] - s[k];
    }
  }

  /** Row 0 is the history and every further row the differences of the one before, up to the first all-zero row. */
  function DiffRows(s: seq<int>): (rows: seq<seq<int>>)
    ensures 1 <= |rows| <= |s| + 1
    ensures rows[0] == s
    decreases |s|
  {
    if AllZero(s) then [s] else [s] + DiffRows(Differences(s))
  }

  /** Every row but the last has a non-zero entry and is followed by its differences; the last row is all zeros. */
  lemma {:induction false} DiffRowsShape(s: seq<int>)
    ensures AllZero(DiffRows(s)[|DiffRows(s)| - 1])
    ensures forall k | 0 <= k < |DiffRows(s)| - 1 ::
      !AllZero(DiffRows(s)[k]) && DiffRows(s)[k + 1] == Differences(DiffRows(s)[k])
    decreases |s|
  {
    if !AllZero(s) {
      var rest := DiffRows(Differences(s));
      DiffRowsShape(Differences(s));
      assert forall k | 1 <= k < |DiffRows(s)| :: DiffRows(s)[k] == rest[k - 1];
    }
  }

  /**
   * `findDifferences`: keeps appending the differences of the last row while
   * that row has a non-zero entry. Each row is one shorter than the one
   * before, so the loop ends at the latest with the empty row.
   */
  method FindDifferences(numbers: seq<int>) returns (allDifferences: seq<seq<int>>)
    ensures allDifferences == DiffRows(numbers)
  {
    allDifferences := [numbers];
    var previousNumbers := numbers;
    while !AllZero(previousNumbers)
      invariant allDifferences + DiffRows(previousNumbers)[1..] == DiffRows(numbers)
      decreases |previousNumbers|
    {
      var differences := [];
      for i := 1 to |previousNumbers|
        invariant |differences| == i - 1
        invariant forall k | 0 <= k < i - 1 :: differences[k] == previousNumbers[k + 1] - previousNumbers[k]
      {
        differences := differences + [previousNumbers[i] - previousNumbers[i - 1]];
      }
      DifferencesExt(previousNumbers, differences);
      allDifferences := allDifferences + [differences];
      previousNumbers := differences;
    }
  }

  /** `row.at(0) ?? 0` or `row.at(-1) ?? 0`. */
  function Pick(row: seq<int>, useLast: bool): int
  {
    if row == [] then 0 else if useLast then row[|row| - 1] else row[0]
  }

  /**
   * The value of `number` once the loop has handled rows |rows| − 2 down to i:
   * the picked entry of row i plus (forward) or minus (backwards) the value
   * from the rows below it. The last row is never read.
   */
  function Combine(rows: seq<seq<int>>, i: nat, useLast: bool, backwards: bool): int
    decreases |rows| - i
  {
    if i + 1 >= |rows| then 0
    else Pick(rows[i], useLast) + (if backwards then -1 else 1) * Combine(rows, i + 1, useLast, backwards)
  }

  /**
   * `extrapolate` as written: `inspectionIndex` is 0 (the first entry)
   * forward and −1 (the last entry) backwards. It agrees with the intended
   * extrapolation whenever every row starts and ends with the same entry.
   */
  function ExtrapolateAsWritten(rows: seq<seq<int>>, backwards: bool): (number: int)
    ensures EndsAgree(rows) ==> number == ExtrapolateIntended(rows, backwards)
  {
    CombineEndsAgree(rows, 0, backwards);
    Combine(rows, 0, backwards, backwards)
  }

  /** Every row's first and last entries are equal (an empty row reads 0 at both ends). */
  predicate EndsAgree(rows: seq<seq<int>>)
  {
    rows == [] || (Pick(rows[0], true) == Pick(rows[0], false) && EndsAgree(rows[1..]))
  }

  /** Every row reads 0 at the inspected end. */
  predicate ReadsZero(rows: seq<seq<int>>, useLast: bool)
  {
    rows == [] || (Pick(rows[0], useLast) == 0 && ReadsZero(rows[1..], useLast))
  }

  lemma {:induction false} EndsAgreeAt(rows: seq<seq<int>>, i: nat)
    requires EndsAgree(rows) && i < |rows|
    ensures Pick(rows[i], true) == Pick(rows[i], false)
  {
    if i > 0 {
      EndsAgreeAt(rows[1..], i - 1);
    }
  }

  lemma {:induction false} ReadsZeroAt(rows: seq<seq<int>>, useLast: bool, i: nat)
    requires ReadsZero(rows, useLast) && i < |rows|
    ensures Pick(rows[i], useLast) == 0
  {
    if i > 0 {
      ReadsZeroAt(rows[1..], useLast, i - 1);
    }
  }

  lemma {:induction false} CombineEndsAgree(rows: seq<seq<int>>, i: nat, backwards: bool)
    ensures EndsAgree(rows) ==> Combine(rows, i, true, backwards) == Combine(rows, i, false, backwards)
    decreases |rows| - i
  {
    if i + 1 < |rows| && EndsAgree(rows) {
      EndsAgreeAt(rows, i);
      CombineEndsAgree(rows, i + 1, backwards);
    }
  }

  /** The entries read are all 0: the fold is 0. */
  lemma {:induction false} CombineZero(rows: seq<seq<int>>, i: nat, useLast: bool, backwards: bool)
    ensures ReadsZero(rows, useLast) ==> Combine(rows, i, useLast, backwards) == 0
    decreases |rows| - i
  {
    if i + 1 < |rows| && ReadsZero(rows, useLast) {
      ReadsZeroAt(rows, useLast, i);
      CombineZero(rows, i + 1, useLast, backwards);
    }
  }

  /** `extrapolate`'s loop from the second-last row up to row 0. */
  method Extrapolate(differences: seq<seq<int>>, backwards: bool) returns (number: int)
    ensures number == ExtrapolateAsWritten(differences, backwards)
  {
    var inspectionIndexIsLast := backwards;
    number := 0;
    var i := |differences| - 2;
    while i >= 0
      invariant -2 <= i <= |differences| - 2
      invariant i == -2 ==> differences == [] && number == 0
      invariant i >= -1 ==> number == Combine(differences, i + 1, inspectionIndexIsLast, backwards)
      decreases i
    {
      number := Pick(differences[i], inspectionIndexIsLast) + (if backwards then -1 else 1) * number;
      i := i - 1;
    }
  }

  /** The extrapolation the puzzle and the doc comment describe: the last entries forward, the first entries backwards. */
  function ExtrapolateIntended(rows: seq<seq<int>>, backwards: bool): (number: int)
    ensures ReadsZero(rows, !backwards) ==> number == 0
  {
    CombineZero(rows, 0, !backwards, backwards);
    Combine(rows, 0, !backwards, backwards)
  }

  /** The next value of a history. */
  function NextValue(s: seq<int>): int
  {
    ExtrapolateIntended(DiffRows(s), false)
  }

  /** The value before the first of a history. */
  function PreviousValue(s: seq<int>): int
  {
    ExtrapolateIntended(DiffRows(s), true)
  }

  /** Row i + 1 of a list with one more row in front is row i of the rest. */
  lemma {:induction false} CombineShift(s: seq<int>, rest: seq<seq<int>>, i: nat, useLast: bool, backwards: bool)
    ensures Combine([s] + rest, i + 1, useLast, backwards) == Combine(rest, i, useLast, backwards)
    decreases |rest| - i
  {
    var rows := [s] + rest;
    if i + 1 < |rest| {
      assert rows[i + 1] == rest[i];
      CombineShift(s, rest, i + 1, useLast, backwards);
    }
  }

  /** The fold over the rows of a history unfolds one row at a time. */
  lemma CombineUnfold(s: seq<int>, useLast: bool, backwards: bool)
    ensures AllZero(s) ==> Combine(DiffRows(s), 0, useLast, backwards) == 0
    ensures !AllZero(s) ==> (Combine(DiffRows(s), 0, useLast, backwards) ==
      Pick(s, useLast) + (if backwards then -1 else 1) * Combine(DiffRows(Differences(s)), 0, useLast, backwards))
  {
    if !AllZero(s) {
      var rest := DiffRows(Differences(s));
      var rows := [s] + rest;
      assert DiffRows(s) == rows && rows[0] == s && |rows| >= 2;
      CombineShift(s, rest, 0, useLast, backwards);
    }
  }

  /** A non-zero constant row has all-zero differences. */
  lemma ConstantRow(s: seq<int>, d: int)
    requires |s| >= 1 && d != 0 && forall i | 0 <= i < |s| :: s[i] == d
    ensures !AllZero(s) && AllZero(Differences(s))
  {
    assert s[0] != 0;
  }

  /** The differences of an arithmetic history are its step. */
  lemma ArithmeticDifferences(s: seq<int>, a: int, d: int)
    requires |s| >= 2 && forall i | 0 <= i < |s| :: s[i] == a + i * d
    ensures |Differences(s)| == |s| - 1
    ensures forall i | 0 <= i < |s| - 1 :: Differences(s)[i] == d
    ensures s[0] == a && s[|s| - 1] + d == a + |s| * d
    ensures d != 0 ==> !AllZero(s)
    ensures d == 0 ==> (AllZero(s) <==> a == 0)
  {
    forall i | 0 <= i < |s| - 1
      ensures Differences(s)[i] == d
    {
      assert (i + 1) * d == i * d + d;
    }
    assert (|s| - 1) * d + d == |s| * d;
    if d == 0 {
      assert forall i | 0 <= i < |s| :: s[i] == a;
    } else {
      assert s[1] - s[0] == d;
    }
  }

  /** The next and previous values of a constant row d of length at least 1. */
  lemma ConstantHistory(diffs: seq<int>, d: int)
    requires |diffs| >= 1 && forall i | 0 <= i < |diffs| :: diffs[i] == d
    ensures Combine(DiffRows(diffs), 0, true, false) == d
    ensures Combine(DiffRows(diffs), 0, false, true) == d
    ensures Combine(DiffRows(diffs), 0, false, false) == d
    ensures Combine(DiffRows(diffs), 0, true, true) == d
  {
    CombineUnfold(diffs, true, false);
    CombineUnfold(diffs, false, true);
    CombineUnfold(diffs, false, false);
    CombineUnfold(diffs, true, true);
    if d != 0 {
      ConstantRow(diffs, d);
      var z := Differences(diffs);
      CombineUnfold(z, true, false);
      CombineUnfold(z, false, true);
      CombineUnfold(z, false, false);
      CombineUnfold(z, true, true);
    } else {
      assert AllZero(diffs);
    }
  }

  /**
   * On an arithmetic history a, a + d, …, a + (n − 1)·d with n ≥ 2, the
   * next value is a + n·d and the previous one a − d.
   */
  lemma ArithmeticHistory(s: seq<int>, a: int, d: int)
    requires |s| >= 2 && forall i | 0 <= i < |s| :: s[i] == a + i * d
    ensures NextValue(s) == a + |s| * d
    ensures PreviousValue(s) == a - d
  {
    ArithmeticDifferences(s, a, d);
    var diffs := Differences(s);
    CombineUnfold(s, true, false);
    CombineUnfold(s, false, true);
    if !AllZero(s) {
      ConstantHistory(diffs, d);
    }
  }

  /**
   * As written, an arithmetic history with a non-zero step extrapolates to
   * a + d forward and to a + (n − 2)·d backwards, never to the intended
   * a + n·d and a − d.
   */
  lemma ArithmeticAsWritten(s: seq<int>, a: int, d: int)
    requires |s| >= 2 && d != 0 && forall i | 0 <= i < |s| :: s[i] == a + i * d
    ensures ExtrapolateAsWritten(DiffRows(s), false) == a + d != NextValue(s)
    ensures ExtrapolateAsWritten(DiffRows(s), true) == a + (|s| - 2) * d != PreviousValue(s)
  {
    ArithmeticDifferences(s, a, d);
    var diffs := Differences(s);
    CombineUnfold(s, false, false);
    CombineUnfold(s, true, true);
    ConstantHistory(diffs, d);
    ArithmeticHistory(s, a, d);
    assert s[|s| - 1] - d == a + (|s| - 2) * d;
    NonZeroProduct(|s| - 1, d);
    assert (|s| - 1) * d == |s| * d - d;
  }

  lemma NonZeroProduct(m: int, d: int)
    requires m > 0 && d != 0
    ensures m * d != 0
  {
    if d > 0 {
      assert m * d >= d;
    } else {
      assert m * d <= d;
    }
  }

  /** The doc comment's example [1, 2, 3, 4]: 5 is expected forward, the code gives 2. */
  lemma DocExampleAsWritten()
    ensures ExtrapolateAsWritten(DiffRows([1, 2, 3, 4]), false) == 2
    ensures NextValue([1, 2, 3, 4]) == 5
  {
    var s := [1, 2, 3, 4];
    assert forall i | 0 <= i < |s| :: s[i] == 1 + i * 1;
    ArithmeticAsWritten(s, 1, 1);
  }
}
