/**
 * Chronospatial Computer (2024, day 17): the puzzle's program, decompiled,
 * outputs one 3-bit value per octal digit of register A; part two builds
 * the smallest A whose output is the program itself, one octal digit at a
 * time from the most significant end.
 */
module ChronospatialComputer {
  import opened Common
  import opened Bits

  const Program: seq<nat> := [2, 4, 1, 1, 7, 5, 1, 5, 4, 1, 5, 5, 0, 3, 3, 0]
  const StartA: nat := 17323786

  /**
   * `step`: one pass of the loop body, B = (A mod 8) xor 1, C = A / 2^B,
   * output ((B xor 5) xor C) mod 8.
   */
  function Step(a: nat): (r: nat)
    ensures r < 8
  {
    var b := Xor(a % 8, 1);
    var c := a / Pow2(b);
    Xor(Xor(b, 5), c) % 8
  }

  /** On A = 0 the step outputs 4. */
  lemma StepZero()
    ensures Step(0) == 4
  {
    assert Xor(0, 1) == 1;
    assert Xor(0, 1) == 2 * Xor(0, 0) + 1;
    assert Xor(0, 2) == 2 * Xor(0, 1);
    assert Xor(1, 5) == 2 * Xor(0, 2);
    XorZero(4);
  }

  function Pow8(k: nat): (p: nat)
    ensures p >= 1
  {
    if k == 0 then 1 else 8 * Pow8(k - 1)
  }

  /**
   * `run` for a step function `f` (the puzzle's is `Step`): one output per
   * loop, then A is divided by 8, until A is 0. The digit-by-digit facts
   * below hold for any step function, so they are stated for a parameter.
   */
  function Output(f: nat -> nat, a: nat): seq<nat>
    decreases a
  {
    if a == 0 then [] else [f(a)] + Output(f, a / 8)
  }

  method Run(a: nat) returns (output: seq<nat>)
    ensures output == Output(Step, a)
  {
    output := [];
    var A := a;
    while A != 0
      invariant output + Output(Step, A) == Output(Step, a)
      decreases A
    {
      output := output + [Step(A)];
      A := A / 8;
    }
  }

  /** Dividing by x and then by y is dividing by x × y. */
  lemma DivDiv(c: nat, x: nat, y: nat)
    requires x > 0 && y > 0
    ensures c / (x * y) == (c / x) / y
  {
    var q1, r1 := c / x, c % x;
    var q2, r2 := q1 / y, q1 % y;
    assert c == (x * y) * q2 + (x * r2 + r1) by {
      assert c == x * q1 + r1;
      assert q1 == y * q2 + r2;
      assert x * q1 == x * (y * q2) + x * r2;
    }
    MulMonotone(y - 1, r2, x);
    assert x * r2 + r1 < x * y by {
      assert x * (y - 1) == x * y - x;
    }
    DivUnique(c, x * y, q2, x * r2 + r1);
  }

  /** Dividing by 8^k is dividing by 8 and then by 8^(k-1). */
  lemma Pow8DivFirst(c: nat, k: nat)
    requires k > 0
    ensures c / Pow8(k) == (c / 8) / Pow8(k - 1)
  {
    DivDiv(c, 8, Pow8(k - 1));
  }

  /** A with its k lowest octal digits dropped, one division by 8 at a time. */
  function Shift(c: nat, k: nat): nat
  {
    if k == 0 then c else Shift(c / 8, k - 1)
  }

  /** Dropping k digits is dividing by 8^k. */
  lemma {:induction false} ShiftIsDivision(c: nat, k: nat)
    ensures Shift(c, k) == c / Pow8(k)
  {
    if k > 0 {
      ShiftIsDivision(c / 8, k - 1);
      Pow8DivFirst(c, k);
    }
  }

  /** Dropping k digits is dropping k - 1 and then one more. */
  lemma {:induction false} ShiftLast(c: nat, k: nat)
    requires k > 0
    ensures Shift(c, k) == Shift(c, k - 1) / 8
  {
    if k > 1 {
      ShiftLast(c / 8, k - 1);
    }
  }

  /** q / 8 is a exactly when q is 8a plus a digit below 8. */
  lemma OctalDigit(q: nat, a: nat)
    ensures q / 8 == a <==> a * 8 <= q < a * 8 + 8
  {
    if a * 8 <= q < a * 8 + 8 {
      DivUnique(q, 8, a, q - a * 8);
    }
  }

  /** Entry k of the output is the step on A with k digits dropped, and it exists exactly while that is not 0. */
  lemma {:induction false} OutputAt(f: nat -> nat, c: nat, k: nat)
    ensures k < |Output(f, c)| <==> Shift(c, k) > 0
    ensures k < |Output(f, c)| ==> Output(f, c)[k] == f(Shift(c, k))
    decreases k
  {
    if k > 0 && c > 0 {
      OutputAt(f, c / 8, k - 1);
    }
    if k > 0 && c == 0 {
      ShiftZero(k);
    }
  }

  lemma {:induction false} ShiftZero(k: nat)
    ensures Shift(0, k) == 0
  {
    if k > 0 {
      ShiftZero(k - 1);
    }
  }

  /** The output has one value per octal digit of A: 8^(n-1) ≤ A < 8^n for an output of length n. */
  lemma OutputLength(f: nat -> nat, c: nat)
    requires c > 0
    ensures Pow8(|Output(f, c)| - 1) <= c < Pow8(|Output(f, c)|)
  {
    var n := |Output(f, c)|;
    assert n > 0;
    OutputAt(f, c, n - 1);
    OutputAt(f, c, n);
    ShiftIsDivision(c, n - 1);
    ShiftIsDivision(c, n);
    if c < Pow8(n - 1) {
      DivUnique(c, Pow8(n - 1), 0, c);
    }
  }

  /** A matches the program from index 0 up to `index`: f(A / 8^k) is program[k]. */
  predicate Matches(f: nat -> nat, p: seq<nat>, c: nat, index: nat)
    requires index < |p|
  {
    forall k | 0 <= k <= index :: f(Shift(c, k)) == p[k]
  }

  lemma MatchesExtend(f: nat -> nat, p: seq<nat>, c: nat, index: nat)
    requires 0 < index < |p|
    ensures Matches(f, p, c, index) <==> Matches(f, p, c, index - 1) && f(Shift(c, index)) == p[index]
  {
  }

  /**
   * `findCandidate(A, index)`: nothing unless the step on A is
   * program[index]; at index 0, A itself; otherwise the candidates from
   * A × 8 + B for B in 0..7, in that order.
   */
  function Candidates(f: nat -> nat, p: seq<nat>, a: nat, index: nat): seq<nat>
    requires index < |p|
    decreases index, 9
  {
    if f(a) != p[index] then []
    else if index == 0 then [a]
    else Children(f, p, a, index, 0)
  }

  function Children(f: nat -> nat, p: seq<nat>, a: nat, index: nat, b: nat): seq<nat>
    requires 0 < index < |p| && b <= 8
    decreases index, 8 - b
  {
    if b == 8 then [] else Candidates(f, p, a * 8 + b, index - 1) + Children(f, p, a, index, b + 1)
  }

  /** A candidate from A at `index` is exactly a number whose digits above `index` give A and that matches up to `index`. */
  lemma {:induction false} CandidatesMeaning(f: nat -> nat, p: seq<nat>, a: nat, index: nat, c: nat)
    requires index < |p|
    ensures c in Candidates(f, p, a, index) <==> Shift(c, index) == a && Matches(f, p, c, index)
    decreases index, 9
  {
    if index > 0 {
      var q := Shift(c, index - 1);
      ShiftLast(c, index);
      OctalDigit(q, a);
      ChildrenMeaning(f, p, a, index, 0, c);
      MatchesExtend(f, p, c, index);
    }
  }

  lemma {:induction false} ChildrenMeaning(f: nat -> nat, p: seq<nat>, a: nat, index: nat, b: nat, c: nat)
    requires 0 < index < |p| && b <= 8
    ensures c in Children(f, p, a, index, b) <==>
      a * 8 + b <= Shift(c, index - 1) < a * 8 + 8 && Matches(f, p, c, index - 1)
    decreases index, 8 - b
  {
    if b < 8 {
      CandidatesMeaning(f, p, a * 8 + b, index - 1, c);
      ChildrenMeaning(f, p, a, index, b + 1, c);
    }
  }

  /** `findCandidate` for the step function `f`, returning what it pushes onto `output`, in order. */
  method FindCandidate(f: nat -> nat, p: seq<nat>, a: nat, index: nat) returns (found: seq<nat>)
    requires index < |p|
    ensures found == Candidates(f, p, a, index)
    decreases index
  {
    if f(a) != p[index] {
      return [];
    }
    if index == 0 {
      return [a];
    }
    found := [];
    var b := 0;
    while b < 8
      invariant 0 <= b <= 8
      invariant found + Children(f, p, a, index, b) == Children(f, p, a, index, 0)
    {
      var more := FindCandidate(f, p, a * 8 + b, index - 1);
      assert Children(f, p, a, index, b) == more + Children(f, p, a, index, b + 1);
      found := found + more;
      b := b + 1;
    }
    assert Candidates(f, p, a, index) == Children(f, p, a, index, 0);
  }

  /** The top-level loop after its first n rounds: the candidates from A = 0..n-1 at the last index, in that order. */
  function AllCandidates(f: nat -> nat, p: seq<nat>, n: nat): seq<nat>
    requires |p| > 0
  {
    if n == 0 then [] else AllCandidates(f, p, n - 1) + Candidates(f, p, n - 1, |p| - 1)
  }

  lemma {:induction false} AllCandidatesMeaning(f: nat -> nat, p: seq<nat>, n: nat, c: nat)
    requires |p| > 0
    ensures c in AllCandidates(f, p, n) <==> Shift(c, |p| - 1) < n && Matches(f, p, c, |p| - 1)
  {
    if n > 0 {
      CandidatesMeaning(f, p, n - 1, |p| - 1, c);
      AllCandidatesMeaning(f, p, n - 1, c);
    }
  }

  /** The output is the program exactly when the top octal digit is 1..7 and every digit matches. */
  lemma QuineDigits(f: nat -> nat, p: seq<nat>, c: nat)
    requires |p| > 0
    ensures Output(f, c) == p <==> 0 < Shift(c, |p| - 1) < 8 && Matches(f, p, c, |p| - 1)
  {
    var n := |p|;
    var q := Shift(c, n - 1);
    OutputAt(f, c, n - 1);
    OutputAt(f, c, n);
    ShiftLast(c, n);
    OctalDigit(q, 0);
    if Output(f, c) == p {
      forall k | 0 <= k <= n - 1 ensures f(Shift(c, k)) == p[k] {
        OutputAt(f, c, k);
      }
    }
    if 0 < q < 8 && Matches(f, p, c, n - 1) {
      assert |Output(f, c)| == n;
      forall k | 0 <= k < n ensures Output(f, c)[k] == p[k] {
        OutputAt(f, c, k);
      }
    }
  }

  /** When f(0) differs from the last program value, the candidates are exactly the values of A whose output is the program. */
  lemma CandidatesAreQuines(f: nat -> nat, p: seq<nat>, c: nat)
    requires |p| > 0 && f(0) != p[|p| - 1]
    ensures c in AllCandidates(f, p, 8) <==> Output(f, c) == p
  {
    AllCandidatesMeaning(f, p, 8, c);
    QuineDigits(f, p, c);
    if Shift(c, |p| - 1) == 0 {
      assert !Matches(f, p, c, |p| - 1);
    }
  }

  /** `Math.min(...)`: None stands for the `Infinity` of an empty list. */
  function Minimum(s: seq<nat>): (r: Option<nat>)
    ensures r.Some? <==> s != []
    ensures r.Some? ==> r.value in s && forall x | x in s :: r.value <= x
  {
    if s == [] then None
    else
      var rest := Minimum(s[1..]);
      assert forall x | x in s :: x == s[0] || x in s[1..];
      if rest.None? || s[0] <= rest.value then Some(s[0]) else rest
  }

  /** `findQuine` for a program `p` and step `f`; the puzzle's are `Program` and `Step`. */
  method FindQuine(f: nat -> nat, p: seq<nat>) returns (r: Option<nat>)
    requires |p| > 0
    ensures r == Minimum(AllCandidates(f, p, 8))
  {
    var output: seq<nat> := [];
    var a := 0;
    while a < 8
      invariant 0 <= a <= 8
      invariant output == AllCandidates(f, p, a)
    {
      var found := FindCandidate(f, p, a, |p| - 1);
      output := output + found;
      a := a + 1;
    }
    r := Minimum(output);
  }

  /**
   * `findQuine` finds the smallest A whose output is the program, and None
   * exactly when there is none, whenever the step on A = 0 does not give
   * the program's last value.
   */
  lemma FindQuineIsSmallest(f: nat -> nat, p: seq<nat>, r: Option<nat>)
    requires |p| > 0 && f(0) != p[|p| - 1]
    requires r == Minimum(AllCandidates(f, p, 8))
    ensures r.Some? ==> Output(f, r.value) == p
    ensures forall c: nat | Output(f, c) == p :: r.Some? && r.value <= c
  {
    forall c: nat | c in AllCandidates(f, p, 8) ensures Output(f, c) == p {
      CandidatesAreQuines(f, p, c);
    }
    forall c: nat | Output(f, c) == p ensures c in AllCandidates(f, p, 8) {
      CandidatesAreQuines(f, p, c);
    }
  }

  /** The puzzle's program ends in 0 while the step on A = 0 gives 4, so its `findQuine` is exact. */
  lemma ProgramAvoidsZeroStep()
    ensures Step(0) != Program[|Program| - 1]
  {
    StepZero();
  }
}
