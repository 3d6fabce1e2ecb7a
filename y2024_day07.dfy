/**
 * Bridge Repair (2024, day 7): an equation is valid when its elements,
 * combined strictly from left to right with operators chosen from a given
 * list, can make its target.
 */
module BridgeRepair {
  import opened Strings

  datatype Op = Add | Mul | Con

  datatype Equation = Equation(target: nat, elements: seq<nat>)

  /** `con`: the number whose decimal digits are those of `a` followed by those of `b`. */
  function Concat(a: nat, b: nat): nat
  {
    DecimalValue(NatToDecimal(a) + NatToDecimal(b))
  }

  /** `add`, `mul` and `con`. */
  function Apply(op: Op, a: nat, b: nat): nat
  {
    match op
    case Add => a + b
    case Mul => a * b
    case Con => Concat(a, b)
  }

  /** The value of appended digits: the first part shifted left by the second part's length. */
  lemma {:induction false} DecimalAppend(s: string, t: string)
    requires AllDigits(s) && AllDigits(t)
    ensures DecimalValue(s + t) == DecimalValue(s) * Pow10(|t|) + DecimalValue(t)
    decreases |t|
  {
    if t != [] {
      var front, c := t[..|t| - 1], t[|t| - 1];
      assert t == front + [c];
      assert s + t == (s + front) + [c];
      DecimalAppend(s, front);
      DecimalSnoc(s + front, c);
      DecimalSnoc(front, c);
      ShiftDigit(DecimalValue(s), Pow10(|front|), DecimalValue(front), DigitValue(c));
    } else {
      assert s + t == s;
    }
  }

  /** A digit appended to a decimal string multiplies its value by ten and adds the digit. */
  lemma DecimalSnoc(s: string, c: char)
    requires AllDigits(s) && IsDigit(c)
    ensures AllDigits(s + [c])
    ensures DecimalValue(s + [c]) == 10 * DecimalValue(s) + DigitValue(c)
  {
    var u := s + [c];
    assert u[..|u| - 1] == s;
  }

  lemma ShiftDigit(a: int, p: int, b: int, d: int)
    ensures 10 * (a * p + b) + d == a * (10 * p) + (10 * b + d)
  {
  }

  function Pow10(e: nat): (p: nat)
    ensures p >= 1
  {
    if e == 0 then 1 else 10 * Pow10(e - 1)
  }

  /** Concatenation is `a` times ten to the number of digits of `b`, plus `b`. */
  lemma ConcatArithmetic(a: nat, b: nat)
    ensures Concat(a, b) == a * Pow10(|NatToDecimal(b)|) + b
  {
    DecimalAppend(NatToDecimal(a), NatToDecimal(b));
    DecimalRoundTrip(a);
    DecimalRoundTrip(b);
  }

  /** `current.flatMap(c => operations.map(op => op(c, n)))`. */
  function Expand(current: seq<nat>, ops: seq<Op>, n: nat): (r: seq<nat>)
    ensures |r| == |current| * |ops|
  {
    if current == [] then []
    else seq(|ops|, j requires 0 <= j < |ops| => Apply(ops[j], current[0], n)) + Expand(current[1..], ops, n)
  }

  lemma {:induction false} ExpandMembers(current: seq<nat>, ops: seq<Op>, n: nat, v: nat)
    ensures v in Expand(current, ops, n) <==>
      exists i, j | 0 <= i < |current| && 0 <= j < |ops| :: v == Apply(ops[j], current[i], n)
  {
    if current != [] {
      ExpandMembers(current[1..], ops, n, v);
      var head := seq(|ops|, j requires 0 <= j < |ops| => Apply(ops[j], current[0], n));
      assert Expand(current, ops, n) == head + Expand(current[1..], ops, n);
      if v in Expand(current[1..], ops, n) {
        var i, j :| 0 <= i < |current[1..]| && 0 <= j < |ops| && v == Apply(ops[j], current[1..][i], n);
        assert v == Apply(ops[j], current[i + 1], n);
      }
      if v in head {
        var j :| 0 <= j < |ops| && head[j] == v;
        assert v == Apply(ops[j], current[0], n);
      }
      if exists i, j | 0 <= i < |current| && 0 <= j < |ops| :: v == Apply(ops[j], current[i], n) {
        var i, j :| 0 <= i < |current| && 0 <= j < |ops| && v == Apply(ops[j], current[i], n);
        if i == 0 {
          assert head[j] == v;
        } else {
          assert v == Apply(ops[j], current[1..][i - 1], n);
        }
      }
    }
  }

  /** The values `current` holds once every element has been folded in. */
  function Candidates(elements: seq<nat>, ops: seq<Op>): seq<nat>
    requires |elements| > 0
  {
    if |elements| == 1 then [elements[0]]
    else Expand(Candidates(elements[..|elements| - 1], ops), ops, elements[|elements| - 1])
  }

  function Power(b: nat, e: nat): nat
  {
    if e == 0 then 1 else b * Power(b, e - 1)
  }

  /** After k + 1 elements there is one candidate per choice of k operators. */
  lemma {:induction false} CandidatesCount(elements: seq<nat>, ops: seq<Op>)
    requires |elements| > 0
    ensures |Candidates(elements, ops)| == Power(|ops|, |elements| - 1)
  {
    if |elements| > 1 {
      CandidatesCount(elements[..|elements| - 1], ops);
    }
  }

  predicate AllIn(choice: seq<Op>, ops: seq<Op>)
  {
    forall k | 0 <= k < |choice| :: choice[k] in ops
  }

  /** The elements combined strictly left to right with the chosen operators, ignoring precedence. */
  function EvalLeft(elements: seq<nat>, choice: seq<Op>): nat
    requires |elements| > 0 && |choice| == |elements| - 1
  {
    if |elements| == 1 then elements[0]
    else Apply(choice[|choice| - 1], EvalLeft(elements[..|elements| - 1], choice[..|choice| - 1]), elements[|elements| - 1])
  }

  /** Every candidate is the left-to-right value of some choice of operators from the list. */
  lemma {:induction false} CandidatesSound(elements: seq<nat>, ops: seq<Op>, v: nat) returns (choice: seq<Op>)
    requires |elements| > 0 && v in Candidates(elements, ops)
    ensures |choice| == |elements| - 1 && AllIn(choice, ops) && EvalLeft(elements, choice) == v
  {
    if |elements| == 1 {
      choice := [];
    } else {
      var front := elements[..|elements| - 1];
      var last := elements[|elements| - 1];
      var current := Candidates(front, ops);
      ExpandMembers(current, ops, last, v);
      var i, j :| 0 <= i < |current| && 0 <= j < |ops| && v == Apply(ops[j], current[i], last);
      var shorter := CandidatesSound(front, ops, current[i]);
      choice := shorter + [ops[j]];
      assert choice[..|choice| - 1] == shorter;
    }
  }

  /** The left-to-right value of every choice of operators from the list is a candidate. */
  lemma {:induction false} CandidatesComplete(elements: seq<nat>, ops: seq<Op>, choice: seq<Op>)
    requires |elements| > 0 && |choice| == |elements| - 1 && AllIn(choice, ops)
    ensures EvalLeft(elements, choice) in Candidates(elements, ops)
  {
    if |elements| > 1 {
      var front := elements[..|elements| - 1];
      var last := elements[|elements| - 1];
      var shorter := choice[..|choice| - 1];
      CandidatesComplete(front, ops, shorter);
      var current := Candidates(front, ops);
      var c := EvalLeft(front, shorter);
      var i :| 0 <= i < |current| && current[i] == c;
      var j :| 0 <= j < |ops| && ops[j] == choice[|choice| - 1];
      ExpandMembers(current, ops, last, EvalLeft(elements, choice));
      assert EvalLeft(elements, choice) == Apply(ops[j], current[i], last);
    }
  }

  /** The candidates are exactly the left-to-right values of every choice of operators. */
  lemma CandidatesMeaning(elements: seq<nat>, ops: seq<Op>, v: nat)
    requires |elements| > 0
    ensures v in Candidates(elements, ops) <==>
      exists choice | |choice| == |elements| - 1 && AllIn(choice, ops) :: EvalLeft(elements, choice) == v
  {
    if v in Candidates(elements, ops) {
      var choice := CandidatesSound(elements, ops, v);
    }
    if exists choice | |choice| == |elements| - 1 && AllIn(choice, ops) :: EvalLeft(elements, choice) == v {
      var choice :| |choice| == |elements| - 1 && AllIn(choice, ops) && EvalLeft(elements, choice) == v;
      CandidatesComplete(elements, ops, choice);
    }
  }

  /** `isValid`: some left-to-right combination makes the target; an equation without elements never does. */
  predicate Valid(equation: Equation, ops: seq<Op>)
  {
    |equation.elements| > 0 && equation.target in Candidates(equation.elements, ops)
  }

  method IsValid(equation: Equation, ops: seq<Op>) returns (valid: bool)
    ensures valid == Valid(equation, ops)
  {
    var elements := equation.elements;
    if |elements| == 0 {
      return false;
    }
    var current := [elements[0]];
    var i := 1;
    while i < |elements|
      invariant 1 <= i <= |elements|
      invariant current == Candidates(elements[..i], ops)
    {
      var n := elements[i];
      assert elements[..i + 1][..i] == elements[..i];
      current := Expand(current, ops, n);
      i := i + 1;
    }
    assert elements[..i] == elements;
    return equation.target in current;
  }

  /** More operators never make a valid equation invalid: part two finds every target part one does. */
  lemma MoreOperators(equation: Equation, ops: seq<Op>, more: seq<Op>)
    requires forall op | op in ops :: op in more
    requires Valid(equation, ops)
    ensures Valid(equation, more)
  {
    CandidatesMeaning(equation.elements, ops, equation.target);
    CandidatesMeaning(equation.elements, more, equation.target);
  }

  /** `getValidTargets`: the targets of the valid equations, in input order. */
  function ValidTargets(equations: seq<Equation>, ops: seq<Op>): (r: seq<nat>)
    ensures |r| <= |equations|
  {
    if equations == [] then []
    else
      var rest := ValidTargets(equations[1..], ops);
      if Valid(equations[0], ops) then [equations[0].target] + rest else rest
  }

  /** Every kept target belongs to a valid equation, and every valid equation's target is kept. */
  lemma {:induction false} ValidTargetsMeaning(equations: seq<Equation>, ops: seq<Op>)
    ensures forall t :: t in ValidTargets(equations, ops) <==>
      exists k | 0 <= k < |equations| :: Valid(equations[k], ops) && equations[k].target == t
  {
    if equations != [] {
      ValidTargetsMeaning(equations[1..], ops);
      forall t | exists k | 0 <= k < |equations| :: Valid(equations[k], ops) && equations[k].target == t
        ensures t in ValidTargets(equations, ops)
      {
        var k :| 0 <= k < |equations| && Valid(equations[k], ops) && equations[k].target == t;
        if k > 0 {
          assert equations[1..][k - 1] == equations[k];
        }
      }
    }
  }

  /** The targets kept from two lists of equations are those kept from each, in order. */
  lemma {:induction false} ValidTargetsAppend(a: seq<Equation>, b: seq<Equation>, ops: seq<Op>)
    ensures ValidTargets(a + b, ops) == ValidTargets(a, ops) + ValidTargets(b, ops)
  {
    if a == [] {
      assert a + b == b;
    } else {
      assert (a + b)[1..] == a[1..] + b;
      ValidTargetsAppend(a[1..], b, ops);
    }
  }
}
