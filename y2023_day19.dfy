/**
 * Aplenty (2023, day 19): parts with ratings x, m, a, s go through named
 * workflows of conditions until one sends them to A (accepted) or R
 * (rejected); the second part counts the rating combinations in [1, 4001)
 * that are accepted, by splitting ranges of ratings at each condition.
 */
module Aplenty {
  import opened Common

  datatype Field = X | M | A | S

  datatype Part = Part(x: int, m: int, a: int, s: int)

  function Rating(p: Part, f: Field): int
  {
    match f
    case X => p.x
    case M => p.m
    case A => p.a
    case S => p.s
  }

  /** A rule `field operator value : target`. */
  datatype Condition = Condition(field: Field, operator: string, value: int, target: string)

  /** The conditions in order, then the target when none holds. */
  datatype Workflow = Workflow(name: string, conditions: seq<Condition>, fallback: string)

  /** `evaluateCondition`: "<" is strictly less, every other operator strictly greater. */
  predicate Evaluate(c: Condition, p: Part)
  {
    if c.operator == "<" then Rating(p, c.field) < c.value else Rating(p, c.field) > c.value
  }

  /** The half-open interval [lo, hi). */
  datatype Interval = Interval(lo: int, hi: int)

  datatype Range = Range(x: Interval, m: Interval, a: Interval, s: Interval)

  function Get(r: Range, f: Field): Interval
  {
    match f
    case X => r.x
    case M => r.m
    case A => r.a
    case S => r.s
  }

  /** `{ ...range, [field]: i }`. */
  function Set(r: Range, f: Field, i: Interval): (r': Range)
    ensures Get(r', f) == i
    ensures forall g: Field | g != f :: Get(r', g) == Get(r, g)
  {
    match f
    case X => r.(x := i)
    case M => r.(m := i)
    case A => r.(a := i)
    case S => r.(s := i)
  }

  predicate InInterval(v: int, i: Interval) { i.lo <= v < i.hi }

  predicate InRange(p: Part, r: Range)
  {
    forall f: Field :: InInterval(Rating(p, f), Get(r, f))
  }

  /** `Math.max(0, max - min)`: the number of integers in the interval. */
  function Width(i: Interval): nat
  {
    if i.hi < i.lo then 0 else i.hi - i.lo
  }

  /** `countInRange`: the product of the four widths. */
  function Count(r: Range): nat
  {
    Width(r.x) * Width(r.m) * Width(r.a) * Width(r.s)
  }

  /** Where a condition cuts its field: below `value` for "<", above `value` for ">". */
  function Pivot(c: Condition): int
  {
    if c.operator == "<" then c.value else c.value + 1
  }

  /** `applyConditionToRange` as written: the passing and the failing range, cut at the pivot. */
  function ApplyConditionToRange(c: Condition, r: Range): (Range, Range)
  {
    var i := Get(r, c.field);
    if c.operator == "<" then
      (Set(r, c.field, Interval(i.lo, c.value)), Set(r, c.field, Interval(c.value, i.hi)))
    else
      (Set(r, c.field, Interval(c.value + 1, i.hi)), Set(r, c.field, Interval(i.lo, c.value + 1)))
  }

  /** The pivot moved into the field's interval. */
  function Clamp(v: int, i: Interval): int
  {
    if v < i.lo then i.lo else if v > i.hi then i.hi else v
  }

  /** The split with the pivot clamped into the interval, so that neither half reaches outside the range. */
  function SplitRange(c: Condition, r: Range): (Range, Range)
  {
    var i := Get(r, c.field);
    var p := Clamp(Pivot(c), i);
    if c.operator == "<" then
      (Set(r, c.field, Interval(i.lo, p)), Set(r, c.field, Interval(p, i.hi)))
    else
      (Set(r, c.field, Interval(p, i.hi)), Set(r, c.field, Interval(i.lo, p)))
  }

  /** The pivot lies in the field's closed interval. */
  predicate PivotInside(c: Condition, r: Range)
  {
    Get(r, c.field).lo <= Pivot(c) <= Get(r, c.field).hi
  }

  /** With the pivot inside the interval, clamping changes nothing. */
  lemma SplitAgrees(c: Condition, r: Range)
    requires PivotInside(c, r)
    ensures SplitRange(c, r) == ApplyConditionToRange(c, r)
  {
  }

  /** The product of the three widths other than f's. */
  function Others(r: Range, f: Field): nat
  {
    match f
    case X => Width(r.m) * Width(r.a) * Width(r.s)
    case M => Width(r.x) * Width(r.a) * Width(r.s)
    case A => Width(r.x) * Width(r.m) * Width(r.s)
    case S => Width(r.x) * Width(r.m) * Width(r.a)
  }

  lemma CountFactor(r: Range, f: Field)
    ensures Count(r) == Width(Get(r, f)) * Others(r, f)
  {
    var x, m, a, s := Width(r.x), Width(r.m), Width(r.a), Width(r.s);
    match f {
      case X =>
        MulAssoc(x, m * a, s);
        MulAssoc(x, m, a);
      case M =>
        MulComm(x, m);
        MulAssoc(m, x, a);
        MulAssoc(m, x * a, s);
      case A =>
        MulComm(x * m, a);
        MulAssoc(a, x * m, s);
      case S =>
        MulComm(x * m * a, s);
    }
  }

  lemma MulComm(a: int, b: int)
    ensures a * b == b * a
  {
  }

  lemma MulAssoc(a: int, b: int, c: int)
    ensures a * b * c == a * (b * c)
  {
  }

  lemma OthersSet(r: Range, f: Field, i: Interval)
    ensures Others(Set(r, f, i), f) == Others(r, f)
  {
  }

  lemma MulDistributes(x: int, y: int, d: int)
    ensures x * (y + d) == x * y + x * d
  {
  }

  /** Cutting an interval at a point inside it splits the count in two. */
  lemma CountCut(r: Range, f: Field, p: int)
    requires Get(r, f).lo <= p <= Get(r, f).hi
    ensures Count(Set(r, f, Interval(Get(r, f).lo, p))) + Count(Set(r, f, Interval(p, Get(r, f).hi))) == Count(r)
  {
    var i := Get(r, f);
    var below, above := Set(r, f, Interval(i.lo, p)), Set(r, f, Interval(p, i.hi));
    CountFactor(r, f);
    CountFactor(below, f);
    CountFactor(above, f);
    OthersSet(r, f, Interval(i.lo, p));
    OthersSet(r, f, Interval(p, i.hi));
    MulDistributes(Others(r, f), p - i.lo, i.hi - p);
  }

  /**
   * The corrected split: every part of the range lands in exactly one half,
   * in the passing half exactly when it passes the condition.
   */
  lemma SplitRangeSound(c: Condition, r: Range, p: Part)
    ensures InRange(p, SplitRange(c, r).0) <==> InRange(p, r) && Evaluate(c, p)
    ensures InRange(p, SplitRange(c, r).1) <==> InRange(p, r) && !Evaluate(c, p)
  {
    var (pass, fail) := SplitRange(c, r);
    var i := Get(r, c.field);
    InRangeSet(p, r, c.field, Get(pass, c.field));
    InRangeSet(p, r, c.field, Get(fail, c.field));
    InRangeSet(p, r, c.field, i);
    assert Set(r, c.field, i) == r by {
      match c.field
      case X => case M => case A => case S =>
    }
  }

  /** A part is in a range with one interval replaced when it is in that interval and in the others. */
  lemma InRangeSet(p: Part, r: Range, f: Field, i: Interval)
    ensures InRange(p, Set(r, f, i)) <==>
      InInterval(Rating(p, f), i) && forall g: Field | g != f :: InInterval(Rating(p, g), Get(r, g))
  {
    var r' := Set(r, f, i);
    if InInterval(Rating(p, f), i) && forall g: Field | g != f :: InInterval(Rating(p, g), Get(r, g)) {
      forall g: Field
        ensures InInterval(Rating(p, g), Get(r', g))
      {
        if g != f {
          assert Get(r', g) == Get(r, g);
        }
      }
    }
  }

  /** The counts of the two halves of the corrected split add up to the count of the range. */
  lemma SplitRangeCount(c: Condition, r: Range)
    ensures Count(SplitRange(c, r).0) + Count(SplitRange(c, r).1) == Count(r)
  {
    var i := Get(r, c.field);
    var p := Clamp(Pivot(c), i);
    if i.lo <= i.hi {
      CountCut(r, c.field, p);
    } else {
      CountFactor(r, c.field);
      CountFactor(SplitRange(c, r).0, c.field);
      CountFactor(SplitRange(c, r).1, c.field);
    }
  }

  /**
   * As written, a pivot outside the range widens a half beyond it: after
   * `x<1000` has left x in [1000, 4001), `x>500` passes [501, 4001), which
   * holds x = 600, outside the range.
   */
  lemma AsWrittenWidens()
    ensures var r := Range(Interval(1000, 4001), Interval(1, 4001), Interval(1, 4001), Interval(1, 4001));
      var c := Condition(X, ">", 500, "A");
      var p := Part(600, 1, 1, 1);
      InRange(p, ApplyConditionToRange(c, r).0) && !InRange(p, r) &&
      Count(ApplyConditionToRange(c, r).0) + Count(ApplyConditionToRange(c, r).1) > Count(r)
  {
    var r := Range(Interval(1000, 4001), Interval(1, 4001), Interval(1, 4001), Interval(1, 4001));
    var p := Part(600, 1, 1, 1);
    assert !InInterval(Rating(p, X), Get(r, X));
  }

  /** The first condition that holds sends the part to its target; with none, the fallback. */
  function FirstTarget(conditions: seq<Condition>, p: Part, fallback: string): string
  {
    if conditions == [] then fallback
    else if Evaluate(conditions[0], p) then conditions[0].target
    else FirstTarget(conditions[1..], p, fallback)
  }

  /** Condition i is the first the part passes. */
  predicate FirstPassed(conditions: seq<Condition>, p: Part, i: int)
    requires 0 <= i < |conditions|
  {
    Evaluate(conditions[i], p) && forall k | 0 <= k < i :: !Evaluate(conditions[k], p)
  }

  /** The target is that of the first condition the part passes, or the fallback when it passes none. */
  lemma {:induction false} FirstTargetSpec(conditions: seq<Condition>, p: Part, fallback: string)
    ensures (exists i | 0 <= i < |conditions| ::
        FirstPassed(conditions, p, i) && FirstTarget(conditions, p, fallback) == conditions[i].target) ||
      ((forall k | 0 <= k < |conditions| :: !Evaluate(conditions[k], p)) && FirstTarget(conditions, p, fallback) == fallback)
  {
    if conditions != [] && !Evaluate(conditions[0], p) {
      var rest := conditions[1..];
      FirstTargetSpec(rest, p, fallback);
      assert forall k | 1 <= k < |conditions| :: conditions[k] == rest[k - 1];
      if exists i | 0 <= i < |rest| :: FirstPassed(rest, p, i) && FirstTarget(rest, p, fallback) == rest[i].target {
        var i :| 0 <= i < |rest| && FirstPassed(rest, p, i) && FirstTarget(rest, p, fallback) == rest[i].target;
        assert FirstPassed(conditions, p, i + 1);
      }
    } else if conditions != [] {
      assert FirstPassed(conditions, p, 0);
    }
  }

  /** The inner `for` loop of `processPart`: the first condition the part passes, with `break`. */
  method FindTarget(w: Workflow, p: Part) returns (target: string)
    ensures target == FirstTarget(w.conditions, p, w.fallback)
  {
    target := w.fallback;
    var i := 0;
    while i < |w.conditions|
      invariant 0 <= i <= |w.conditions|
      invariant FirstTarget(w.conditions, p, w.fallback) == FirstTarget(w.conditions[i..], p, w.fallback)
    {
      assert w.conditions[i..][1..] == w.conditions[i + 1..];
      if Evaluate(w.conditions[i], p) {
        target := w.conditions[i].target;
        return;
      }
      i := i + 1;
    }
  }

  /** Where a part ends up: a status A or R, a workflow name that does not exist, or no decision within the fuel. */
  datatype Outcome = Done(status: string) | Crash | Undecided

  /** Following workflows from w for at most `fuel` of them. */
  function Route(workflows: map<string, Workflow>, w: Workflow, p: Part, fuel: nat): (o: Outcome)
    ensures o.Done? ==> o.status == "A" || o.status == "R"
    decreases fuel
  {
    if fuel == 0 then Undecided
    else
      var target := FirstTarget(w.conditions, p, w.fallback);
      if target == "A" || target == "R" then Done(target)
      else if target in workflows then Route(workflows, workflows[target], p, fuel - 1)
      else Crash
  }

  /** `processPart`: starts at "in"; a missing workflow is `undefined`, whose `fallback` throws. */
  function ProcessPartSpec(workflows: map<string, Workflow>, p: Part, fuel: nat): Outcome
  {
    if "in" in workflows then Route(workflows, workflows["in"], p, fuel) else Crash
  }

  /** A decision reached with some fuel stays the same with more. */
  lemma {:induction false} RouteMoreFuel(workflows: map<string, Workflow>, w: Workflow, p: Part, fuel: nat, more: nat)
    requires Route(workflows, w, p, fuel) != Undecided && fuel <= more
    ensures Route(workflows, w, p, more) == Route(workflows, w, p, fuel)
    decreases fuel
  {
    var target := FirstTarget(w.conditions, p, w.fallback);
    if target != "A" && target != "R" && target in workflows {
      RouteMoreFuel(workflows, workflows[target], p, fuel - 1, more - 1);
    }
  }

  /** `processPart`'s loop, visiting at most `fuel` workflows. */
  method ProcessPart(workflows: map<string, Workflow>, p: Part, fuel: nat) returns (o: Outcome)
    ensures o == ProcessPartSpec(workflows, p, fuel)
  {
    if "in" !in workflows {
      return Crash;
    }
    var w := workflows["in"];
    var steps: nat := fuel;
    while steps > 0
      invariant steps <= fuel
      invariant Route(workflows, w, p, steps) == ProcessPartSpec(workflows, p, fuel)
    {
      var target := FindTarget(w, p);
      if target == "A" || target == "R" {
        return Done(target);
      }
      if target !in workflows {
        return Crash;
      }
      w := workflows[target];
      steps := steps - 1;
    }
    return Undecided;
  }

  /** The split `getPossiblePasses` uses: as written, or with the pivot clamped. */
  function Split(c: Condition, r: Range, clamped: bool): (Range, Range)
  {
    if clamped then SplitRange(c, r) else ApplyConditionToRange(c, r)
  }

  /** `this._workflows.get(target)!`: an unknown name is `undefined`, so the default parameter, the "in" workflow, is used. */
  function Lookup(workflows: map<string, Workflow>, name: string): Workflow
    requires "in" in workflows
  {
    if name in workflows then workflows[name] else workflows["in"]
  }

  /** The accepted combinations of a range that a target gets. */
  function TargetPasses(workflows: map<string, Workflow>, target: string, r: Range, fuel: nat, clamped: bool): nat
    requires "in" in workflows
    decreases fuel, 0
  {
    if target == "A" then Count(r)
    else if target == "R" || fuel == 0 then 0
    else Passes(workflows, Lookup(workflows, target), r, fuel - 1, clamped)
  }

  /** The conditions from the first on, each passing its half to its target and leaving the other half to the rest. */
  function PassesFrom(workflows: map<string, Workflow>, conditions: seq<Condition>, fallback: string, r: Range, fuel: nat, clamped: bool): nat
    requires "in" in workflows
    decreases fuel, |conditions| + 1
  {
    if conditions == [] then TargetPasses(workflows, fallback, r, fuel, clamped)
    else
      var (pass, fail) := Split(conditions[0], r, clamped);
      TargetPasses(workflows, conditions[0].target, pass, fuel, clamped) +
      PassesFrom(workflows, conditions[1..], fallback, fail, fuel, clamped)
  }

  /** `getPossiblePasses(workflow, range)`, with at most `fuel` nested workflow calls. */
  function Passes(workflows: map<string, Workflow>, w: Workflow, r: Range, fuel: nat, clamped: bool): nat
    requires "in" in workflows
    decreases fuel, |w.conditions| + 2
  {
    PassesFrom(workflows, w.conditions, w.fallback, r, fuel, clamped)
  }

  /** With the clamped split no range is ever counted for more combinations than it holds. */
  lemma {:induction false} PassesBound(workflows: map<string, Workflow>, w: Workflow, r: Range, fuel: nat)
    requires "in" in workflows
    ensures Passes(workflows, w, r, fuel, true) <= Count(r)
    decreases fuel, |w.conditions| + 2
  {
    PassesFromBound(workflows, w.conditions, w.fallback, r, fuel);
  }

  lemma {:induction false} PassesFromBound(workflows: map<string, Workflow>, conditions: seq<Condition>, fallback: string, r: Range, fuel: nat)
    requires "in" in workflows
    ensures PassesFrom(workflows, conditions, fallback, r, fuel, true) <= Count(r)
    decreases fuel, |conditions| + 1
  {
    if conditions == [] {
      TargetPassesBound(workflows, fallback, r, fuel);
    } else {
      var (pass, fail) := SplitRange(conditions[0], r);
      SplitRangeCount(conditions[0], r);
      TargetPassesBound(workflows, conditions[0].target, pass, fuel);
      PassesFromBound(workflows, conditions[1..], fallback, fail, fuel);
    }
  }

  lemma {:induction false} TargetPassesBound(workflows: map<string, Workflow>, target: string, r: Range, fuel: nat)
    requires "in" in workflows
    ensures TargetPasses(workflows, target, r, fuel, true) <= Count(r)
    decreases fuel, 0
  {
    if target != "A" && target != "R" && fuel > 0 {
      PassesBound(workflows, Lookup(workflows, target), r, fuel - 1);
    }
  }

  /** All ratings in [1, 4001). */
  const Full: Range := Range(Interval(1, 4001), Interval(1, 4001), Interval(1, 4001), Interval(1, 4001))

  /**
   * With `in{x<1000:R,x>500:A,R}` every part with x below 1000 is rejected,
   * yet the split as written counts 3500 × 4000³ accepted combinations,
   * among them x in [501, 1000); the clamped split counts the 3001 × 4000³
   * that are accepted.
   */
  lemma OverlappingConditions()
    ensures var w := Workflow("in", [Condition(X, "<", 1000, "R"), Condition(X, ">", 500, "A")], "R");
      var workflows := map["in" := w];
      Passes(workflows, w, Full, 1, false) == 3500 * 4000 * 4000 * 4000 &&
      Passes(workflows, w, Full, 1, true) == 3001 * 4000 * 4000 * 4000 &&
      ProcessPartSpec(workflows, Part(600, 1, 1, 1), 1) == Done("R")
  {
    var w := Workflow("in", [Condition(X, "<", 1000, "R"), Condition(X, ">", 500, "A")], "R");
    var workflows := map["in" := w];
    var c0, c1 := w.conditions[0], w.conditions[1];
    var fail0 := ApplyConditionToRange(c0, Full).1;
    assert fail0 == Full.(x := Interval(1000, 4001));
    assert ApplyConditionToRange(c1, fail0) == (Full.(x := Interval(501, 4001)), Full.(x := Interval(1000, 501)));
    assert w.conditions[1..] == [c1] && w.conditions[1..][1..] == [];
    assert SplitRange(c0, Full).1 == fail0;
    assert SplitRange(c1, fail0) == (Full.(x := Interval(1000, 4001)), Full.(x := Interval(1000, 1000)));
  }

  /** `getPossiblePasses`: the loop over the conditions, then the fallback, recursing into other workflows. */
  method GetPossiblePasses(workflows: map<string, Workflow>, w: Workflow, range: Range, fuel: nat) returns (sum: nat)
    requires "in" in workflows
    ensures sum == Passes(workflows, w, range, fuel, false)
    decreases fuel, 1
  {
    sum := 0;
    var r := range;
    var i := 0;
    while i < |w.conditions|
      invariant 0 <= i <= |w.conditions|
      invariant sum + PassesFrom(workflows, w.conditions[i..], w.fallback, r, fuel, false) ==
        Passes(workflows, w, range, fuel, false)
    {
      var condition := w.conditions[i];
      assert w.conditions[i..][1..] == w.conditions[i + 1..];
      var (passingRange, failingRange) := ApplyConditionToRange(condition, r);
      if condition.target == "A" {
        sum := sum + Count(passingRange);
      } else if condition.target != "R" && fuel > 0 {
        var more := GetPossiblePasses(workflows, Lookup(workflows, condition.target), passingRange, fuel - 1);
        sum := sum + more;
      }
      r := failingRange;
      i := i + 1;
    }
    if w.fallback == "A" {
      sum := sum + Count(r);
    } else if w.fallback != "R" && fuel > 0 {
      var more := GetPossiblePasses(workflows, Lookup(workflows, w.fallback), r, fuel - 1);
      sum := sum + more;
    }
  }
}
