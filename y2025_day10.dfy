/**
 * Factory (2025, day 10): machines have indicator lights and buttons that
 * toggle (part one) or increment (part two) some of them. Part one tries
 * every set of buttons; part two solves the integer linear system by
 * Gauss-Jordan elimination over the integers and searches the free
 * variables within their bounds.
 */
module Factory {
  import opened Common
  import opened Bits

  // ----- Part one: toggling lights -----

  /** A sequence of 0/1 press flags, one per button. */
  predicate IsMask(mask: seq<nat>)
  {
    forall k | 0 <= k < |mask| :: mask[k] <= 1
  }

  /**
   * `i.toString(2).padStart(n, "0").split("").map(Number)`: the n binary
   * digits of i, most significant first (i < 2^n throughout the loop).
   */
  function MaskOf(i: nat, n: nat): (mask: seq<nat>)
    ensures |mask| == n && IsMask(mask)
  {
    if n == 0 then [] else MaskOf(i / 2, n - 1) + [i % 2]
  }

  /** The number whose binary digits a mask lists, most significant first. */
  function MaskValue(mask: seq<nat>): nat
  {
    if mask == [] then 0 else 2 * MaskValue(mask[..|mask| - 1]) + mask[|mask| - 1]
  }

  /** Every mask of n flags is the binary digits of exactly one i < 2^n. */
  lemma {:induction false} MaskRoundTrip(mask: seq<nat>)
    requires IsMask(mask)
    ensures MaskValue(mask) < Pow2(|mask|)
    ensures MaskOf(MaskValue(mask), |mask|) == mask
  {
    if mask != [] {
      var front := mask[..|mask| - 1];
      MaskRoundTrip(front);
      var v := MaskValue(mask);
      assert v / 2 == MaskValue(front) && v % 2 == mask[|mask| - 1];
      assert mask == front + [mask[|mask| - 1]];
    }
  }

  /** `sum(binaryMask)`: how many buttons the mask presses. */
  function Presses(mask: seq<nat>): nat
  {
    if mask == [] then 0 else Presses(mask[..|mask| - 1]) + mask[|mask| - 1]
  }

  /** How often the pressed buttons toggle `light` (a button listing it twice toggles it twice). */
  function Toggles(buttons: seq<seq<nat>>, mask: seq<nat>, light: nat): nat
    requires |mask| == |buttons|
  {
    if buttons == [] then 0
    else
      var n := |buttons| - 1;
      Toggles(buttons[..n], mask[..n], light) + (if mask[n] == 0 then 0 else multiset(buttons[n])[light])
  }

  /** Some pressed button names a light beyond the pattern. */
  predicate Overflows(width: nat, buttons: seq<seq<nat>>, mask: seq<nat>)
    requires |mask| == |buttons|
  {
    exists idx, k | 0 <= idx < |buttons| && 0 <= k < |buttons[idx]| :: mask[idx] != 0 && buttons[idx][k] >= width
  }

  /**
   * `diagram.lights === lightState`: every light is '#' exactly when it is
   * toggled an odd number of times. A pressed button naming a light beyond
   * the pattern makes the state string longer than the pattern, so it
   * never matches.
   */
  predicate Matches(lights: string, buttons: seq<seq<nat>>, mask: seq<nat>)
    requires |mask| == |buttons|
  {
    !Overflows(|lights|, buttons, mask) &&
    forall l | 0 <= l < |lights| :: lights[l] == (if Toggles(buttons, mask, l) % 2 == 1 then '#' else '.')
  }

  /** The `reduce` over the mask: counts every toggle of every pressed button into an array as wide as the pattern. */
  method LightToggles(width: nat, buttons: seq<seq<nat>>, mask: seq<nat>) returns (toggles: seq<nat>, grew: bool)
    requires |mask| == |buttons|
    ensures |toggles| == width
    ensures grew <==> Overflows(width, buttons, mask)
    ensures forall l | 0 <= l < width :: toggles[l] == Toggles(buttons, mask, l)
  {
    toggles := seq(width, _ => 0);
    grew := false;
    var idx := 0;
    while idx < |buttons|
      invariant 0 <= idx <= |buttons| && |toggles| == width
      invariant grew <==> Overflows(width, buttons[..idx], mask[..idx])
      invariant forall l | 0 <= l < width :: toggles[l] == Toggles(buttons[..idx], mask[..idx], l)
    {
      OverflowsStep(width, buttons, mask, idx);
      TogglesStep(buttons, mask, idx);
      if mask[idx] != 0 {
        var outside;
        toggles, outside := CountButton(toggles, buttons[idx]);
        grew := grew || outside;
      }
      idx := idx + 1;
    }
    assert buttons[..idx] == buttons && mask[..idx] == mask;
  }

  /** The inner loop of the `reduce`: one pressed button's lights counted into `toggles`; a light beyond it is reported. */
  method CountButton(toggles: seq<nat>, button: seq<nat>) returns (next: seq<nat>, outside: bool)
    ensures |next| == |toggles|
    ensures outside <==> exists k | 0 <= k < |button| :: button[k] >= |toggles|
    ensures forall l | 0 <= l < |toggles| :: next[l] == toggles[l] + multiset(button)[l]
  {
    next, outside := toggles, false;
    var k := 0;
    while k < |button|
      invariant 0 <= k <= |button| && |next| == |toggles|
      invariant outside <==> exists k' | 0 <= k' < k :: button[k'] >= |toggles|
      invariant forall l | 0 <= l < |toggles| :: next[l] == toggles[l] + multiset(button[..k])[l]
    {
      assert button[..k + 1] == button[..k] + [button[k]];
      var light := button[k];
      if light < |next| {
        next := next[light := next[light] + 1];
      } else {
        outside := true;
      }
      k := k + 1;
    }
    assert button[..k] == button;
  }

  lemma TogglesStep(buttons: seq<seq<nat>>, mask: seq<nat>, idx: nat)
    requires |mask| == |buttons| && idx < |buttons|
    ensures forall l: nat :: (Toggles(buttons[..idx + 1], mask[..idx + 1], l) ==
      Toggles(buttons[..idx], mask[..idx], l) + (if mask[idx] == 0 then 0 else multiset(buttons[idx])[l]))
  {
    assert buttons[..idx + 1][..idx] == buttons[..idx];
    assert mask[..idx + 1][..idx] == mask[..idx];
  }

  lemma OverflowsStep(width: nat, buttons: seq<seq<nat>>, mask: seq<nat>, idx: nat)
    requires |mask| == |buttons| && idx < |buttons|
    ensures Overflows(width, buttons[..idx + 1], mask[..idx + 1]) <==>
      Overflows(width, buttons[..idx], mask[..idx]) || (mask[idx] != 0 && exists k | 0 <= k < |buttons[idx]| :: buttons[idx][k] >= width)
  {
    var b, m := buttons[..idx + 1], mask[..idx + 1];
    if Overflows(width, b, m) {
      var i, k :| 0 <= i < |b| && 0 <= k < |b[i]| && m[i] != 0 && b[i][k] >= width;
      if i < idx {
        assert buttons[..idx][i] == b[i];
      }
    }
    if Overflows(width, buttons[..idx], mask[..idx]) {
      var i, k :| 0 <= i < idx && 0 <= k < |buttons[..idx][i]| && mask[..idx][i] != 0 && buttons[..idx][i][k] >= width;
      assert b[i] == buttons[..idx][i];
    }
    if mask[idx] != 0 && exists k | 0 <= k < |buttons[idx]| :: buttons[idx][k] >= width {
      var k :| 0 <= k < |buttons[idx]| && buttons[idx][k] >= width;
      assert b[idx] == buttons[idx];
    }
  }

  /** The state string the toggles give matches the pattern exactly when `Matches` holds. */
  function LightState(toggles: seq<nat>): (state: string)
    ensures |state| == |toggles|
    ensures forall l | 0 <= l < |toggles| :: state[l] == (if toggles[l] % 2 == 1 then '#' else '.')
  {
    seq(|toggles|, l requires 0 <= l < |toggles| => if toggles[l] % 2 == 1 then '#' else '.')
  }

  /**
   * `findMinimumPresses`: the fewest presses over every mask whose toggles
   * give the pattern; None stands for `Infinity` when no mask does.
   */
  method FindMinimumPresses(lights: string, buttons: seq<seq<nat>>) returns (r: Option<nat>)
    ensures r.None? <==> forall mask: seq<nat> | |mask| == |buttons| && IsMask(mask) :: !Matches(lights, buttons, mask)
    ensures r.Some? ==> exists mask: seq<nat> | |mask| == |buttons| && IsMask(mask) :: Matches(lights, buttons, mask) && Presses(mask) == r.value
    ensures r.Some? ==> forall mask: seq<nat> | |mask| == |buttons| && IsMask(mask) && Matches(lights, buttons, mask) :: r.value <= Presses(mask)
  {
    var n := |buttons|;
    r := None;
    ghost var best: seq<nat> := [];
    var i := 0;
    while i < Pow2(n)
      invariant 0 <= i <= Pow2(n)
      invariant r.None? ==> forall i' | 0 <= i' < i :: !Matches(lights, buttons, MaskOf(i', n))
      invariant r.Some? ==> |best| == n && IsMask(best) && Matches(lights, buttons, best) && Presses(best) == r.value
      invariant r.Some? ==> forall i' | 0 <= i' < i :: Matches(lights, buttons, MaskOf(i', n)) ==> r.value <= Presses(MaskOf(i', n))
    {
      var binaryMask := MaskOf(i, n);
      var toggles, grew := LightToggles(|lights|, buttons, binaryMask);
      var lightState := LightState(toggles);
      if !grew && lights == lightState {
        var presses := Presses(binaryMask);
        if r.None? || presses < r.value {
          r := Some(presses);
          best := binaryMask;
        }
      } else {
        assert !Matches(lights, buttons, binaryMask) by {
          if !grew {
            var l :| 0 <= l < |lights| && lights[l] != lightState[l];
          }
        }
      }
      i := i + 1;
    }
    forall mask: seq<nat> | |mask| == n && IsMask(mask)
      ensures MaskOf(MaskValue(mask), n) == mask && MaskValue(mask) < Pow2(n)
    {
      MaskRoundTrip(mask);
    }
  }

  // ----- Part two: the enumerator of free parameters -----

  /** A vector within the bounds: same length, every entry between 0 and its bound. */
  predicate InBounds(v: seq<nat>, bounds: seq<nat>)
  {
    |v| == |bounds| && forall k | 0 <= k < |v| :: v[k] <= bounds[k]
  }

  /** How many vectors lie within the bounds. */
  function Total(bounds: seq<nat>): (t: nat)
    ensures t >= 1
  {
    if bounds == [] then 1 else Total(bounds[..|bounds| - 1]) * (bounds[|bounds| - 1] + 1)
  }

  /** The position of a vector in odometer order: its value in the mixed radix the bounds give, last digit least significant. */
  function Rank(v: seq<nat>, bounds: seq<nat>): nat
    requires |v| == |bounds|
  {
    if v == [] then 0
    else
      var n := |v| - 1;
      Rank(v[..n], bounds[..n]) * (bounds[n] + 1) + v[n]
  }

  lemma {:induction false} RankBound(v: seq<nat>, bounds: seq<nat>)
    requires InBounds(v, bounds)
    ensures Rank(v, bounds) < Total(bounds)
  {
    if v != [] {
      var n := |v| - 1;
      assert InBounds(v[..n], bounds[..n]);
      RankBound(v[..n], bounds[..n]);
      DigitBound(Rank(v[..n], bounds[..n]), Total(bounds[..n]), bounds[n] + 1, v[n]);
    }
  }

  /** A lower digit below its radix keeps a number below its bound. */
  lemma DigitBound(r: nat, t: nat, b: nat, d: nat)
    requires r < t && d < b
    ensures r * b + d < t * b
  {
    MulMonotone(t - 1, r, b);
    assert (t - 1) * b == t * b - b;
  }

  /** Different vectors within the bounds have different ranks. */
  lemma {:induction false} RankInjective(u: seq<nat>, v: seq<nat>, bounds: seq<nat>)
    requires InBounds(u, bounds) && InBounds(v, bounds)
    requires Rank(u, bounds) == Rank(v, bounds)
    ensures u == v
  {
    if u != [] {
      var n := |u| - 1;
      var b := bounds[n] + 1;
      DivUnique(Rank(u, bounds), b, Rank(u[..n], bounds[..n]), u[n]);
      DivUnique(Rank(v, bounds), b, Rank(v[..n], bounds[..n]), v[n]);
      RankInjective(u[..n], v[..n], bounds[..n]);
      assert u == u[..n] + [u[n]] && v == v[..n] + [v[n]];
    }
  }

  /** The odometer's carry: position idx goes up by one and every later position restarts at 0. */
  function Bump(v: seq<nat>, idx: nat): (w: seq<nat>)
    requires idx < |v|
    ensures |w| == |v|
  {
    v[..idx] + [v[idx] + 1] + seq(|v| - idx - 1, _ => 0)
  }

  /** A carry past positions that are all at their bounds adds exactly one to the rank. */
  lemma {:induction false} RankCarry(v: seq<nat>, bounds: seq<nat>, idx: nat)
    requires |v| == |bounds| && idx < |v| && v[idx] < bounds[idx]
    requires forall k | idx < k < |v| :: v[k] == bounds[k]
    ensures Rank(Bump(v, idx), bounds) == Rank(v, bounds) + 1
    decreases |v| - idx
  {
    var n := |v| - 1;
    var w := Bump(v, idx);
    var r := Rank(v[..n], bounds[..n]);
    var b := bounds[n] + 1;
    BumpLast(v, idx);
    assert Rank(w, bounds) == Rank(w[..n], bounds[..n]) * b + w[n];
    if idx < n {
      RankCarry(v[..n], bounds[..n], idx);
      MulSucc(r, b);
    }
  }

  /** The last position of a carry: bumped when it is the carry position, otherwise restarted at 0. */
  lemma BumpLast(v: seq<nat>, idx: nat)
    requires idx < |v|
    ensures idx == |v| - 1 ==> Bump(v, idx)[..idx] == v[..idx] && Bump(v, idx)[idx] == v[idx] + 1
    ensures idx < |v| - 1 ==> Bump(v, idx)[..|v| - 1] == Bump(v[..|v| - 1], idx) && Bump(v, idx)[|v| - 1] == 0
  {
  }

  lemma MulSucc(r: nat, b: nat)
    ensures (r + 1) * b == r * b + b
  {
  }

  /** The vector with every position at its bound is the last one. */
  lemma {:induction false} RankOfMaximum(v: seq<nat>, bounds: seq<nat>)
    requires v == bounds
    ensures Rank(v, bounds) == Total(bounds) - 1
  {
    if v != [] {
      var n := |v| - 1;
      RankOfMaximum(v[..n], bounds[..n]);
      assert Rank(v, bounds) == (Total(bounds[..n]) - 1) * (bounds[n] + 1) + bounds[n];
    }
  }

  lemma {:induction false} RankOfZero(bounds: seq<nat>)
    ensures Rank(seq(|bounds|, _ => 0), bounds) == 0
  {
    if bounds != [] {
      var n := |bounds| - 1;
      assert seq(|bounds|, _ => 0)[..n] == seq(n, _ => 0);
      RankOfZero(bounds[..n]);
    }
  }

  /**
   * One turn of the odometer inside `enumerateParameterCombinations`:
   * positions at their bound restart at 0 from the right, and the first
   * position below its bound goes up by one; `wrapped` when every position
   * was at its bound.
   */
  method Advance(current: array<nat>, bounds: seq<nat>) returns (wrapped: bool)
    requires current.Length == |bounds| && InBounds(current[..], bounds)
    modifies current
    ensures wrapped ==> old(current[..]) == bounds
    ensures !wrapped ==> InBounds(current[..], bounds) && Rank(current[..], bounds) == Rank(old(current[..]), bounds) + 1
  {
    ghost var before := current[..];
    var idx := |bounds| - 1;
    while idx >= 0 && current[idx] >= bounds[idx]
      invariant -1 <= idx < |bounds|
      invariant forall k | 0 <= k <= idx :: current[k] == before[k]
      invariant forall k | idx < k < |bounds| :: current[k] == 0 && before[k] == bounds[k]
    {
      current[idx] := 0;
      idx := idx - 1;
    }
    if idx < 0 {
      return true;
    }
    current[idx] := current[idx] + 1;
    assert current[..] == Bump(before, idx);
    RankCarry(before, bounds, idx);
    return false;
  }

  /**
   * `enumerateParameterCombinations`, collecting what it yields: the
   * vectors within the bounds in odometer order, the k-th having rank k;
   * a single empty vector when there are no bounds.
   */
  method EnumerateParameterCombinations(bounds: seq<nat>) returns (combos: seq<seq<nat>>)
    ensures |combos| == Total(bounds)
    ensures forall k | 0 <= k < |combos| :: InBounds(combos[k], bounds) && Rank(combos[k], bounds) == k
  {
    if |bounds| == 0 {
      return [[]];
    }
    var current := new nat[|bounds|](_ => 0);
    RankOfZero(bounds);
    assert current[..] == seq(|bounds|, _ => 0);
    combos := [];
    while true
      invariant InBounds(current[..], bounds)
      invariant Rank(current[..], bounds) == |combos| < Total(bounds)
      invariant forall k | 0 <= k < |combos| :: InBounds(combos[k], bounds) && Rank(combos[k], bounds) == k
      decreases Total(bounds) - |combos|
    {
      combos := combos + [current[..]];
      ghost var last := current[..];
      var wrapped := Advance(current, bounds);
      if wrapped {
        RankOfMaximum(last, bounds);
        break;
      }
      RankBound(current[..], bounds);
    }
  }

  /** The enumerator yields every vector within the bounds, and each one once. */
  lemma EnumeratesEachOnce(bounds: seq<nat>, combos: seq<seq<nat>>)
    requires |combos| == Total(bounds)
    requires forall k | 0 <= k < |combos| :: InBounds(combos[k], bounds) && Rank(combos[k], bounds) == k
    ensures forall v | InBounds(v, bounds) :: v in combos
    ensures forall i, j | 0 <= i < j < |combos| :: combos[i] != combos[j]
  {
    forall v | InBounds(v, bounds) ensures v in combos {
      RankBound(v, bounds);
      var k := Rank(v, bounds);
      RankInjective(v, combos[k], bounds);
    }
  }

  // ----- Part two: linear algebra over the integers -----

  /** Sum of the products of corresponding entries. */
  function Dot(a: seq<int>, x: seq<int>): int
    requires |a| == |x|
  {
    if a == [] then 0 else Dot(a[..|a| - 1], x[..|x| - 1]) + a[|a| - 1] * x[|x| - 1]
  }

  /** A vector solves the system when every row's dot product with it is that row's counter. */
  predicate Solves(m: seq<seq<int>>, c: seq<int>, x: seq<int>)
  {
    |m| == |c| && forall r | 0 <= r < |m| :: |m[r]| == |x| && Dot(m[r], x) == c[r]
  }

  /** Changing one entry of both vectors changes one product of the sum. */
  lemma {:induction false} DotUpdate(a: seq<int>, x: seq<int>, k: nat, u: int, w: int)
    requires |a| == |x| && k < |a|
    ensures Dot(a[k := u], x[k := w]) == Dot(a, x) - a[k] * x[k] + u * w
  {
    var n := |a| - 1;
    if k < n {
      assert a[k := u][..n] == a[..n][k := u];
      assert x[k := w][..n] == x[..n][k := w];
      DotUpdate(a[..n], x[..n], k, u, w);
    } else {
      assert a[k := u][..n] == a[..n];
      assert x[k := w][..n] == x[..n];
    }
  }

  /** `[s[i], s[j]] = [s[j], s[i]]`. */
  function SwapEntries<T>(s: seq<T>, i: nat, j: nat): (r: seq<T>)
    requires i < |s| && j < |s|
    ensures |r| == |s| && r[i] == s[j] && r[j] == s[i]
    ensures forall k | 0 <= k < |s| && k != i && k != j :: r[k] == s[k]
  {
    s[i := s[j]][j := s[i]]
  }

  /** Swapping the same two entries of both vectors keeps their dot product. */
  lemma DotSwap(a: seq<int>, x: seq<int>, i: nat, j: nat)
    requires |a| == |x| && i < |a| && j < |a|
    ensures Dot(SwapEntries(a, i, j), SwapEntries(x, i, j)) == Dot(a, x)
  {
    DotUpdate(a, x, i, a[j], x[j]);
    DotUpdate(a[i := a[j]], x[i := x[j]], j, a[i], x[i]);
  }

  /** A row that is a combination of two rows, divided exactly, has the same combination of dot products. */
  lemma {:induction false} DotCombine(p: seq<int>, t: seq<int>, n: seq<int>, x: seq<int>, s1: int, s2: int, d: int)
    requires |p| == |t| == |n| == |x|
    requires forall k | 0 <= k < |n| :: d * n[k] == s1 * p[k] + s2 * t[k]
    ensures d * Dot(n, x) == s1 * Dot(p, x) + s2 * Dot(t, x)
  {
    if n != [] {
      var m := |n| - 1;
      DotCombine(p[..m], t[..m], n[..m], x[..m], s1, s2, d);
      CombineStep(d, s1, s2, Dot(n[..m], x[..m]), Dot(p[..m], x[..m]), Dot(t[..m], x[..m]), n[m], p[m], t[m], x[m]);
    }
  }

  /** One more column keeps the combination of the dot products. */
  lemma CombineStep(d: int, s1: int, s2: int, e: int, a: int, b: int, nm: int, pm: int, tm: int, xm: int)
    requires d * e == s1 * a + s2 * b && d * nm == s1 * pm + s2 * tm
    ensures d * (e + nm * xm) == s1 * (a + pm * xm) + s2 * (b + tm * xm)
  {
    assert d * (nm * xm) == (d * nm) * xm;
    assert (s1 * pm + s2 * tm) * xm == s1 * (pm * xm) + s2 * (tm * xm);
  }

  /** Splitting the vector splits the dot product. */
  lemma {:induction false} DotAppend(a: seq<int>, x: seq<int>, y: seq<int>)
    requires |a| == |x| + |y|
    ensures Dot(a, x + y) == Dot(a[..|x|], x) + Dot(a[|x|..], y)
  {
    if y == [] {
      assert x + y == x && a[..|x|] == a;
    } else {
      var n := |a| - 1;
      assert (x + y)[..n] == x + y[..|y| - 1];
      assert a[..n][..|x|] == a[..|x|];
      assert a[|x|..][..|y| - 1] == a[..n][|x|..];
      DotAppend(a[..n], x, y[..|y| - 1]);
    }
  }

  /** A row that is zero outside position r has dot product a[r] × x[r]. */
  lemma {:induction false} DotSingle(a: seq<int>, x: seq<int>, r: nat)
    requires |a| == |x| && r < |a|
    requires forall k | 0 <= k < |a| && k != r :: a[k] == 0
    ensures Dot(a, x) == a[r] * x[r]
  {
    var n := |a| - 1;
    if r < n {
      DotSingle(a[..n], x[..n], r);
    } else {
      DotZero(a[..n], x[..n]);
    }
  }

  lemma {:induction false} DotZero(a: seq<int>, x: seq<int>)
    requires |a| == |x| && forall k | 0 <= k < |a| :: a[k] == 0
    ensures Dot(a, x) == 0
  {
    if a != [] {
      DotZero(a[..|a| - 1], x[..|x| - 1]);
    }
  }

  /** With non-negative entries, a row with 1 at position j has dot product at least x[j]. */
  lemma {:induction false} DotAtLeast(a: seq<int>, x: seq<int>, j: nat)
    requires |a| == |x| && j < |a| && a[j] == 1
    requires forall k | 0 <= k < |a| :: a[k] >= 0 && x[k] >= 0
    ensures Dot(a, x) >= x[j]
  {
    var n := |a| - 1;
    if j < n {
      DotAtLeast(a[..n], x[..n], j);
    } else {
      DotNonNegative(a[..n], x[..n]);
    }
  }

  lemma {:induction false} DotNonNegative(a: seq<int>, x: seq<int>)
    requires |a| == |x| && forall k | 0 <= k < |a| :: a[k] >= 0 && x[k] >= 0
    ensures Dot(a, x) >= 0
  {
    if a != [] {
      DotNonNegative(a[..|a| - 1], x[..|x| - 1]);
    }
  }

  /** The greatest common divisor of two naturals, by Euclid's algorithm. */
  function GcdNat(a: nat, b: nat): nat
    decreases b
  {
    if b == 0 then a else GcdNat(b, a % b)
  }

  /** `gcd` on the magnitudes of its arguments; positive unless both are 0. */
  function Gcd(a: int, b: int): (g: nat)
    ensures b != 0 ==> g > 0
  {
    GcdNatPositive(Abs(a), Abs(b));
    GcdNat(Abs(a), Abs(b))
  }

  lemma {:induction false} GcdNatPositive(a: nat, b: nat)
    ensures b != 0 ==> GcdNat(a, b) > 0
    decreases b
  {
    if b != 0 && a % b != 0 {
      GcdNatPositive(b, a % b);
    }
  }

  /** A multiple of g leaves remainder 0. */
  lemma MultipleMod(g: int, k: int)
    requires g > 0
    ensures (g * k) % g == 0
  {
    DivUnique(g * k, g, k, 0);
  }

  /** The greatest common divisor divides both arguments. */
  lemma {:induction false} GcdNatDivides(a: nat, b: nat)
    requires GcdNat(a, b) > 0
    ensures a % GcdNat(a, b) == 0 && b % GcdNat(a, b) == 0
    decreases b
  {
    var g := GcdNat(a, b);
    if b == 0 {
      MultipleMod(g, 1);
      MultipleMod(g, 0);
    } else {
      GcdNatDivides(b, a % b);
      var q := a / b;
      var kb := b / g;
      var kr := (a % b) / g;
      assert b == g * kb && a % b == g * kr;
      assert a == g * (kb * q + kr) by {
        assert a == b * q + a % b;
        assert b * q == g * (kb * q);
      }
      MultipleMod(g, kb * q + kr);
    }
  }

  lemma GcdDivides(a: int, b: int)
    requires b != 0
    ensures a % Gcd(a, b) == 0 && b % Gcd(a, b) == 0
  {
    var g := Gcd(a, b);
    GcdNatDivides(Abs(a), Abs(b));
    SignedMultiple(a, g);
    SignedMultiple(b, g);
  }

  lemma SignedMultiple(a: int, g: nat)
    requires g > 0 && Abs(a) % g == 0
    ensures a % g == 0
  {
    var k := Abs(a) / g;
    assert Abs(a) == g * k;
    if a < 0 {
      assert a == g * -k;
      MultipleMod(g, -k);
    }
  }

  /** Dividing a combination of two values by a common divisor of the scales is exact. */
  lemma ExactCombination(s1: int, s2: int, d: int, p: int, t: int)
    requires d > 0 && s1 % d == 0 && s2 % d == 0
    ensures d * ((s1 * p + s2 * t) / d) == s1 * p + s2 * t
  {
    var k1, k2 := s1 / d, s2 / d;
    assert s1 == d * k1 && s2 == d * k2;
    assert s1 * p + s2 * t == d * (k1 * p + k2 * t) by {
      assert s1 * p == d * (k1 * p);
      assert s2 * t == d * (k2 * t);
    }
    DivUnique(s1 * p + s2 * t, d, k1 * p + k2 * t, 0);
  }

  /** `(scale1 * pivotRow[col] + scale2 * val) / divisor` for every column. */
  function Combine(p: seq<int>, t: seq<int>, s1: int, s2: int, d: int): (n: seq<int>)
    requires |p| == |t| && d > 0
    ensures |n| == |t|
  {
    seq(|t|, k requires 0 <= k < |t| => (s1 * p[k] + s2 * t[k]) / d)
  }

  /**
   * `eliminateElement` on the matrix and counters: with a non-zero pivot
   * and a non-zero entry below or above it, the target row becomes
   * (−target × pivot row + pivot × target row) / gcd; otherwise nothing
   * changes.
   */
  function Eliminate(m: seq<seq<int>>, c: seq<int>, pivotRow: nat, targetRow: nat): (r: (seq<seq<int>>, seq<int>))
    requires |m| == |c| && pivotRow < |m| && targetRow < |m|
    requires |m[targetRow]| == |m[pivotRow]| && pivotRow < |m[pivotRow]|
    ensures |r.0| == |m| && |r.1| == |c|
    ensures forall k | 0 <= k < |m| && k != targetRow :: r.0[k] == m[k] && r.1[k] == c[k]
    ensures |r.0[targetRow]| == |m[targetRow]|
  {
    var pivotValue := m[pivotRow][pivotRow];
    var targetValue := m[targetRow][pivotRow];
    if pivotValue == 0 || targetValue == 0 then (m, c)
    else
      var scale1, scale2 := -targetValue, pivotValue;
      var divisor := Gcd(scale1, scale2);
      (m[targetRow := Combine(m[pivotRow], m[targetRow], scale1, scale2, divisor)],
       c[targetRow := (scale1 * c[pivotRow] + scale2 * c[targetRow]) / divisor])
  }

  /**
   * The elimination zeroes the target's entry in the pivot column whenever
   * the pivot is non-zero, and every new entry is an exact integer
   * quotient: divisor × entry is the scaled combination.
   */
  lemma EliminateZeroes(m: seq<seq<int>>, c: seq<int>, pivotRow: nat, targetRow: nat)
    requires |m| == |c| && pivotRow < |m| && targetRow < |m|
    requires |m[targetRow]| == |m[pivotRow]| && pivotRow < |m[pivotRow]|
    requires m[pivotRow][pivotRow] != 0
    ensures Eliminate(m, c, pivotRow, targetRow).0[targetRow][pivotRow] == 0
    ensures m[targetRow][pivotRow] != 0 ==>
      var s1, s2 := -m[targetRow][pivotRow], m[pivotRow][pivotRow];
      var d := Gcd(s1, s2);
      var n := Eliminate(m, c, pivotRow, targetRow);
      forall k | 0 <= k < |n.0[targetRow]| :: d * n.0[targetRow][k] == s1 * m[pivotRow][k] + s2 * m[targetRow][k]
  {
    var s1, s2 := -m[targetRow][pivotRow], m[pivotRow][pivotRow];
    if s1 != 0 {
      var d := Gcd(s1, s2);
      GcdDivides(s1, s2);
      forall k | 0 <= k < |m[targetRow]|
        ensures d * ((s1 * m[pivotRow][k] + s2 * m[targetRow][k]) / d) == s1 * m[pivotRow][k] + s2 * m[targetRow][k]
      {
        ExactCombination(s1, s2, d, m[pivotRow][k], m[targetRow][k]);
      }
      assert s1 * m[pivotRow][pivotRow] + s2 * m[targetRow][pivotRow] == 0;
      assert d * Eliminate(m, c, pivotRow, targetRow).0[targetRow][pivotRow] == 0;
    }
  }

  lemma MulCancel(s: int, a: int, b: int)
    requires s != 0 && s * a == s * b
    ensures a == b
  {
    assert s * (a - b) == s * a - s * b == 0;
  }

  /** Eliminating with a non-zero pivot from a different row keeps exactly the same solutions. */
  lemma EliminateKeepsSolutions(m: seq<seq<int>>, c: seq<int>, pivotRow: nat, targetRow: nat, x: seq<int>)
    requires |m| == |c| && pivotRow < |m| && targetRow < |m| && pivotRow != targetRow
    requires |m[targetRow]| == |m[pivotRow]| == |x| && pivotRow < |m[pivotRow]|
    requires m[pivotRow][pivotRow] != 0
    ensures Solves(m, c, x) <==> Solves(Eliminate(m, c, pivotRow, targetRow).0, Eliminate(m, c, pivotRow, targetRow).1, x)
  {
    var s1, s2 := -m[targetRow][pivotRow], m[pivotRow][pivotRow];
    if s1 != 0 {
      var e := Eliminate(m, c, pivotRow, targetRow);
      var d := Gcd(s1, s2);
      GcdDivides(s1, s2);
      EliminateZeroes(m, c, pivotRow, targetRow);
      ExactCombination(s1, s2, d, c[pivotRow], c[targetRow]);
      var p, t, n := m[pivotRow], m[targetRow], e.0[targetRow];
      DotCombine(p, t, n, x, s1, s2, d);
      if Solves(m, c, x) {
        assert Dot(p, x) == c[pivotRow] && Dot(t, x) == c[targetRow];
        MulCancel(d, Dot(n, x), e.1[targetRow]);
      }
      if Solves(e.0, e.1, x) {
        assert Dot(p, x) == c[pivotRow] by {
          assert e.0[pivotRow] == p;
        }
        assert Dot(n, x) == e.1[targetRow];
        MulCancel(s2, Dot(t, x), c[targetRow]);
        forall r | 0 <= r < |m| ensures |m[r]| == |x| && Dot(m[r], x) == c[r] {
          if r != targetRow {
            assert e.0[r] == m[r] && e.1[r] == c[r];
          }
        }
      }
    }
  }

  /** Swapping two rows together with their counters keeps the solutions. */
  lemma SwapRowsKeepsSolutions(m: seq<seq<int>>, c: seq<int>, i: nat, j: nat, x: seq<int>)
    requires |m| == |c| && i < |m| && j < |m|
    ensures Solves(m, c, x) <==> Solves(SwapEntries(m, i, j), SwapEntries(c, i, j), x)
  {
    var m', c' := SwapEntries(m, i, j), SwapEntries(c, i, j);
    if Solves(m', c', x) {
      forall r | 0 <= r < |m| ensures |m[r]| == |x| && Dot(m[r], x) == c[r] {
        if r == i {
          assert m'[j] == m[r] && c'[j] == c[r];
        } else if r == j {
          assert m'[i] == m[r] && c'[i] == c[r];
        } else {
          assert m'[r] == m[r] && c'[r] == c[r];
        }
      }
    }
  }

  /** Every row with columns i and j swapped. */
  function SwapColumns(m: seq<seq<int>>, i: nat, j: nat): (r: seq<seq<int>>)
    requires forall k | 0 <= k < |m| :: i < |m[k]| && j < |m[k]|
    ensures |r| == |m| && forall k | 0 <= k < |m| :: r[k] == SwapEntries(m[k], i, j)
  {
    seq(|m|, k requires 0 <= k < |m| => SwapEntries(m[k], i, j))
  }

  /** Swapping two columns renames two unknowns: x solves the system exactly when x with those entries swapped solves the swapped one. */
  lemma SwapColumnsKeepsSolutions(m: seq<seq<int>>, c: seq<int>, i: nat, j: nat, x: seq<int>)
    requires forall k | 0 <= k < |m| :: |m[k]| == |x|
    requires i < |x| && j < |x|
    ensures Solves(m, c, x) <==> Solves(SwapColumns(m, i, j), c, SwapEntries(x, i, j))
  {
    forall k | 0 <= k < |m| ensures Dot(SwapEntries(m[k], i, j), SwapEntries(x, i, j)) == Dot(m[k], x) {
      DotSwap(m[k], x, i, j);
    }
  }

  /** `row.some(val => val !== 0)`. */
  predicate NonZero(row: seq<int>)
  {
    exists k | 0 <= k < |row| :: row[k] != 0
  }

  /** The `validIndices` of `removeZeroRows`: the rows with a non-zero entry, in increasing order. */
  function NonZeroIndices(m: seq<seq<int>>): (idx: seq<nat>)
    ensures forall k | 0 <= k < |idx| :: idx[k] < |m| && NonZero(m[idx[k]])
    ensures forall k1, k2 | 0 <= k1 < k2 < |idx| :: idx[k1] < idx[k2]
    ensures forall r | 0 <= r < |m| && NonZero(m[r]) :: r in idx
  {
    if m == [] then []
    else
      var n := |m| - 1;
      var rest := NonZeroIndices(m[..n]);
      assert forall k | 0 <= k < |rest| :: m[..n][rest[k]] == m[rest[k]];
      assert forall r | 0 <= r < n :: m[..n][r] == m[r];
      if NonZero(m[n]) then rest + [n] else rest
  }

  /** The entries of `s` at the given indices, in their order: `indices.map(i => s[i])`. */
  function Pick<T>(s: seq<T>, indices: seq<nat>): (r: seq<T>)
    requires forall k | 0 <= k < |indices| :: indices[k] < |s|
    ensures |r| == |indices| && forall k | 0 <= k < |indices| :: r[k] == s[indices[k]]
  {
    seq(|indices|, k requires 0 <= k < |indices| => s[indices[k]])
  }

  /** Dropping zero rows whose counters are 0 keeps exactly the same solutions. */
  lemma RemoveConsistentZeroRows(m: seq<seq<int>>, c: seq<int>, x: seq<int>)
    requires |m| == |c| && forall k | 0 <= k < |m| :: |m[k]| == |x|
    requires forall k | 0 <= k < |m| && !NonZero(m[k]) :: c[k] == 0
    ensures Solves(m, c, x) <==> Solves(Pick(m, NonZeroIndices(m)), Pick(c, NonZeroIndices(m)), x)
  {
    var idx := NonZeroIndices(m);
    if Solves(Pick(m, idx), Pick(c, idx), x) {
      forall r | 0 <= r < |m| ensures Dot(m[r], x) == c[r] {
        if NonZero(m[r]) {
          var k :| 0 <= k < |idx| && idx[k] == r;
          assert Pick(m, idx)[k] == m[r];
        } else {
          DotZero(m[r], x);
        }
      }
    }
  }

  /** Eliminating the first row of one button from the second, for counters 2 and 3, leaves the row 0 = 1. */
  lemma EliminateExample()
    ensures Eliminate([[1], [1]], [2, 3], 0, 1) == ([[1], [0]], [2, 1])
  {
    assert Gcd(-1, 1) == 1;
    var row := Combine([1], [1], -1, 1, 1);
    assert |row| == 1 && row[0] == 0;
    assert row == [0];
    assert [[1], [1]][1 := [0]] == [[1], [0]];
    assert [2, 3][1 := 1] == [2, 1];
  }

  lemma NonZeroIndicesExample()
    ensures NonZeroIndices([[1], [0]]) == [0]
  {
    assert NonZero([1]) by {
      assert [1][0] != 0;
    }
    assert !NonZero([0]);
    assert [[1], [0]][..1] == [[1]] && [[1]][..0] == [];
    assert NonZeroIndices([[1]]) == [] + [0];
  }

  /**
   * One button pressed against two counters 2 and 3: elimination leaves
   * the row 0 = 1, `removeZeroRows` drops it, and the remaining system
   * x = 2 is solvable although the original one is not.
   */
  lemma ZeroRowCounterexample()
    ensures Eliminate([[1], [1]], [2, 3], 0, 1) == ([[1], [0]], [2, 1])
    ensures NonZeroIndices([[1], [0]]) == [0]
    ensures Pick([[1], [0]], [0]) == [[1]] && Pick([2, 1], [0]) == [2]
    ensures Solves([[1]], [2], [2])
    ensures forall x | |x| == 1 :: !Solves([[1], [1]], [2, 3], x)
  {
    EliminateExample();
    NonZeroIndicesExample();
    assert Dot([1], [2]) == 2 by {
      assert [1][..0] == [] && [2][..0] == [];
    }
    forall x | |x| == 1 ensures !Solves([[1], [1]], [2, 3], x) {
      assert [[1], [1]][0] == [1] && [[1], [1]][1] == [1];
    }
  }

  /** The zero-row removal the elimination needs: None when a zero row demands a non-zero counter, which no vector can meet. */
  function CheckedRemoveZeroRows(m: seq<seq<int>>, c: seq<int>): (r: Option<(seq<seq<int>>, seq<int>)>)
    requires |m| == |c|
  {
    if exists k | 0 <= k < |m| :: !NonZero(m[k]) && c[k] != 0 then None
    else Some((Pick(m, NonZeroIndices(m)), Pick(c, NonZeroIndices(m))))
  }

  /** The checked removal keeps exactly the solutions, and reports an inconsistent system as such. */
  lemma CheckedRemovalKeepsSolutions(m: seq<seq<int>>, c: seq<int>, x: seq<int>)
    requires |m| == |c| && forall k | 0 <= k < |m| :: |m[k]| == |x|
    ensures CheckedRemoveZeroRows(m, c).None? ==> !Solves(m, c, x)
    ensures CheckedRemoveZeroRows(m, c).Some? ==>
      (Solves(m, c, x) <==> Solves(CheckedRemoveZeroRows(m, c).value.0, CheckedRemoveZeroRows(m, c).value.1, x))
  {
    if CheckedRemoveZeroRows(m, c).None? {
      var k :| 0 <= k < |m| && !NonZero(m[k]) && c[k] != 0;
      DotZero(m[k], x);
    } else {
      RemoveConsistentZeroRows(m, c, x);
    }
  }

  // ----- Part two: evaluating the free parameters -----

  /**
   * The pivot value row `row` gives once the free columns, the last
   * |free| ones, are fixed: (counter − free contribution) / diagonal when
   * that is a non-negative integer. A zero diagonal, or none because the
   * row is past the last column, gives no value, as `remainder % 0` is NaN.
   */
  function PivotValue(m: seq<seq<int>>, c: seq<int>, free: seq<nat>, row: nat, numCols: nat): Option<int>
    requires |m| == |c| && row < |m| && |m[row]| == numCols && |free| <= numCols
  {
    var remainder := c[row] - Dot(m[row][numCols - |free|..], free);
    var diagonal := if row < numCols then m[row][row] else 0;
    if diagonal == 0 || remainder % diagonal != 0 then None
    else if remainder / diagonal < 0 then None
    else Some(remainder / diagonal)
  }

  /** The rows' pivot values, when every one of the first numRows rows has one. */
  function Pivots(m: seq<seq<int>>, c: seq<int>, free: seq<nat>, numRows: nat, numCols: nat): (r: Option<seq<int>>)
    requires |m| == |c| && numRows <= |m| && |free| <= numCols
    requires forall k | 0 <= k < |m| :: |m[k]| == numCols
  {
    if numRows == 0 then Some([])
    else
      match Pivots(m, c, free, numRows - 1, numCols)
      case None => None
      case Some(ps) =>
        match PivotValue(m, c, free, numRows - 1, numCols)
        case None => None
        case Some(v) => Some(ps + [v])
  }

  /** `evaluateSolution`: the presses of the free parameters and the pivots together, or None (Infinity) when a pivot is missing. */
  function Evaluation(m: seq<seq<int>>, c: seq<int>, free: seq<nat>, numRows: nat, numCols: nat): Option<int>
    requires |m| == |c| && numRows <= |m| && |free| <= numCols
    requires forall k | 0 <= k < |m| :: |m[k]| == numCols
  {
    match Pivots(m, c, free, numRows, numCols)
    case None => None
    case Some(ps) => Some(Sum(free) + Sum(ps))
  }

  /** Once a row has no pivot value, no longer prefix of rows has all of them. */
  lemma {:induction false} PivotsStayMissing(m: seq<seq<int>>, c: seq<int>, free: seq<nat>, k: nat, n: nat, numCols: nat)
    requires |m| == |c| && k <= n <= |m| && |free| <= numCols
    requires forall r | 0 <= r < |m| :: |m[r]| == numCols
    requires Pivots(m, c, free, k, numCols).None?
    ensures Pivots(m, c, free, n, numCols).None?
    decreases n
  {
    if n > k {
      PivotsStayMissing(m, c, free, k, n - 1, numCols);
    }
  }

  /** Every pivot value is that row's value, and none is negative. */
  lemma {:induction false} PivotsMeaning(m: seq<seq<int>>, c: seq<int>, free: seq<nat>, numRows: nat, numCols: nat)
    requires |m| == |c| && numRows <= |m| && |free| <= numCols
    requires forall k | 0 <= k < |m| :: |m[k]| == numCols
    ensures Pivots(m, c, free, numRows, numCols).Some? <==>
      forall r | 0 <= r < numRows :: PivotValue(m, c, free, r, numCols).Some?
    ensures Pivots(m, c, free, numRows, numCols).Some? ==>
      var ps := Pivots(m, c, free, numRows, numCols).value;
      |ps| == numRows && forall r | 0 <= r < numRows :: PivotValue(m, c, free, r, numCols) == Some(ps[r]) && ps[r] >= 0
  {
    if numRows > 0 {
      PivotsMeaning(m, c, free, numRows - 1, numCols);
    }
  }

  /** Each pivot column of row r is zero except the diagonal: the shape back substitution leaves. */
  predicate Reduced(m: seq<seq<int>>, numRows: nat)
    requires numRows <= |m| && forall r | 0 <= r < numRows :: numRows <= |m[r]|
  {
    forall r, k | 0 <= r < numRows && 0 <= k < numRows && k != r :: m[r][k] == 0
  }

  /** A multiple of a non-zero divisor, positive or negative, divides exactly. */
  lemma ExactQuotient(a: int, d: int, q: int)
    requires d != 0 && a == d * q
    ensures a % d == 0 && a / d == q
  {
    if d > 0 {
      DivUnique(a, d, q, 0);
    } else {
      var q', r' := a / d, a % d;
      assert a == d * q' + r' && 0 <= r' < -d;
      assert d * (q' - q) == -r';
      if q' > q {
        MulMonotone(q' - q, 1, -d);
      } else if q' < q {
        MulMonotone(q - q', 1, -d);
      }
    }
  }

  /** Row r of a reduced system, against pivots followed by the free parameters. */
  lemma ReducedRow(a: seq<int>, ps: seq<int>, free: seq<int>, r: nat)
    requires |a| == |ps| + |free| && r < |ps|
    requires forall k | 0 <= k < |ps| && k != r :: a[k] == 0
    ensures Dot(a, ps + free) == a[r] * ps[r] + Dot(a[|ps|..], free)
  {
    DotAppend(a, ps, free);
    DotSingle(a[..|ps|], ps, r);
  }

  /**
   * For a reduced system whose rows are the pivot columns followed by the
   * free ones, a valid evaluation is sound: the pivots followed by the free
   * parameters are a non-negative solution pressing the evaluated total.
   */
  lemma EvaluationSolves(m: seq<seq<int>>, c: seq<int>, free: seq<nat>)
    requires |m| == |c| && forall k | 0 <= k < |m| :: |m[k]| == |m| + |free|
    requires Reduced(m, |m|)
    requires Evaluation(m, c, free, |m|, |m| + |free|).Some?
    ensures var x := Pivots(m, c, free, |m|, |m| + |free|).value + free;
      Solves(m, c, x) && (forall k | 0 <= k < |x| :: x[k] >= 0) &&
      Sum(x) == Evaluation(m, c, free, |m|, |m| + |free|).value
  {
    var numRows, numCols := |m|, |m| + |free|;
    PivotsMeaning(m, c, free, numRows, numCols);
    var ps := Pivots(m, c, free, numRows, numCols).value;
    var x := ps + free;
    forall r | 0 <= r < numRows ensures Dot(m[r], x) == c[r] {
      PivotRowHolds(m, c, free, ps, r);
    }
    SumAppend(ps, free);
  }

  lemma PivotRowHolds(m: seq<seq<int>>, c: seq<int>, free: seq<nat>, ps: seq<int>, r: nat)
    requires |m| == |c| == |ps| && forall k | 0 <= k < |m| :: |m[k]| == |m| + |free|
    requires Reduced(m, |m|) && r < |m|
    requires PivotValue(m, c, free, r, |m| + |free|) == Some(ps[r])
    ensures Dot(m[r], ps + free) == c[r]
  {
    var numCols := |m| + |free|;
    PivotValueMeaning(m, c, free, r, numCols);
    assert numCols - |free| == |ps|;
    ReducedRow(m[r], ps, free, r);
  }

  /** A pivot value times the diagonal is the counter less the free contribution. */
  lemma PivotValueMeaning(m: seq<seq<int>>, c: seq<int>, free: seq<nat>, row: nat, numCols: nat)
    requires |m| == |c| && row < |m| && |m[row]| == numCols && |free| <= numCols
    requires PivotValue(m, c, free, row, numCols).Some?
    ensures row < numCols && m[row][row] != 0
    ensures m[row][row] * PivotValue(m, c, free, row, numCols).value == c[row] - Dot(m[row][numCols - |free|..], free)
  {
    var remainder := c[row] - Dot(m[row][numCols - |free|..], free);
    DivisionIsExact(remainder, m[row][row]);
  }

  lemma DivisionIsExact(a: int, d: int)
    requires d != 0 && a % d == 0
    ensures d * (a / d) == a
  {
  }

  /**
   * Conversely, in a reduced system with a non-zero diagonal, every
   * non-negative solution, split into its pivot unknowns and its free
   * ones, is found by evaluating the free part: the pivots are determined
   * by the free parameters.
   */
  lemma SolutionIsEvaluated(m: seq<seq<int>>, c: seq<int>, ps: seq<nat>, free: seq<nat>)
    requires |m| == |c| == |ps| && forall k | 0 <= k < |m| :: |m[k]| == |ps| + |free|
    requires Reduced(m, |ps|) && forall r | 0 <= r < |ps| :: m[r][r] != 0
    requires Solves(m, c, ps + free)
    ensures Evaluation(m, c, free, |ps|, |ps| + |free|) == Some(Sum(ps + free))
  {
    SolutionPivots(m, c, ps, free, |ps|);
    assert ps[..|ps|] == ps;
    SumAppend(ps, free);
    EvaluationOfPivots(m, c, free, |ps|, |ps| + |free|, Sum(ps + free));
  }

  lemma EvaluationOfPivots(m: seq<seq<int>>, c: seq<int>, free: seq<nat>, numRows: nat, numCols: nat, total: int)
    requires |m| == |c| && numRows <= |m| && |free| <= numCols
    requires forall k | 0 <= k < |m| :: |m[k]| == numCols
    requires Pivots(m, c, free, numRows, numCols).Some?
    requires total == Sum(free) + Sum(Pivots(m, c, free, numRows, numCols).value)
    ensures Evaluation(m, c, free, numRows, numCols) == Some(total)
  {
  }

  lemma {:induction false} SolutionPivots(m: seq<seq<int>>, c: seq<int>, ps: seq<nat>, free: seq<nat>, k: nat)
    requires |m| == |c| == |ps| && forall r | 0 <= r < |m| :: |m[r]| == |ps| + |free|
    requires Reduced(m, |ps|) && forall r | 0 <= r < |ps| :: m[r][r] != 0
    requires Solves(m, c, ps + free)
    requires k <= |ps|
    ensures Pivots(m, c, free, k, |ps| + |free|) == Some(ps[..k])
  {
    if k > 0 {
      SolutionPivots(m, c, ps, free, k - 1);
      SolutionRowPivot(m, c, ps, free, k - 1);
      assert ps[..k - 1] + [ps[k - 1]] == ps[..k];
    }
  }

  lemma SolutionRowPivot(m: seq<seq<int>>, c: seq<int>, ps: seq<nat>, free: seq<nat>, r: nat)
    requires |m| == |c| == |ps| && forall k | 0 <= k < |m| :: |m[k]| == |ps| + |free|
    requires Reduced(m, |ps|) && r < |ps| && m[r][r] != 0
    requires Solves(m, c, ps + free)
    ensures PivotValue(m, c, free, r, |ps| + |free|) == Some(ps[r])
  {
    ReducedRow(m[r], ps, free, r);
    var remainder := c[r] - Dot(m[r][|ps|..], free);
    assert remainder == m[r][r] * ps[r];
    ExactQuotient(remainder, m[r][r], ps[r]);
  }

  /** The loop of `evaluateSolution` summing freeParams[i] × row[freeStartCol + i]. */
  method FreeContribution(row: seq<int>, freeParams: seq<nat>, freeStartCol: nat) returns (contribution: int)
    requires freeStartCol + |freeParams| == |row|
    ensures contribution == Dot(row[freeStartCol..], freeParams)
  {
    contribution := 0;
    var i := 0;
    while i < |freeParams|
      invariant 0 <= i <= |freeParams|
      invariant contribution == Dot(row[freeStartCol..freeStartCol + i], freeParams[..i])
    {
      assert row[freeStartCol..freeStartCol + i + 1][..i] == row[freeStartCol..freeStartCol + i];
      assert freeParams[..i + 1][..i] == freeParams[..i];
      contribution := contribution + freeParams[i] * row[freeStartCol + i];
      i := i + 1;
    }
    assert row[freeStartCol..freeStartCol + i] == row[freeStartCol..];
    assert freeParams[..i] == freeParams;
  }

  // ----- Part two: the least evaluation -----

  /** `bounds.slice(numRows)`: the bounds of the free columns. */
  function FreeBounds(bounds: seq<nat>, numRows: nat): (free: seq<nat>)
    ensures |free| <= |bounds|
  {
    if numRows <= |bounds| then bounds[numRows..] else []
  }

  /** The running minimum: None when no value is present, else a present value no other present value undercuts. */
  predicate Least(minSum: Option<int>, values: seq<Option<int>>)
  {
    (minSum.None? <==> forall j | 0 <= j < |values| :: values[j].None?) &&
    (minSum.Some? ==> minSum in values) &&
    (minSum.Some? ==> forall j | 0 <= j < |values| && values[j].Some? :: minSum.value <= values[j].value)
  }

  /** `if (result < minSum) minSum = result`, with None as Infinity. */
  function Better(minSum: Option<int>, result: Option<int>): Option<int>
  {
    if result.Some? && (minSum.None? || result.value < minSum.value) then result else minSum
  }

  /** The running minimum after every value, folded from the left. */
  function RunningMinimum(values: seq<Option<int>>): Option<int>
  {
    if values == [] then None else Better(RunningMinimum(values[..|values| - 1]), values[|values| - 1])
  }

  /** The fold finds the least present value, and None exactly when none is present. */
  lemma {:induction false} RunningMinimumIsLeast(values: seq<Option<int>>)
    ensures Least(RunningMinimum(values), values)
  {
    if values != [] {
      var n := |values| - 1;
      RunningMinimumIsLeast(values[..n]);
      assert forall j | 0 <= j < n :: values[..n][j] == values[j];
      var next := RunningMinimum(values);
      if next.Some? {
        if next == values[n] {
          assert next in values;
        } else {
          assert next in values[..n];
        }
      }
    }
  }

  /**
   * The system's least evaluation: None when no choice of free parameters
   * within the bounds evaluates, else the evaluation of some choice that
   * no other choice undercuts.
   */
  ghost predicate IsLeastEvaluation(m: seq<seq<int>>, c: seq<int>, numCols: nat, freeBounds: seq<nat>, minSum: Option<int>)
    requires |m| == |c| && |freeBounds| <= numCols && forall k | 0 <= k < |m| :: |m[k]| == numCols
  {
    (minSum.None? <==> forall free | InBounds(free, freeBounds) :: Evaluation(m, c, free, |m|, numCols).None?) &&
    (minSum.Some? ==> exists free | InBounds(free, freeBounds) :: Evaluation(m, c, free, |m|, numCols) == minSum) &&
    (minSum.Some? ==> forall free | InBounds(free, freeBounds) && Evaluation(m, c, free, |m|, numCols).Some? ::
      minSum.value <= Evaluation(m, c, free, |m|, numCols).value)
  }

  /** The running minimum over an enumeration of every in-bounds choice is the least evaluation. */
  lemma LeastOverBounds(m: seq<seq<int>>, c: seq<int>, numCols: nat, freeBounds: seq<nat>,
                        combos: seq<seq<nat>>, values: seq<Option<int>>, minSum: Option<int>)
    requires |m| == |c| && |freeBounds| <= numCols && forall k | 0 <= k < |m| :: |m[k]| == numCols
    requires forall v | InBounds(v, freeBounds) :: v in combos
    requires |values| == |combos|
    requires forall k | 0 <= k < |combos| :: InBounds(combos[k], freeBounds) && values[k] == Evaluation(m, c, combos[k], |m|, numCols)
    requires Least(minSum, values)
    ensures IsLeastEvaluation(m, c, numCols, freeBounds, minSum)
  {
    forall free | InBounds(free, freeBounds) ensures Evaluation(m, c, free, |m|, numCols) in values {
      var k :| 0 <= k < |combos| && combos[k] == free;
      assert values[k] == Evaluation(m, c, free, |m|, numCols);
    }
    if minSum.Some? {
      var k :| 0 <= k < |values| && values[k] == minSum;
      assert InBounds(combos[k], freeBounds);
    } else {
      forall free | InBounds(free, freeBounds) ensures Evaluation(m, c, free, |m|, numCols).None? {
        var k :| 0 <= k < |combos| && combos[k] == free;
        assert values[k] == Evaluation(m, c, free, |m|, numCols);
      }
    }
  }

  // ----- Part two: the equation system -----

  /** Every button lists at least one counter, and only counters that exist. */
  predicate ButtonsFit(buttons: seq<seq<nat>>, numCounters: nat)
  {
    forall j | 0 <= j < |buttons| :: |buttons[j]| > 0 && forall k | 0 <= k < |buttons[j]| :: buttons[j][k] < numCounters
  }

  /** `Math.min(...button.map(n => counters[n]))`: the smallest target among the counters a button raises. */
  function ButtonBound(joltage: seq<nat>, button: seq<nat>): (b: nat)
    requires |button| > 0 && forall k | 0 <= k < |button| :: button[k] < |joltage|
    ensures forall k | 0 <= k < |button| :: b <= joltage[button[k]]
    ensures exists k | 0 <= k < |button| :: b == joltage[button[k]]
  {
    if |button| == 1 then joltage[button[0]]
    else
      var rest := ButtonBound(joltage, button[1..]);
      assert forall k | 1 <= k < |button| :: button[1..][k - 1] == button[k];
      if joltage[button[0]] < rest then joltage[button[0]] else rest
  }

  /** The inner loop of the constructor: every equation gains the coefficient of one more button. */
  method AddColumn(rows: seq<seq<int>>, button: seq<nat>) returns (next: seq<seq<int>>)
    ensures |next| == |rows|
    ensures forall i | 0 <= i < |rows| :: next[i] == rows[i] + [if i in button then 1 else 0]
  {
    next := rows;
    var i := 0;
    while i < |rows|
      invariant 0 <= i <= |rows| == |next|
      invariant forall i' | 0 <= i' < i :: next[i'] == rows[i'] + [if i' in button then 1 else 0]
      invariant forall i' | i <= i' < |rows| :: next[i'] == rows[i']
    {
      next := next[i := next[i] + [if i in button then 1 else 0]];
      i := i + 1;
    }
  }

  /** Row i, column j is 1 exactly when button j raises counter i. */
  function ButtonMatrix(numCounters: nat, buttons: seq<seq<nat>>): (m: seq<seq<int>>)
    ensures |m| == numCounters && forall i | 0 <= i < numCounters :: |m[i]| == |buttons|
  {
    seq(numCounters, i => seq(|buttons|, j requires 0 <= j < |buttons| => if i in buttons[j] then 1 else 0))
  }

  /** Adding button j to the matrix appends its column to every row. */
  lemma ButtonMatrixSnoc(numCounters: nat, buttons: seq<seq<nat>>, j: nat)
    requires j < |buttons|
    ensures forall i | 0 <= i < numCounters ::
      ButtonMatrix(numCounters, buttons[..j + 1])[i] == ButtonMatrix(numCounters, buttons[..j])[i] + [if i in buttons[j] then 1 else 0]
  {
    forall i | 0 <= i < numCounters
      ensures ButtonMatrix(numCounters, buttons[..j + 1])[i] == ButtonMatrix(numCounters, buttons[..j])[i] + [if i in buttons[j] then 1 else 0]
    {
      assert buttons[..j + 1][..j] == buttons[..j];
    }
  }

  /**
   * The bounds are safe: in any way of pressing the buttons that reaches
   * the targets exactly, button j is pressed at most its bound times, as
   * each press raises the counter with the smallest target.
   */
  lemma PressesWithinBound(joltage: seq<nat>, buttons: seq<seq<nat>>, x: seq<int>, j: nat)
    requires ButtonsFit(buttons, |joltage|) && j < |buttons|
    requires Solves(ButtonMatrix(|joltage|, buttons), joltage, x)
    requires forall k | 0 <= k < |x| :: x[k] >= 0
    requires |x| == |buttons|
    ensures x[j] <= ButtonBound(joltage, buttons[j])
  {
    var m := ButtonMatrix(|joltage|, buttons);
    var k :| 0 <= k < |buttons[j]| && ButtonBound(joltage, buttons[j]) == joltage[buttons[j][k]];
    var i := buttons[j][k];
    assert m[i][j] == 1;
    DotAtLeast(m[i], x, j);
  }

  /**
   * The system of part two: one equation per counter, whose unknowns are
   * how often each button is pressed.
   */
  class EquationSystem {
    /** coefficients[i][j] is how much button j raises counter i. */
    var coefficients: seq<seq<int>>
    /** The value each equation must reach. */
    var counters: seq<int>
    /** The most presses each column's button can take. */
    var bounds: seq<nat>

    /** One counter per equation, and one coefficient per button in every equation. */
    predicate Valid()
      reads this
    {
      |coefficients| == |counters| && forall r | 0 <= r < |coefficients| :: |coefficients[r]| == |bounds|
    }

    /** One column per button, its coefficients marking the counters it raises, its bound the least target among them. */
    constructor (joltage: seq<nat>, buttons: seq<seq<nat>>)
      requires ButtonsFit(buttons, |joltage|)
      ensures Valid()
      ensures coefficients == ButtonMatrix(|joltage|, buttons) && counters == joltage
      ensures |bounds| == |buttons| && forall j | 0 <= j < |buttons| :: bounds[j] == ButtonBound(joltage, buttons[j])
    {
      var numCounters := |joltage|;
      var matrix: seq<seq<int>> := seq(numCounters, _ => []);
      var presses: seq<nat> := [];
      var j := 0;
      while j < |buttons|
        invariant 0 <= j <= |buttons|
        invariant |matrix| == numCounters && |presses| == j
        invariant forall i | 0 <= i < numCounters :: matrix[i] == ButtonMatrix(numCounters, buttons[..j])[i]
        invariant forall j' | 0 <= j' < j :: presses[j'] == ButtonBound(joltage, buttons[j'])
      {
        var button := buttons[j];
        presses := presses + [ButtonBound(joltage, button)];
        matrix := AddColumn(matrix, button);
        ButtonMatrixSnoc(numCounters, buttons, j);
        j := j + 1;
      }
      assert buttons[..j] == buttons;
      counters, coefficients, bounds := joltage, matrix, presses;
    }

    /** `swapRows`: exchanges two equations together with their counters. */
    method SwapRows(i: nat, j: nat)
      requires Valid() && i < |coefficients| && j < |coefficients|
      modifies this
      ensures Valid()
      ensures coefficients == SwapEntries(old(coefficients), i, j) && counters == SwapEntries(old(counters), i, j)
      ensures bounds == old(bounds)
    {
      if i == j {
        return;
      }
      coefficients := coefficients[i := coefficients[j]][j := coefficients[i]];
      counters := counters[i := counters[j]][j := counters[i]];
    }

    /** `swapCols`: exchanges two unknowns in every equation together with their bounds. */
    method SwapCols(i: nat, j: nat)
      requires Valid() && i < |bounds| && j < |bounds|
      modifies this
      ensures Valid()
      ensures coefficients == SwapColumns(old(coefficients), i, j) && bounds == SwapEntries(old(bounds), i, j)
      ensures counters == old(counters)
    {
      if i == j {
        assert forall r | 0 <= r < |coefficients| :: SwapEntries(coefficients[r], i, j) == coefficients[r];
        return;
      }
      var r := 0;
      while r < |coefficients|
        invariant 0 <= r <= |coefficients| == |old(coefficients)|
        invariant forall k | 0 <= k < r :: coefficients[k] == SwapEntries(old(coefficients)[k], i, j)
        invariant forall k | r <= k < |coefficients| :: coefficients[k] == old(coefficients)[k]
        invariant counters == old(counters) && bounds == old(bounds)
      {
        var row := coefficients[r];
        coefficients := coefficients[r := row[i := row[j]][j := row[i]]];
        r := r + 1;
      }
      bounds := bounds[i := bounds[j]][j := bounds[i]];
    }

    /** `eliminateElement`: the row operation of `Eliminate`, applied in place. */
    method EliminateElement(pivotRow: nat, targetRow: nat)
      requires Valid() && pivotRow < |coefficients| && targetRow < |coefficients| && pivotRow < |bounds|
      modifies this
      ensures Valid()
      ensures (coefficients, counters) == Eliminate(old(coefficients), old(counters), pivotRow, targetRow)
      ensures bounds == old(bounds)
    {
      var pivotValue := coefficients[pivotRow][pivotRow];
      if pivotValue == 0 {
        return;
      }
      var targetValue := coefficients[targetRow][pivotRow];
      if targetValue == 0 {
        return;
      }
      var scale1, scale2 := -targetValue, pivotValue;
      var divisor := Gcd(scale1, scale2);
      var pivot, target := coefficients[pivotRow], coefficients[targetRow];
      coefficients := coefficients[targetRow := seq(|target|, col requires 0 <= col < |target| => (scale1 * pivot[col] + scale2 * target[col]) / divisor)];
      counters := counters[targetRow := (scale1 * counters[pivotRow] + scale2 * counters[targetRow]) / divisor];
    }

    /** `removeZeroRows`: keeps the equations with a non-zero coefficient, and their counters, in order. */
    method RemoveZeroRows()
      requires Valid()
      modifies this
      ensures Valid()
      ensures coefficients == Pick(old(coefficients), NonZeroIndices(old(coefficients)))
      ensures counters == Pick(old(counters), NonZeroIndices(old(coefficients)))
      ensures bounds == old(bounds)
    {
      var validIndices: seq<nat> := [];
      var row := 0;
      while row < |coefficients|
        invariant 0 <= row <= |coefficients|
        invariant validIndices == NonZeroIndices(coefficients[..row])
      {
        assert coefficients[..row + 1][..row] == coefficients[..row];
        assert coefficients[..row + 1][row] == coefficients[row];
        if NonZero(coefficients[row]) {
          validIndices := validIndices + [row];
        }
        row := row + 1;
      }
      assert coefficients[..row] == coefficients;
      coefficients, counters := Pick(coefficients, validIndices), Pick(counters, validIndices);
    }

    /**
     * `evaluateSolution`: with the last |freeParams| unknowns fixed, each of
     * the first numRows equations fixes its diagonal unknown; the total
     * presses, or None (Infinity) as soon as one is not a non-negative
     * integer.
     */
    method EvaluateSolution(freeParams: seq<nat>, numRows: nat, numCols: nat) returns (r: Option<int>)
      requires Valid() && numRows <= |coefficients| && numCols == |bounds| && |freeParams| <= numCols
      ensures r == Evaluation(coefficients, counters, freeParams, numRows, numCols)
    {
      var total := Sum(freeParams);
      var freeStartCol := numCols - |freeParams|;
      ghost var ps: seq<int> := [];
      var row := 0;
      while row < numRows
        invariant 0 <= row <= numRows
        invariant Pivots(coefficients, counters, freeParams, row, numCols) == Some(ps)
        invariant total == Sum(freeParams) + Sum(ps)
      {
        var freeContribution := FreeContribution(coefficients[row], freeParams, freeStartCol);
        var remainder := counters[row] - freeContribution;
        var diagonalValue := if row < numCols then coefficients[row][row] else 0;
        if diagonalValue == 0 || remainder % diagonalValue != 0 {
          PivotsStayMissing(coefficients, counters, freeParams, row + 1, numRows, numCols);
          return None;
        }
        var pivotValue := remainder / diagonalValue;
        if pivotValue < 0 {
          PivotsStayMissing(coefficients, counters, freeParams, row + 1, numRows, numCols);
          return None;
        }
        total := total + pivotValue;
        SumAppend(ps, [pivotValue]);
        ps := ps + [pivotValue];
        row := row + 1;
      }
      EvaluationOfPivots(coefficients, counters, freeParams, numRows, numCols, total);
      return Some(total);
    }

    /**
     * `solveMinimizingSum`: the least evaluation over every choice of the
     * free parameters within their bounds, None (Infinity) when none is
     * valid. The system needs an equation, as the number of columns is
     * read off the first one.
     */
    method SolveMinimizingSum() returns (minSum: Option<int>)
      requires Valid() && |coefficients| > 0
      ensures IsLeastEvaluation(coefficients, counters, |bounds|, FreeBounds(bounds, |coefficients|), minSum)
    {
      var numCols := |coefficients[0]|;
      var numRows := |coefficients|;
      var freeBounds := FreeBounds(bounds, numRows);
      var combos := EnumerateParameterCombinations(freeBounds);
      ghost var m, c := coefficients, counters;
      ghost var values := seq(|combos|, j requires 0 <= j < |combos| => Evaluation(m, c, combos[j], numRows, numCols));
      minSum := None;
      var k := 0;
      while k < |combos|
        invariant 0 <= k <= |combos|
        invariant minSum == RunningMinimum(values[..k])
      {
        var result := EvaluateSolution(combos[k], numRows, numCols);
        assert values[k] == Evaluation(m, c, combos[k], numRows, numCols);
        assert values[..k + 1][..k] == values[..k];
        if result.Some? && (minSum.None? || result.value < minSum.value) {
          minSum := result;
        }
        k := k + 1;
      }
      assert values[..k] == values;
      RunningMinimumIsLeast(values);
      EnumeratesEachOnce(freeBounds, combos);
      LeastOverBounds(coefficients, counters, numCols, freeBounds, combos, values, minSum);
    }
  }
}
