/**
 * Parabolic Reflector Dish (2023, day 14): round rocks 'O' roll north over
 * empty ground '.' and stop at cube rocks '#', at other round rocks and at
 * the edge; a spin cycle tilts and turns the platform four times, and the
 * load counts each round rock by its distance from the south edge.
 */
module ReflectorDish {
  import opened Common

  type Grid = seq<seq<char>>

  /** Round rocks in a row. */
  function CountO(row: seq<char>): (n: nat)
    ensures n <= |row|
  {
    if row == [] then 0 else CountO(row[..|row| - 1]) + (if row[|row| - 1] == 'O' then 1 else 0)
  }

  lemma {:induction false} CountOUpdate(row: seq<char>, c: nat, x: char)
    requires c < |row|
    ensures CountO(row[c := x]) == CountO(row) - (if row[c] == 'O' then 1 else 0) + (if x == 'O' then 1 else 0)
  {
    var r := row[c := x];
    if c < |row| - 1 {
      assert r[..|r| - 1] == row[..|row| - 1][c := x];
      CountOUpdate(row[..|row| - 1], c, x);
    } else {
      assert r[..|r| - 1] == row[..|row| - 1];
    }
  }

  /** Σ (top − i) × (round rocks of row i) over the first k rows. */
  function Weighted(g: Grid, k: nat, top: int): int
    requires k <= |g|
  {
    if k == 0 then 0 else Weighted(g, k - 1, top) + (top - (k - 1)) * CountO(g[k - 1])
  }

  /** `totalLoad`: Σ (rows − i) × (round rocks of row i), never negative. */
  function Load(g: Grid): (load: int)
    ensures load >= 0
  {
    WeightedNonNegative(g, |g|, |g|);
    Weighted(g, |g|, |g|)
  }

  /** Σ i × (round rocks of row i): how far north the rocks still are from the top edge. */
  function Potential(g: Grid): nat
  {
    WeightedNonPositive(g, |g|);
    -Weighted(g, |g|, 0)
  }

  lemma {:induction false} WeightedNonPositive(g: Grid, k: nat)
    requires k <= |g|
    ensures Weighted(g, k, 0) <= 0
  {
    if k > 0 {
      WeightedNonPositive(g, k - 1);
      MulMonotone(k - 1, 0, CountO(g[k - 1]));
    }
  }

  lemma {:induction false} WeightedNonNegative(g: Grid, k: nat, top: int)
    requires k <= |g| && k <= top
    ensures Weighted(g, k, top) >= 0
  {
    if k > 0 {
      WeightedNonNegative(g, k - 1, top);
      MulMonotone(top - (k - 1), 0, CountO(g[k - 1]));
    }
  }

  /** Replacing row i changes the weighted sum by row i's weight times the change in its rocks. */
  lemma {:induction false} WeightedUpdate(g: Grid, i: nat, row: seq<char>, k: nat, top: int, delta: int)
    requires i < |g| && k <= |g| && CountO(row) == CountO(g[i]) + delta
    ensures Weighted(g[i := row], k, top) == Weighted(g, k, top) + (if i < k then (top - i) * delta else 0)
  {
    if k > 0 {
      WeightedUpdate(g, i, row, k - 1, top, delta);
      if k - 1 == i {
        MulDistributes(top - i, CountO(g[i]), delta);
      } else {
        assert g[i := row][k - 1] == g[k - 1];
      }
    }
  }

  lemma MulDistributes(x: int, y: int, d: int)
    ensures x * (y + d) == x * y + x * d
  {
  }

  /** Round rocks in column c among the first k rows. */
  function ColumnCount(g: Grid, c: nat, k: nat): nat
    requires k <= |g|
  {
    if k == 0 then 0 else ColumnCount(g, c, k - 1) + (if c < |g[k - 1]| && g[k - 1][c] == 'O' then 1 else 0)
  }

  lemma {:induction false} ColumnUpdate(g: Grid, i: nat, row: seq<char>, c: nat, k: nat)
    requires i < |g| && k <= |g|
    ensures ColumnCount(g[i := row], c, k) == ColumnCount(g, c, k) +
      (if i < k then (if c < |row| && row[c] == 'O' then 1 else 0) - (if c < |g[i]| && g[i][c] == 'O' then 1 else 0) else 0)
  {
    if k > 0 {
      ColumnUpdate(g, i, row, c, k - 1);
    }
  }

  /** The source's check: a round rock at (r, c) with empty ground directly north of it. */
  predicate Movable(g: Grid, r: nat, c: nat)
  {
    1 <= r < |g| && c < |g[r]| && g[r][c] == 'O' && c < |g[r - 1]| && g[r - 1][c] == '.'
  }

  /** No round rock can roll north any more. */
  predicate Settled(g: Grid)
  {
    forall r, c | 0 <= r < |g| && 0 <= c < |g[r]| :: !Movable(g, r, c)
  }

  /** The rock at (r, c) rolls one row north. */
  function Swap(g: Grid, r: nat, c: nat): (h: Grid)
    requires Movable(g, r, c)
    ensures |h| == |g| && forall i | 0 <= i < |g| :: |h[i]| == |g[i]|
  {
    g[r - 1 := g[r - 1][c := 'O']][r := g[r][c := '.']]
  }

  /**
   * What rolling keeps: the shape, every cube rock, the round rocks of each
   * column, and the load gained equals the potential lost.
   */
  ghost predicate Kept(g: Grid, h: Grid)
  {
    |h| == |g| && (forall i | 0 <= i < |g| :: |h[i]| == |g[i]|) &&
    (forall i, j | 0 <= i < |g| && 0 <= j < |g[i]| :: (h[i][j] == '#') == (g[i][j] == '#')) &&
    (forall c: nat :: ColumnCount(h, c, |h|) == ColumnCount(g, c, |g|)) &&
    Potential(h) <= Potential(g) && Load(h) - Load(g) == Potential(g) - Potential(h)
  }

  lemma KeptTrans(a: Grid, b: Grid, c: Grid)
    requires Kept(a, b) && Kept(b, c)
    ensures Kept(a, c)
  {
  }

  lemma KeptRefl(g: Grid)
    ensures Kept(g, g)
  {
  }

  /** One roll moves one rock: the load goes up by one and the potential down by one. */
  lemma SwapFacts(g: Grid, r: nat, c: nat)
    requires Movable(g, r, c)
    ensures Kept(g, Swap(g, r, c))
    ensures Potential(Swap(g, r, c)) == Potential(g) - 1
  {
    var h := Swap(g, r, c);
    SwapWeights(g, r, c, |g|);
    SwapWeights(g, r, c, 0);
    WeightedNonPositive(h, |h|);
    forall col: nat
      ensures ColumnCount(h, col, |h|) == ColumnCount(g, col, |g|)
    {
      SwapColumn(g, r, c, col);
    }
    SwapCells(g, r, c);
  }

  lemma SwapWeights(g: Grid, r: nat, c: nat, top: int)
    requires Movable(g, r, c)
    ensures Weighted(Swap(g, r, c), |g|, top) == Weighted(g, |g|, top) + 1
  {
    CountOUpdate(g[r - 1], c, 'O');
    CountOUpdate(g[r], c, '.');
    MoveOneRock(g, r, g[r - 1][c := 'O'], g[r][c := '.'], top);
  }

  /** Rows r − 1 and r replaced, one rock moved from the second to the first. */
  lemma MoveOneRock(g: Grid, r: nat, a: seq<char>, b: seq<char>, top: int)
    requires 1 <= r < |g|
    requires CountO(a) == CountO(g[r - 1]) + 1 && CountO(b) == CountO(g[r]) - 1
    ensures Weighted(g[r - 1 := a][r := b], |g|, top) == Weighted(g, |g|, top) + 1
  {
    var g1 := g[r - 1 := a];
    assert g1[r] == g[r];
    WeightedUpdate(g, r - 1, a, |g|, top, 1);
    WeightedUpdate(g1, r, b, |g|, top, -1);
  }

  lemma SwapColumn(g: Grid, r: nat, c: nat, col: nat)
    requires Movable(g, r, c)
    ensures ColumnCount(Swap(g, r, c), col, |g|) == ColumnCount(g, col, |g|)
  {
    var a := g[r - 1][c := 'O'];
    var b := g[r][c := '.'];
    var g1 := g[r - 1 := a];
    ColumnUpdate(g, r - 1, a, col, |g|);
    ColumnUpdate(g1, r, b, col, |g|);
  }

  lemma SwapCells(g: Grid, r: nat, c: nat)
    requires Movable(g, r, c)
    ensures forall i, j | 0 <= i < |g| && 0 <= j < |g[i]| :: (Swap(g, r, c)[i][j] == '#') == (g[i][j] == '#')
  {
  }

  /** One check of the sweep: roll the rock at (r, c) if it can move. */
  function Step(g: Grid, r: nat, c: nat): (h: Grid)
    ensures |h| == |g| && forall i | 0 <= i < |g| :: |h[i]| == |g[i]|
  {
    if Movable(g, r, c) then Swap(g, r, c) else g
  }

  /** The sweep of row r from column c on; the flag tells whether anything rolled. */
  function RowSweep(g: Grid, r: nat, c: nat): (res: (Grid, bool))
    requires r < |g|
    ensures |res.0| == |g| && forall i | 0 <= i < |g| :: |res.0[i]| == |g[i]|
    decreases |g[r]| - c
  {
    if c >= |g[r]| then (g, false)
    else
      var next := RowSweep(Step(g, r, c), r, c + 1);
      (next.0, Movable(g, r, c) || next.1)
  }

  /** One pass of the `do … while` body: rows r, r + 1, … in order. */
  function Sweep(g: Grid, r: nat): (res: (Grid, bool))
    ensures |res.0| == |g| && forall i | 0 <= i < |g| :: |res.0[i]| == |g[i]|
    decreases |g| - r
  {
    if r >= |g| then (g, false)
    else
      var first := RowSweep(g, r, 0);
      var rest := Sweep(first.0, r + 1);
      (rest.0, first.1 || rest.1)
  }

  lemma {:induction false} RowSweepFacts(g: Grid, r: nat, c: nat)
    requires r < |g|
    ensures Kept(g, RowSweep(g, r, c).0)
    ensures RowSweep(g, r, c).1 ==> Potential(RowSweep(g, r, c).0) < Potential(g)
    ensures !RowSweep(g, r, c).1 ==> RowSweep(g, r, c).0 == g && forall j: nat | c <= j :: !Movable(g, r, j)
    decreases |g[r]| - c
  {
    if c < |g[r]| {
      var g1 := Step(g, r, c);
      RowSweepFacts(g1, r, c + 1);
      if Movable(g, r, c) {
        SwapFacts(g, r, c);
        KeptTrans(g, g1, RowSweep(g1, r, c + 1).0);
      }
    } else {
      KeptRefl(g);
    }
  }

  lemma {:induction false} SweepFacts(g: Grid, r: nat)
    ensures Kept(g, Sweep(g, r).0)
    ensures Sweep(g, r).1 ==> Potential(Sweep(g, r).0) < Potential(g)
    ensures !Sweep(g, r).1 ==> Sweep(g, r).0 == g && forall i: nat, j: nat | r <= i :: !Movable(g, i, j)
    decreases |g| - r
  {
    if r < |g| {
      var first := RowSweep(g, r, 0);
      RowSweepFacts(g, r, 0);
      SweepFacts(first.0, r + 1);
      KeptTrans(g, first.0, Sweep(first.0, r + 1).0);
    } else {
      KeptRefl(g);
    }
  }

  /** Passes until one moves nothing: the platform after `rollNorth`, with as many rows as before. */
  function Tilt(g: Grid): (h: Grid)
    ensures |h| == |g|
    decreases Potential(g)
  {
    var pass := Sweep(g, 1);
    SweepFacts(g, 1);
    if pass.1 then Tilt(pass.0) else pass.0
  }

  /**
   * Tilting leaves no rock that can roll, keeps the cube rocks where they are
   * and the round rocks in their columns, and never lowers the load.
   */
  lemma {:induction false} TiltFacts(g: Grid)
    ensures Settled(Tilt(g))
    ensures Kept(g, Tilt(g))
    ensures Load(Tilt(g)) >= Load(g)
    decreases Potential(g)
  {
    var pass := Sweep(g, 1);
    SweepFacts(g, 1);
    if pass.1 {
      TiltFacts(pass.0);
      KeptTrans(g, pass.0, Tilt(pass.0));
    } else {
      forall r, c | 0 <= r < |g| && 0 <= c < |g[r]|
        ensures !Movable(g, r, c)
      {
        if r == 0 {
          assert !Movable(g, r, c);
        }
      }
    }
  }

  /** A settled platform does not change when tilted. */
  lemma TiltSettled(g: Grid)
    requires Settled(g)
    ensures Tilt(g) == g
  {
    SweepNothing(g, 1);
  }

  lemma {:induction false} SweepNothing(g: Grid, r: nat)
    requires Settled(g)
    ensures Sweep(g, r) == (g, false)
    decreases |g| - r
  {
    if r < |g| {
      RowSweepNothing(g, r, 0);
      SweepNothing(g, r + 1);
    }
  }

  lemma {:induction false} RowSweepNothing(g: Grid, r: nat, c: nat)
    requires Settled(g) && r < |g|
    ensures RowSweep(g, r, c) == (g, false)
    decreases |g[r]| - c
  {
    if c < |g[r]| {
      assert !Movable(g, r, c);
      RowSweepNothing(g, r, c + 1);
    }
  }

  /** Rectangular and at least one cell wide and high, as `_rotateCW` needs. */
  predicate Shaped(g: Grid)
  {
    g != [] && |g[0]| >= 1 && forall r | 0 <= r < |g| :: |g[r]| == |g[0]|
  }

  /** `_rotateCW`: new[c][r] = old[h − 1 − r][c]. */
  function RotateCW(g: Grid): (h: Grid)
    requires Shaped(g)
    ensures Shaped(h) && |h| == |g[0]| && |h[0]| == |g|
    ensures forall c, r | 0 <= c < |g[0]| && 0 <= r < |g| :: h[c][r] == g[|g| - 1 - r][c]
  {
    seq(|g[0]|, c requires 0 <= c < |g[0]| => seq(|g|, r requires 0 <= r < |g| => g[|g| - 1 - r][c]))
  }

  /** Turning twice turns the platform upside down. */
  lemma RotateTwice(g: Grid)
    requires Shaped(g)
    ensures |RotateCW(RotateCW(g))| == |g| && |RotateCW(RotateCW(g))[0]| == |g[0]|
    ensures forall i, j | 0 <= i < |g| && 0 <= j < |g[0]| ::
      RotateCW(RotateCW(g))[i][j] == g[|g| - 1 - i][|g[0]| - 1 - j]
  {
  }

  /** Four quarter turns give the platform back. */
  lemma RotateFourTimes(g: Grid)
    requires Shaped(g)
    ensures RotateCW(RotateCW(RotateCW(RotateCW(g)))) == g
  {
    var h := RotateCW(RotateCW(g));
    RotateTwice(g);
    RotateTwice(h);
    var k := RotateCW(RotateCW(h));
    forall i | 0 <= i < |g|
      ensures k[i] == g[i]
    {
      assert |k[i]| == |g[i]|;
    }
  }

  lemma TiltShaped(g: Grid)
    requires Shaped(g)
    ensures Shaped(Tilt(g))
  {
    TiltFacts(g);
  }

  /** The first i tilt-and-turn steps of a spin cycle. */
  function SpinPart(g: Grid, i: nat): (h: Grid)
    requires Shaped(g)
    ensures Shaped(h)
  {
    if i == 0 then g
    else
      var p := SpinPart(g, i - 1);
      TiltShaped(p);
      RotateCW(Tilt(p))
  }

  /** The platform after k spin cycles. */
  function Spins(g: Grid, k: nat): (h: Grid)
    requires Shaped(g)
    ensures Shaped(h)
  {
    if k == 0 then g else SpinPart(Spins(g, k - 1), 4)
  }

  /** The platforms after 0, 1, …, m spin cycles. */
  function SpinsHistory(g: Grid, m: nat): (h: seq<Grid>)
    requires Shaped(g)
    ensures |h| == m + 1 && Shaped(h[m])
  {
    if m == 0 then [g] else
      var before := SpinsHistory(g, m - 1);
      before + [SpinPart(before[m - 1], 4)]
  }

  lemma {:induction false} SpinsHistoryAt(g: Grid, m: nat, k: nat)
    requires Shaped(g) && k <= m
    ensures SpinsHistory(g, m)[k] == Spins(g, k)
  {
    if k < m {
      SpinsHistoryAt(g, m - 1, k);
    } else if m > 0 {
      SpinsHistoryAt(g, m - 1, m - 1);
    }
  }

  /** Entry k of the map is the load of platform k of the history, for every k from 1 on. */
  ghost predicate LoadsRecorded(loads: map<int, int>, history: seq<Grid>)
  {
    forall k | 1 <= k < |history| :: k in loads && loads[k] == Load(history[k])
  }

  lemma RecordLoad(loads: map<int, int>, history: seq<Grid>, g: Grid)
    requires LoadsRecorded(loads, history)
    ensures LoadsRecorded(loads[|history| := Load(g)], history + [g])
  {
  }

  lemma LoadRecorded(loads: map<int, int>, history: seq<Grid>, k: int)
    requires LoadsRecorded(loads, history) && 1 <= k < |history|
    ensures k in loads && loads[k] == Load(history[k])
  {
  }

  /** The map sends platform k of the history to k, for every k from 1 on, and knows no other platform. */
  ghost predicate SeenExactly(seen: map<Grid, int>, history: seq<Grid>)
  {
    (forall k | 1 <= k < |history| :: history[k] in seen && seen[history[k]] == k) &&
    (forall s | s in seen :: 1 <= seen[s] < |history| && history[seen[s]] == s)
  }

  lemma SeenAdd(seen: map<Grid, int>, history: seq<Grid>, g: Grid)
    requires SeenExactly(seen, history) && history != [] && g !in seen
    ensures SeenExactly(seen[g := |history|], history + [g])
  {
    var seen', history' := seen[g := |history|], history + [g];
    forall k | 1 <= k < |history'|
      ensures history'[k] in seen' && seen'[history'[k]] == k
    {
      if k < |history| {
        assert history'[k] == history[k] != g;
      }
    }
  }

  lemma SeenEarlier(seen: map<Grid, int>, history: seq<Grid>, g: Grid)
    requires SeenExactly(seen, history) && g in seen
    ensures 1 <= seen[g] < |history| && history[seen[g]] == g
  {
  }

  /**
   * When platform n equals an earlier platform `previous`, the recorded load
   * at `targetEquivalent` is the load after `target` cycles.
   */
  lemma RepeatFound(g: Grid, n: nat, previous: nat, target: nat, loads: map<int, int>, history: seq<Grid>)
    requires Shaped(g) && 1 <= previous < n <= target && history == SpinsHistory(g, n)
    requires history[previous] == history[n]
    requires LoadsRecorded(loads, history)
    ensures TargetEquivalent(target, n, previous) in loads
    ensures loads[TargetEquivalent(target, n, previous)] == Load(Spins(g, target)) >= 0
  {
    var t := TargetEquivalent(target, n, previous);
    SpinsHistoryAt(g, n, previous);
    SpinsHistoryAt(g, n, n);
    SpinsHistoryAt(g, n, t);
    Periodic(g, previous, n, target);
    LoadRecorded(loads, history, t);
    var h := Spins(g, target);
    WeightedNonNegative(h, |h|, |h|);
  }

  /**
   * The state the loop of `cycle` keeps after m cycles: the platforms so far,
   * each new one in the cache with its cycle number, and every load recorded.
   */
  ghost predicate Tracking(g: Grid, m: nat, history: seq<Grid>, seen: map<Grid, int>, loads: map<int, int>)
  {
    Shaped(g) && history == SpinsHistory(g, m) && SeenExactly(seen, history) && LoadsRecorded(loads, history)
  }

  /** The loop ran out: the layout is the one after `target` cycles and none repeated. */
  lemma NoRepeatUpTo(g: Grid, m: nat, target: int, history: seq<Grid>, seen: map<Grid, int>, loads: map<int, int>)
    requires Tracking(g, m, history, seen, loads)
    requires m == if target < 0 then 0 else target
    ensures history[m] == Spins(g, m)
    ensures forall a, b | 1 <= a < b <= target :: Spins(g, a) != Spins(g, b)
  {
    SeenDistinct(g, m, seen, history);
  }

  lemma SeenDistinct(g: Grid, m: nat, seen: map<Grid, int>, history: seq<Grid>)
    requires Shaped(g) && history == SpinsHistory(g, m)
    requires SeenExactly(seen, history)
    ensures history[m] == Spins(g, m)
    ensures forall a, b | 1 <= a < b <= m :: Spins(g, a) != Spins(g, b)
  {
    forall a, b | 1 <= a < b <= m
      ensures Spins(g, a) != Spins(g, b)
    {
      SpinsHistoryAt(g, m, a);
      SpinsHistoryAt(g, m, b);
    }
    SpinsHistoryAt(g, m, m);
  }

  /** Running a + m cycles is running m cycles from the platform after a. */
  lemma {:induction false} SpinsAdd(g: Grid, a: nat, m: nat, total: nat)
    requires Shaped(g) && total == a + m
    ensures Spins(g, total) == Spins(Spins(g, a), m)
  {
    if m > 0 {
      SpinsAdd(g, a, m - 1, total - 1);
    }
  }

  /** `targetEquivalent`: the cycle count between `previous` and n that the target comes back to. */
  function TargetEquivalent(target: int, n: int, previous: int): (t: int)
    requires previous < n
    ensures previous <= t < n
  {
    ((target - n) % (n - previous)) + previous
  }

  /**
   * Once the platform after p cycles comes back after n cycles, every later
   * count of cycles lands where `targetEquivalent` says.
   */
  lemma {:induction false} Periodic(g: Grid, p: nat, n: nat, target: nat)
    requires Shaped(g) && p < n <= target && Spins(g, p) == Spins(g, n)
    ensures Spins(g, target) == Spins(g, TargetEquivalent(target, n, p))
    decreases target
  {
    var earlier := target - (n - p);
    SpinsAdd(g, n, target - n, target);
    SpinsAdd(g, p, target - n, earlier);
    if earlier >= n {
      Periodic(g, p, n, earlier);
      TargetEquivalentStep(target, n, p, earlier);
    } else {
      TargetEquivalentBase(target, n, p, earlier);
    }
  }

  lemma TargetEquivalentStep(target: int, n: int, p: int, earlier: int)
    requires p < n <= earlier && earlier == target - (n - p)
    ensures TargetEquivalent(target, n, p) == TargetEquivalent(earlier, n, p)
  {
    ModShift(earlier - n, target - n, n - p);
  }

  lemma TargetEquivalentBase(target: int, n: int, p: int, earlier: int)
    requires p <= earlier < n && earlier == target - (n - p)
    ensures TargetEquivalent(target, n, p) == earlier
  {
    ModSmall(target - n, n - p);
  }

  lemma ModShift(x: int, y: int, len: int)
    requires len > 0 && y == x + len
    ensures y % len == x % len
  {
    var q, r := x / len, x % len;
    assert y == (q + 1) * len + r;
    DivUnique(y, len, q + 1, r);
  }

  lemma ModSmall(x: int, len: int)
    requires 0 <= x < len
    ensures x % len == x
  {
    DivUnique(x, len, 0, x);
  }

  /**
   * Cycle n is the first whose platform repeats: the platforms after cycles
   * 1..n − 1 are all different, and the one after n equals one of them.
   */
  ghost predicate FirstRepeat(g: Grid, n: nat)
    requires Shaped(g)
  {
    1 <= n && (exists p | 1 <= p < n :: Spins(g, p) == Spins(g, n)) &&
    forall a, b | 1 <= a < b < n :: Spins(g, a) != Spins(g, b)
  }

  /** At most one cycle is the first to repeat. */
  lemma FirstRepeatUnique(g: Grid, m: nat, n: nat)
    requires Shaped(g) && FirstRepeat(g, m) && FirstRepeat(g, n)
    ensures m == n
  {
  }

  /** A platform found in the cache of cycles 1..n − 1 makes n the first repeating cycle. */
  lemma RepeatIsFirst(g: Grid, n: nat, seen: map<Grid, int>, history: seq<Grid>, arrangement: Grid)
    requires Shaped(g) && 1 <= n && history == SpinsHistory(g, n - 1) && history + [arrangement] == SpinsHistory(g, n)
    requires SeenExactly(seen, history) && arrangement in seen
    ensures FirstRepeat(g, n) && arrangement == Spins(g, n)
  {
    SeenDistinct(g, n - 1, seen, history);
    var p := seen[arrangement];
    SeenEarlier(seen, history, arrangement);
    SpinsHistoryAt(g, n, n);
    SpinsHistoryAt(g, n - 1, p);
    assert Spins(g, p) == Spins(g, n);
  }

  /** The cache test of `cycle`: a platform seen before answers from the recorded loads, a new one is remembered. */
  method CheckRepeat(ghost initial: Grid, n: int, target: int, ghost history: seq<Grid>, ghost history': seq<Grid>,
                     arrangement: Grid, seen: map<Grid, int>, loads: map<int, int>)
    returns (r: int, seen': map<Grid, int>)
    requires Shaped(initial) && 1 <= n <= target && history == SpinsHistory(initial, n - 1) && history' == SpinsHistory(initial, n)
    requires history' == history + [arrangement] && SeenExactly(seen, history) && LoadsRecorded(loads, history')
    ensures r != -1 ==> r == Load(Spins(initial, target))
    ensures r != -1 ==> FirstRepeat(initial, n) && arrangement == Spins(initial, n)
    ensures r == -1 ==> Tracking(initial, n, history', seen', loads)
  {
    if arrangement in seen {
      RepeatIsFirst(initial, n, seen, history, arrangement);
      var previous := seen[arrangement];
      SeenEarlier(seen, history, arrangement);
      var targetEquivalent := TargetEquivalent(target, n, previous);
      RepeatFound(initial, n, previous, target, loads, history');
      r := loads[targetEquivalent];
      seen' := seen;
    } else {
      SeenAdd(seen, history, arrangement);
      seen' := seen[arrangement := n];
      r := -1;
    }
  }

  /** The platform, turned and tilted in place. */
  class Platform {
    var layout: Grid

    predicate Valid()
      reads this
    {
      Shaped(layout)
    }

    constructor (initial: Grid)
      requires Shaped(initial)
      ensures Valid() && layout == initial
    {
      layout := initial;
    }

    /** `totalLoad`. */
    function TotalLoad(): (load: int)
      reads this
      ensures load >= 0
    {
      Load(layout)
    }

    /** `rollNorth`: sweeps the rows, rolling every rock that can move one row north, until a sweep moves nothing. */
    method RollNorth()
      modifies this
      ensures layout == Tilt(old(layout))
    {
      var newLayout := layout;
      var updated := true;
      while updated
        invariant updated ==> Tilt(newLayout) == Tilt(old(layout))
        invariant !updated ==> newLayout == Tilt(old(layout))
        decreases Potential(newLayout) + (if updated then 1 else 0)
      {
        ghost var start := newLayout;
        updated := false;
        var row := 1;
        while row < |newLayout|
          invariant |newLayout| == |start|
          invariant Sweep(newLayout, row).0 == Sweep(start, 1).0
          invariant (updated || Sweep(newLayout, row).1) == Sweep(start, 1).1
          decreases |newLayout| - row
        {
          var col := 0;
          while col < |newLayout[row]|
            invariant |newLayout| == |start|
            invariant Sweep(RowSweep(newLayout, row, col).0, row + 1).0 == Sweep(start, 1).0
            invariant (updated || RowSweep(newLayout, row, col).1 || Sweep(RowSweep(newLayout, row, col).0, row + 1).1) == Sweep(start, 1).1
            decreases |newLayout[row]| - col
          {
            if newLayout[row][col] == 'O' && col < |newLayout[row - 1]| && newLayout[row - 1][col] == '.' {
              assert Movable(newLayout, row, col);
              newLayout := newLayout[row - 1 := newLayout[row - 1][col := 'O']][row := newLayout[row][col := '.']];
              updated := true;
            }
            col := col + 1;
          }
          row := row + 1;
        }
        SweepFacts(start, 1);
      }
      layout := newLayout;
    }

    /** `_rotateCW`. */
    method RotateClockwise()
      requires Valid()
      modifies this
      ensures Valid() && layout == RotateCW(old(layout))
    {
      layout := RotateCW(layout);
    }

    /** The inner loop of `cycle`: tilt north and turn clockwise, four times. */
    method SpinCycle()
      requires Valid()
      modifies this
      ensures Valid() && layout == SpinPart(old(layout), 4)
    {
      ghost var before := layout;
      for i := 0 to 4
        invariant Valid() && layout == SpinPart(before, i)
      {
        RollNorth();
        TiltShaped(SpinPart(before, i));
        RotateClockwise();
      }
    }

    /**
     * `cycle`: runs spin cycles 1, 2, … up to `target`, remembering each
     * platform and its load; at the first platform seen before it answers
     * with the load of the cycle the target is equivalent to, and −1 if no
     * platform repeats.
     */
    method Cycle(target: int) returns (r: int)
      requires Valid()
      modifies this
      ensures Valid()
      ensures r != -1 ==> target >= 1 && r == Load(Spins(old(layout), target))
      ensures r != -1 ==> exists n | 1 <= n <= target :: FirstRepeat(old(layout), n) && layout == Spins(old(layout), n)
      ensures r == -1 ==> layout == Spins(old(layout), if target < 0 then 0 else target)
      ensures r == -1 ==> forall a, b | 1 <= a < b <= target :: Spins(old(layout), a) != Spins(old(layout), b)
    {
      ghost var initial := layout;
      ghost var history: seq<Grid> := [layout];
      var seenArrangements: map<Grid, int> := map[];
      var loads: map<int, int> := map[];
      var n := 1;
      while n <= target
        invariant 1 <= n <= (if target >= 1 then target + 1 else 1)
        invariant Valid() && Tracking(initial, n - 1, history, seenArrangements, loads) && layout == history[n - 1]
        decreases target - n
      {
        r, history, seenArrangements, loads := CycleRound(initial, n, target, history, seenArrangements, loads);
        if r != -1 {
          assert FirstRepeat(initial, n) && layout == Spins(initial, n);
          return;
        }
        n := n + 1;
      }
      NoRepeatUpTo(initial, n - 1, target, history, seenArrangements, loads);
      return -1;
    }

    /**
     * One pass of the loop in `cycle`: spin cycle n, record its load, and either answer
     * from the first repeat or remember the new platform; −1 means no repeat yet.
     */
    method CycleRound(ghost initial: Grid, n: int, target: int, ghost history: seq<Grid>,
                      seen: map<Grid, int>, loads: map<int, int>)
      returns (r: int, ghost history': seq<Grid>, seen': map<Grid, int>, loads': map<int, int>)
      requires Valid() && 1 <= n <= target && Tracking(initial, n - 1, history, seen, loads) && layout == history[n - 1]
      modifies this
      ensures Valid() && |history'| == n + 1 && layout == history'[n]
      ensures r != -1 ==> r == Load(Spins(initial, target))
      ensures r != -1 ==> FirstRepeat(initial, n) && layout == Spins(initial, n)
      ensures r == -1 ==> Tracking(initial, n, history', seen', loads')
    {
      SpinCycle();
      history' := history + [layout];
      assert history' == SpinsHistory(initial, n);
      RecordLoad(loads, history, layout);
      loads' := loads[n := TotalLoad()];
      r, seen' := CheckRepeat(initial, n, target, history, history', layout, seen, loads');
    }
  }
}
