/**
 * Dumbo Octopus (2021, day 11): a cavern of octopus energy levels. Each step raises every
 * level by one, then repeatedly scans the grid and flashes every octopus above 9: it drops to
 * 0 and raises its non-zero neighbours, until a scan flashes nothing.
 */
module DumboOctopus {
  import opened Common

  const FlashLimit := 9

  /** The eight neighbour offsets, in the order the flash visits them. */
  const Offsets: seq<(int, int)> := [(-1, -1), (-1, 0), (-1, 1), (0, -1), (0, 1), (1, -1), (1, 0), (1, 1)]

  type Grid = seq<seq<int>>

  predicate InGrid(g: Grid, r: int, c: int)
  {
    0 <= r < |g| && 0 <= c < |g[r]|
  }

  predicate SameShape(g: Grid, h: Grid)
  {
    |g| == |h| && forall r :: 0 <= r < |g| ==> |g[r]| == |h[r]|
  }

  predicate AllNonNeg(g: Grid)
  {
    forall r, c :: 0 <= r < |g| && 0 <= c < |g[r]| ==> g[r][c] >= 0
  }

  /** `reduce` over the rows adding their lengths. */
  function Size(g: Grid): int
  {
    if g == [] then 0 else Size(g[..|g| - 1]) + |g[|g| - 1]|
  }

  function AllCells(g: Grid): set<(int, int)>
  {
    set r, c | 0 <= r < |g| && 0 <= c < |g[r]| :: (r, c)
  }

  function NonZeroCells(g: Grid): set<(int, int)>
  {
    set r, c | 0 <= r < |g| && 0 <= c < |g[r]| && g[r][c] != 0 :: (r, c)
  }

  /** Adds 1 to a cell that exists and is non-zero (the `?.` lookup and truthiness test). */
  function BumpAt(g: Grid, r: int, c: int): (h: Grid)
    ensures SameShape(g, h)
  {
    if InGrid(g, r, c) && g[r][c] != 0 then g[r := g[r][c := g[r][c] + 1]] else g
  }

  /** The first k neighbours of (i, j) bumped. */
  function Bumped(g: Grid, i: int, j: int, k: nat): (h: Grid)
    requires k <= |Offsets|
    ensures SameShape(g, h)
  {
    if k == 0 then g
    else BumpAt(Bumped(g, i, j, k - 1), i + Offsets[k - 1].0, j + Offsets[k - 1].1)
  }

  /** flash: the cell drops to 0, then its non-zero neighbours rise by one. */
  function FlashGrid(g: Grid, i: int, j: int): (h: Grid)
    requires InGrid(g, i, j)
    ensures SameShape(g, h)
  {
    Bumped(g[i := g[i][j := 0]], i, j, |Offsets|)
  }

  predicate Adjacent(r: int, c: int, i: int, j: int)
  {
    (r - i, c - j) in Offsets
  }

  lemma OffsetsDistinct()
    ensures forall a, b :: 0 <= a < b < |Offsets| ==> Offsets[a] != Offsets[b]
    ensures (0, 0) !in Offsets
  {
  }

  lemma {:induction false} BumpedCell(g: Grid, i: int, j: int, k: nat, r: int, c: int)
    requires k <= |Offsets| && InGrid(g, r, c)
    ensures Bumped(g, i, j, k)[r][c] == g[r][c] + (if g[r][c] != 0 && (r - i, c - j) in Offsets[..k] then 1 else 0)
  {
    if k > 0 {
      var prev := Bumped(g, i, j, k - 1);
      BumpedCell(g, i, j, k - 1, r, c);
      BumpAtCell(prev, i + Offsets[k - 1].0, j + Offsets[k - 1].1, r, c);
      OffsetsPrefix(k, (r - i, c - j));
    }
  }

  lemma BumpAtCell(g: Grid, a: int, b: int, r: int, c: int)
    requires InGrid(g, r, c)
    ensures BumpAt(g, a, b)[r][c] == g[r][c] + (if (a, b) == (r, c) && g[r][c] != 0 then 1 else 0)
  {
  }

  /** An offset is in the first k exactly when it is in the first k - 1 or is the k-th, never both. */
  lemma OffsetsPrefix(k: nat, x: (int, int))
    requires 0 < k <= |Offsets|
    ensures x in Offsets[..k] <==> x in Offsets[..k - 1] || x == Offsets[k - 1]
    ensures x == Offsets[k - 1] ==> x !in Offsets[..k - 1]
  {
    OffsetsDistinct();
    assert Offsets[..k] == Offsets[..k - 1] + [Offsets[k - 1]];
  }

  /** The flashed cell becomes 0; exactly its non-zero in-grid neighbours rise by one. */
  lemma FlashEffect(g: Grid, i: int, j: int, r: int, c: int)
    requires InGrid(g, i, j) && InGrid(g, r, c)
    ensures FlashGrid(g, i, j)[r][c] ==
      if r == i && c == j then 0
      else if g[r][c] != 0 && Adjacent(r, c, i, j) then g[r][c] + 1
      else g[r][c]
  {
    var g0 := g[i := g[i][j := 0]];
    BumpedCell(g0, i, j, |Offsets|, r, c);
    assert Offsets[..|Offsets|] == Offsets;
    OffsetsDistinct();
  }

  /** With no negative levels, a flash turns exactly one non-zero cell into 0. */
  lemma FlashNonZero(g: Grid, i: int, j: int)
    requires AllNonNeg(g) && InGrid(g, i, j) && g[i][j] != 0
    ensures AllNonNeg(FlashGrid(g, i, j))
    ensures NonZeroCells(FlashGrid(g, i, j)) == NonZeroCells(g) - {(i, j)}
  {
    var h := FlashGrid(g, i, j);
    forall r, c | InGrid(g, r, c)
      ensures h[r][c] >= 0 && (h[r][c] != 0 <==> g[r][c] != 0 && (r, c) != (i, j))
    {
      FlashEffect(g, i, j, r, c);
    }
    assert AllNonNeg(h);
    assert NonZeroCells(h) == NonZeroCells(g) - {(i, j)};
  }

  datatype Flashed = Flashed(grid: Grid, count: nat)

  /** One scan in row-major order from (i, j), flashing every cell above the limit when visited. */
  function PassFrom(g: Grid, i: nat, j: nat): (p: Flashed)
    requires i <= |g| && (i < |g| ==> j <= |g[i]|)
    ensures SameShape(g, p.grid)
    decreases |g| - i, if i < |g| then |g[i]| - j else 0
  {
    if i == |g| then Flashed(g, 0)
    else if j == |g[i]| then PassFrom(g, i + 1, 0)
    else if g[i][j] > FlashLimit then
      var p := PassFrom(FlashGrid(g, i, j), i, j + 1);
      Flashed(p.grid, p.count + 1)
    else PassFrom(g, i, j + 1)
  }

  /** Every flash of a scan removes one non-zero cell. */
  lemma {:induction false} PassCount(g: Grid, i: nat, j: nat)
    requires AllNonNeg(g)
    requires i <= |g| && (i < |g| ==> j <= |g[i]|)
    ensures AllNonNeg(PassFrom(g, i, j).grid)
    ensures |NonZeroCells(PassFrom(g, i, j).grid)| + PassFrom(g, i, j).count == |NonZeroCells(g)|
    decreases |g| - i, if i < |g| then |g[i]| - j else 0
  {
    if i == |g| {
    } else if j == |g[i]| {
      PassCount(g, i + 1, 0);
    } else if g[i][j] > FlashLimit {
      FlashNonZero(g, i, j);
      PassCount(FlashGrid(g, i, j), i, j + 1);
    } else {
      PassCount(g, i, j + 1);
    }
  }

  /** A scan that flashes nothing changes nothing, and it saw no cell above the limit. */
  lemma {:induction false} QuietPass(g: Grid, i: nat, j: nat)
    requires i <= |g| && (i < |g| ==> j <= |g[i]|)
    requires PassFrom(g, i, j).count == 0
    ensures PassFrom(g, i, j).grid == g
    ensures forall c :: i < |g| && j <= c < |g[i]| ==> g[i][c] <= FlashLimit
    ensures forall r, c :: i < r < |g| && 0 <= c < |g[r]| ==> g[r][c] <= FlashLimit
    decreases |g| - i, if i < |g| then |g[i]| - j else 0
  {
    if i == |g| {
    } else if j == |g[i]| {
      QuietPass(g, i + 1, 0);
    } else {
      QuietPass(g, i, j + 1);
    }
  }

  /** The do-while: scan again as long as the last scan flashed something. */
  function Settle(g: Grid): (s: Flashed)
    requires AllNonNeg(g)
    ensures SameShape(g, s.grid)
    decreases |NonZeroCells(g)|
  {
    var p := PassFrom(g, 0, 0);
    PassCount(g, 0, 0);
    if p.count == 0 then Flashed(g, 0)
    else
      var s := Settle(p.grid);
      Flashed(s.grid, s.count + p.count)
  }

  function Inc(g: Grid): (h: Grid)
    ensures SameShape(g, h)
  {
    seq(|g|, r requires 0 <= r < |g| => seq(|g[r]|, c requires 0 <= c < |g[r]| => g[r][c] + 1))
  }

  /** step: raise every level, then settle; the count is the number of flash calls. */
  function StepGrid(g: Grid): (s: Flashed)
    requires AllNonNeg(g)
    ensures SameShape(g, s.grid)
  {
    assert AllNonNeg(Inc(g));
    Settle(Inc(g))
  }

  lemma {:induction false} SettleFacts(g: Grid)
    requires AllNonNeg(g)
    ensures AllNonNeg(Settle(g).grid)
    ensures forall r, c :: InGrid(Settle(g).grid, r, c) ==> Settle(g).grid[r][c] <= FlashLimit
    ensures |NonZeroCells(Settle(g).grid)| + Settle(g).count == |NonZeroCells(g)|
    decreases |NonZeroCells(g)|
  {
    var p := PassFrom(g, 0, 0);
    PassCount(g, 0, 0);
    if p.count == 0 {
      QuietPass(g, 0, 0);
    } else {
      SettleFacts(p.grid);
    }
  }

  /** After a step every level is in 0..9. */
  lemma StepBounded(g: Grid)
    requires AllNonNeg(g)
    ensures forall r, c :: InGrid(StepGrid(g).grid, r, c) ==> 0 <= StepGrid(g).grid[r][c] <= FlashLimit
  {
    assert AllNonNeg(Inc(g));
    SettleFacts(Inc(g));
  }

  lemma {:induction false} SizeIsCellCount(g: Grid)
    ensures Size(g) == |AllCells(g)|
  {
    if g != [] {
      var n := |g| - 1;
      SizeIsCellCount(g[..n]);
      var row := set c | 0 <= c < |g[n]| :: (n, c);
      assert AllCells(g) == AllCells(g[..n]) + row;
      assert AllCells(g[..n]) !! row;
      RowCount(n, |g[n]|);
    }
  }

  lemma {:induction false} RowCount(n: int, m: nat)
    ensures |set c | 0 <= c < m :: (n, c)| == m
  {
    if m > 0 {
      RowCount(n, m - 1);
      assert (set c | 0 <= c < m :: (n, c)) == (set c | 0 <= c < m - 1 :: (n, c)) + {(n, m - 1)};
    }
  }

  predicate AllZero(g: Grid)
  {
    forall r, c :: 0 <= r < |g| && 0 <= c < |g[r]| ==> g[r][c] == 0
  }

  /** The flash count of a step equals the number of octopuses at 0 afterwards, and it equals
   * the cavern's size exactly when every octopus flashed. */
  lemma SyncMeansAllZero(g: Grid)
    requires AllNonNeg(g)
    ensures StepGrid(g).count == |AllCells(g)| - |NonZeroCells(StepGrid(g).grid)|
    ensures StepGrid(g).count == Size(g) <==> AllZero(StepGrid(g).grid)
  {
    var h := Inc(g);
    assert AllNonNeg(h);
    assert NonZeroCells(h) == AllCells(g);
    SettleFacts(h);
    SizeIsCellCount(g);
    var s := StepGrid(g).grid;
    if AllZero(s) {
      assert NonZeroCells(s) == {};
    } else {
      var r, c :| InGrid(s, r, c) && s[r][c] != 0;
      assert (r, c) in NonZeroCells(s);
    }
  }

  /** The grid after n steps. */
  function Steps(g: Grid, n: nat): (h: Grid)
    requires AllNonNeg(g)
    ensures AllNonNeg(h)
  {
    if n == 0 then g
    else
      var prev := Steps(g, n - 1);
      StepBounded(prev);
      StepGrid(prev).grid
  }

  /** No step in 1..n ends with every octopus at 0. */
  predicate NoSyncUpTo(g: Grid, n: nat)
    requires AllNonNeg(g)
  {
    n == 0 || (NoSyncUpTo(g, n - 1) && !AllZero(Steps(g, n)))
  }

  lemma {:induction false} NoSyncMeansNone(g: Grid, n: nat)
    requires AllNonNeg(g) && NoSyncUpTo(g, n)
    ensures forall k :: 1 <= k <= n ==> !AllZero(Steps(g, k))
  {
    if n > 0 {
      NoSyncMeansNone(g, n - 1);
    }
  }

  /** One round of the search for the first synchronised step: step `i` either syncs, with no
   * earlier step syncing, or extends the run of steps that did not. */
  lemma SearchStep(g: Grid, i: nat, prev: Grid, synced: bool)
    requires AllNonNeg(g) && i >= 1 && prev == Steps(g, i - 1) && NoSyncUpTo(g, i - 1)
    requires synced <==> AllZero(StepGrid(prev).grid)
    ensures StepGrid(prev).grid == Steps(g, i)
    ensures synced ==> AllZero(Steps(g, i)) && forall k :: 1 <= k < i ==> !AllZero(Steps(g, k))
    ensures !synced ==> NoSyncUpTo(g, i)
  {
    StepsUnfold(g, i);
    NoSyncMeansNone(g, i - 1);
  }

  lemma StepsUnfold(g: Grid, n: nat)
    requires AllNonNeg(g) && n > 0
    ensures Steps(g, n) == StepGrid(Steps(g, n - 1)).grid
  {
  }

  lemma {:induction false} SameShapeSameSize(g: Grid, h: Grid)
    requires SameShape(g, h)
    ensures Size(g) == Size(h)
  {
    if g != [] {
      SameShapeSameSize(g[..|g| - 1], h[..|h| - 1]);
    }
  }

  class Cavern {
    var grid: Grid
    const size: int
    var flashes: int

    predicate Valid()
      reads this
    {
      AllNonNeg(grid) && size == Size(grid)
    }

    constructor (octopuses: Grid)
      requires AllNonNeg(octopuses)
      ensures grid == octopuses && size == Size(octopuses) && flashes == 0
      ensures Valid()
    {
      grid := octopuses;
      var s := 0;
      for k := 0 to |octopuses|
        invariant s == Size(octopuses[..k])
      {
        assert octopuses[..k + 1][..k] == octopuses[..k];
        s := s + |octopuses[k]|;
      }
      assert octopuses[..|octopuses|] == octopuses;
      size := s;
      flashes := 0;
    }

    method Flash(i: int, j: int)
      requires InGrid(grid, i, j)
      modifies this
      ensures grid == FlashGrid(old(grid), i, j)
      ensures flashes == old(flashes) + 1
    {
      flashes := flashes + 1;
      grid := grid[i := grid[i][j := 0]];
      ghost var start := grid;
      for k := 0 to |Offsets|
        invariant grid == Bumped(start, i, j, k)
        invariant flashes == old(flashes) + 1
      {
        var r, c := i + Offsets[k].0, j + Offsets[k].1;
        assert Bumped(start, i, j, k + 1) == BumpAt(grid, r, c);
        if 0 <= r < |grid| && 0 <= c < |grid[r]| && grid[r][c] != 0 {
          grid := grid[r := grid[r][c := grid[r][c] + 1]];
        }
      }
    }

    /** One scan of the whole grid; `flashed` says whether it flashed anything. */
    method Scan() returns (flashed: bool)
      requires AllNonNeg(grid)
      modifies this
      ensures grid == PassFrom(old(grid), 0, 0).grid
      ensures flashes == old(flashes) + PassFrom(old(grid), 0, 0).count
      ensures flashed <==> PassFrom(old(grid), 0, 0).count > 0
    {
      ghost var start := grid;
      ghost var before := flashes;
      flashed := false;
      for i := 0 to |grid|
        invariant SameShape(start, grid)
        invariant PassFrom(grid, i, 0).grid == PassFrom(start, 0, 0).grid
        invariant flashes - before + PassFrom(grid, i, 0).count == PassFrom(start, 0, 0).count
        invariant flashed <==> flashes > before
        invariant flashes >= before
      {
        for j := 0 to |grid[i]|
          invariant SameShape(start, grid)
          invariant PassFrom(grid, i, j).grid == PassFrom(start, 0, 0).grid
          invariant flashes - before + PassFrom(grid, i, j).count == PassFrom(start, 0, 0).count
          invariant flashed <==> flashes > before
          invariant flashes >= before
        {
          if grid[i][j] > FlashLimit {
            Flash(i, j);
            flashed := true;
          }
        }
      }
    }

    method Step()
      requires Valid()
      modifies this
      ensures Valid()
      ensures grid == StepGrid(old(grid)).grid
      ensures flashes == old(flashes) + StepGrid(old(grid)).count
    {
      ghost var g0 := grid;
      grid := Inc(grid);
      assert AllNonNeg(grid);
      ghost var target := Settle(grid);
      ghost var before := flashes;
      var flashed := true;
      while flashed
        invariant AllNonNeg(grid)
        invariant flashed ==> Settle(grid).grid == target.grid && flashes + Settle(grid).count == before + target.count
        invariant !flashed ==> grid == target.grid && flashes == before + target.count
        decreases |NonZeroCells(grid)| + (if flashed then 1 else 0)
      {
        ghost var g := grid;
        PassCount(g, 0, 0);
        flashed := Scan();
        if !flashed {
          QuietPass(g, 0, 0);
        }
      }
      StepBounded(g0);
      SameShapeSameSize(g0, grid);
    }

    /** One iteration of findSyncStep: step, then compare the flash count with the size. */
    method StepAndCompare() returns (synced: bool)
      requires Valid()
      modifies this
      ensures Valid()
      ensures grid == StepGrid(old(grid)).grid
      ensures synced <==> AllZero(grid)
    {
      var prevFlashes := flashes;
      ghost var before := grid;
      Step();
      SyncMeansAllZero(before);
      synced := prevFlashes + size == flashes;
    }

    /**
     * findSyncStep: the first step after which every octopus has just flashed, found by
     * comparing the flash count with the size. The source loops without bound; here the
     * search stops after `limit` steps.
     */
    method FindSyncStep(limit: nat) returns (r: Option<nat>)
      requires Valid()
      modifies this
      ensures Valid()
      ensures r.Some? ==> 1 <= r.value <= limit && AllZero(Steps(old(grid), r.value))
      ensures r.Some? ==> forall k :: 1 <= k < r.value ==> !AllZero(Steps(old(grid), k))
      ensures r.None? ==> forall k :: 1 <= k <= limit ==> !AllZero(Steps(old(grid), k))
    {
      ghost var g0 := grid;
      for i := 1 to limit + 1
        invariant Valid()
        invariant grid == Steps(g0, i - 1)
        invariant NoSyncUpTo(g0, i - 1)
      {
        var synced := SearchRound(g0, i);
        if synced {
          return Some(i);
        }
      }
      NoSyncMeansNone(g0, limit);
      return None;
    }

    /** One iteration of findSyncStep: step `i` of the search from `g0`. */
    method SearchRound(ghost g0: Grid, i: nat) returns (synced: bool)
      requires Valid() && AllNonNeg(g0) && i >= 1 && grid == Steps(g0, i - 1) && NoSyncUpTo(g0, i - 1)
      modifies this
      ensures Valid() && grid == Steps(g0, i)
      ensures synced ==> AllZero(Steps(g0, i)) && forall k :: 1 <= k < i ==> !AllZero(Steps(g0, k))
      ensures !synced ==> NoSyncUpTo(g0, i)
    {
      ghost var prev := grid;
      synced := StepAndCompare();
      SearchStep(g0, i, prev, synced);
    }
  }
}
