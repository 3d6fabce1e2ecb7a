/**
 * Treetop Tree House (2022, day 8): a grid of tree heights; part 1 counts
 * the trees visible from some edge, part 2 finds the highest scenic score,
 * the product of the four viewing distances.
 */
module TreetopForest {
  import opened Common

  type Grid = seq<seq<int>>

  /** Every row as wide as the first, as the puzzle's forest is. */
  predicate Rectangular(g: Grid)
  {
    forall r | 0 <= r < |g| :: |g[r]| == |g[0]|
  }

  predicate InGrid(g: Grid, r: int, c: int)
  {
    0 <= r < |g| && 0 <= c < |g[r]|
  }

  /** Every tree between (r, c) and the left edge is strictly shorter. */
  predicate VisibleLeft(g: Grid, r: nat, c: nat)
    requires Rectangular(g) && InGrid(g, r, c)
  {
    forall i | 0 <= i < c :: g[r][i] < g[r][c]
  }

  predicate VisibleRight(g: Grid, r: nat, c: nat)
    requires Rectangular(g) && InGrid(g, r, c)
  {
    forall i | c < i < |g[r]| :: g[r][i] < g[r][c]
  }

  predicate VisibleTop(g: Grid, r: nat, c: nat)
    requires Rectangular(g) && InGrid(g, r, c)
  {
    forall j | 0 <= j < r :: g[j][c] < g[r][c]
  }

  predicate VisibleBottom(g: Grid, r: nat, c: nat)
    requires Rectangular(g) && InGrid(g, r, c)
  {
    forall j | r < j < |g| :: g[j][c] < g[r][c]
  }

  predicate Visible(g: Grid, r: nat, c: nat)
    requires Rectangular(g) && InGrid(g, r, c)
  {
    VisibleBottom(g, r, c) || VisibleLeft(g, r, c) || VisibleRight(g, r, c) || VisibleTop(g, r, c)
  }

  /** A tree on the edge of the forest is visible: the loop towards that edge is empty. */
  lemma EdgeVisible(g: Grid, r: nat, c: nat)
    requires Rectangular(g) && InGrid(g, r, c)
    requires r == 0 || c == 0 || r == |g| - 1 || c == |g[r]| - 1
    ensures Visible(g, r, c)
  {
  }

  /**
   * The viewing distance to the left, scanning from column i down: the
   * distance to the first tree at least as tall, else the distance to the
   * edge.
   */
  function ScanLeft(g: Grid, r: nat, c: nat, i: int): nat
    requires Rectangular(g) && InGrid(g, r, c) && -1 <= i < c
    decreases i + 1
  {
    if i < 0 then c
    else if g[r][i] >= g[r][c] then c - i
    else ScanLeft(g, r, c, i - 1)
  }

  function ScanRight(g: Grid, r: nat, c: nat, i: nat): nat
    requires Rectangular(g) && InGrid(g, r, c) && c < i <= |g[r]|
    decreases |g[r]| - i
  {
    if i == |g[r]| then |g[0]| - c - 1
    else if g[r][i] >= g[r][c] then i - c
    else ScanRight(g, r, c, i + 1)
  }

  function ScanUp(g: Grid, r: nat, c: nat, i: int): nat
    requires Rectangular(g) && InGrid(g, r, c) && -1 <= i < r
    decreases i + 1
  {
    if i < 0 then r
    else if g[i][c] >= g[r][c] then r - i
    else ScanUp(g, r, c, i - 1)
  }

  function ScanDown(g: Grid, r: nat, c: nat, i: nat): nat
    requires Rectangular(g) && InGrid(g, r, c) && r < i <= |g|
    decreases |g| - i
  {
    if i == |g| then |g| - r - 1
    else if g[i][c] >= g[r][c] then i - r
    else ScanDown(g, r, c, i + 1)
  }

  function ViewLeft(g: Grid, r: nat, c: nat): nat
    requires Rectangular(g) && InGrid(g, r, c)
  {
    ScanLeft(g, r, c, c - 1)
  }

  function ViewRight(g: Grid, r: nat, c: nat): nat
    requires Rectangular(g) && InGrid(g, r, c)
  {
    ScanRight(g, r, c, c + 1)
  }

  function ViewUp(g: Grid, r: nat, c: nat): nat
    requires Rectangular(g) && InGrid(g, r, c)
  {
    ScanUp(g, r, c, r - 1)
  }

  function ViewDown(g: Grid, r: nat, c: nat): nat
    requires Rectangular(g) && InGrid(g, r, c)
  {
    ScanDown(g, r, c, r + 1)
  }

  /**
   * What the left viewing distance means: d trees are seen, all but the
   * last strictly shorter, and the last is at least as tall or on the edge.
   */
  lemma {:induction false} ScanLeftMeaning(g: Grid, r: nat, c: nat, i: int)
    requires Rectangular(g) && InGrid(g, r, c) && -1 <= i < c
    requires forall k | i < k < c :: g[r][k] < g[r][c]
    ensures var d := ScanLeft(g, r, c, i);
      d <= c && (forall k | c - d < k < c :: g[r][k] < g[r][c]) &&
      (d == c || g[r][c - d] >= g[r][c])
    decreases i + 1
  {
    if i >= 0 && g[r][i] < g[r][c] {
      ScanLeftMeaning(g, r, c, i - 1);
    }
  }

  lemma ViewLeftMeaning(g: Grid, r: nat, c: nat)
    requires Rectangular(g) && InGrid(g, r, c)
    ensures var d := ViewLeft(g, r, c);
      d <= c && (forall k | c - d < k < c :: g[r][k] < g[r][c]) &&
      (d == c || g[r][c - d] >= g[r][c])
  {
    ScanLeftMeaning(g, r, c, c - 1);
  }

  /** The right viewing distance: as for the left, with the edge distance taken from row 0's width. */
  lemma {:induction false} ScanRightMeaning(g: Grid, r: nat, c: nat, i: nat)
    requires Rectangular(g) && InGrid(g, r, c) && c < i <= |g[r]|
    requires forall k | c < k < i :: g[r][k] < g[r][c]
    ensures var d := ScanRight(g, r, c, i);
      c + d < |g[r]| && (forall k | c < k < c + d :: g[r][k] < g[r][c]) &&
      (c + d == |g[r]| - 1 || g[r][c + d] >= g[r][c])
    decreases |g[r]| - i
  {
    if i < |g[r]| && g[r][i] < g[r][c] {
      ScanRightMeaning(g, r, c, i + 1);
    }
  }

  lemma ViewRightMeaning(g: Grid, r: nat, c: nat)
    requires Rectangular(g) && InGrid(g, r, c)
    ensures var d := ViewRight(g, r, c);
      c + d < |g[r]| && (forall k | c < k < c + d :: g[r][k] < g[r][c]) &&
      (c + d == |g[r]| - 1 || g[r][c + d] >= g[r][c])
  {
    ScanRightMeaning(g, r, c, c + 1);
  }

  /** The scenic score: the product of the four viewing distances. */
  function Scenic(g: Grid, r: nat, c: nat): int
    requires Rectangular(g) && InGrid(g, r, c)
  {
    ViewLeft(g, r, c) * ViewRight(g, r, c) * ViewDown(g, r, c) * ViewUp(g, r, c)
  }

  /** A tree on the edge sees nothing past the edge, so its scenic score is 0. */
  lemma EdgeScenicZero(g: Grid, r: nat, c: nat)
    requires Rectangular(g) && InGrid(g, r, c)
    requires r == 0 || c == 0 || r == |g| - 1 || c == |g[r]| - 1
    ensures Scenic(g, r, c) == 0
  {
    if c == |g[r]| - 1 {
      assert ViewRight(g, r, c) == 0;
    }
    if r == |g| - 1 {
      assert ViewDown(g, r, c) == 0;
    }
  }

  /** The visible trees among the first n of row r. */
  function VisibleInRow(g: Grid, r: nat, n: nat): nat
    requires Rectangular(g) && r < |g| && n <= |g[r]|
  {
    if n == 0 then 0 else VisibleInRow(g, r, n - 1) + (if Visible(g, r, n - 1) then 1 else 0)
  }

  /** The visible trees of the first `rows` rows. */
  function VisibleInRows(g: Grid, rows: nat): nat
    requires Rectangular(g) && rows <= |g|
  {
    if rows == 0 then 0 else VisibleInRows(g, rows - 1) + VisibleInRow(g, rows - 1, |g[rows - 1]|)
  }

  /** The count of a row is the number of its visible columns. */
  lemma {:induction false} VisibleInRowCounts(g: Grid, r: nat, n: nat)
    requires Rectangular(g) && r < |g| && n <= |g[r]|
    ensures VisibleInRow(g, r, n) == |set c | 0 <= c < n && Visible(g, r, c)|
  {
    if n > 0 {
      VisibleInRowCounts(g, r, n - 1);
      var prev := set c | 0 <= c < n - 1 && Visible(g, r, c);
      if Visible(g, r, n - 1) {
        assert (set c | 0 <= c < n && Visible(g, r, c)) == prev + {n - 1};
      } else {
        assert (set c | 0 <= c < n && Visible(g, r, c)) == prev;
      }
    }
  }

  /** The highest scenic score among the first n trees of row r, and 0. */
  function RowScenicMax(g: Grid, r: nat, n: nat): int
    requires Rectangular(g) && r < |g| && n <= |g[r]|
  {
    if n == 0 then 0 else Max(RowScenicMax(g, r, n - 1), Scenic(g, r, n - 1))
  }

  function ScenicMax(g: Grid, rows: nat): int
    requires Rectangular(g) && rows <= |g|
  {
    if rows == 0 then 0 else Max(ScenicMax(g, rows - 1), RowScenicMax(g, rows - 1, |g[rows - 1]|))
  }

  /** The highest scenic score is at least every tree's score, and is some tree's score or 0. */
  lemma {:induction false} RowScenicMaxIsMax(g: Grid, r: nat, n: nat)
    requires Rectangular(g) && r < |g| && n <= |g[r]|
    ensures forall c | 0 <= c < n :: Scenic(g, r, c) <= RowScenicMax(g, r, n)
    ensures RowScenicMax(g, r, n) == 0 || exists c | 0 <= c < n :: RowScenicMax(g, r, n) == Scenic(g, r, c)
  {
    if n > 0 {
      RowScenicMaxIsMax(g, r, n - 1);
    }
  }

  lemma {:induction false} ScenicMaxIsMax(g: Grid, rows: nat)
    requires Rectangular(g) && rows <= |g|
    ensures forall r, c | 0 <= r < rows && 0 <= c < |g[r]| :: Scenic(g, r, c) <= ScenicMax(g, rows)
    ensures ScenicMax(g, rows) == 0 ||
      exists r, c | 0 <= r < rows && 0 <= c < |g[r]| :: ScenicMax(g, rows) == Scenic(g, r, c)
  {
    if rows > 0 {
      ScenicMaxIsMax(g, rows - 1);
      RowScenicMaxIsMax(g, rows - 1, |g[rows - 1]|);
    }
  }

  /** `Forest`: the heights and the two answers the constructor computes. */
  class Forest {
    var heights: Grid
    var visibleTrees: int
    var highestScenicScore: int

    constructor (heights: Grid)
      requires Rectangular(heights)
      ensures this.heights == heights
      ensures visibleTrees == VisibleInRows(heights, |heights|)
      ensures highestScenicScore == ScenicMax(heights, |heights|)
    {
      this.heights := heights;
      visibleTrees := 0;
      highestScenicScore := 0;
      new;
      for i := 0 to |heights|
        invariant this.heights == heights
        invariant visibleTrees == VisibleInRows(heights, i)
        invariant highestScenicScore == ScenicMax(heights, i)
      {
        for j := 0 to |heights[i]|
          invariant this.heights == heights
          invariant visibleTrees == VisibleInRows(heights, i) + VisibleInRow(heights, i, j)
          invariant highestScenicScore == Max(ScenicMax(heights, i), RowScenicMax(heights, i, j))
        {
          var visibility, scenicScore := Survey(i, j);
          visibleTrees := visibleTrees + (if visibility then 1 else 0);
          highestScenicScore := Max(scenicScore, highestScenicScore);
        }
      }
    }

    /** The visibility and scenic score of one tree, as the constructor's loop body computes them. */
    method Survey(i: nat, j: nat) returns (visibility: bool, scenicScore: int)
      requires Rectangular(heights) && InGrid(heights, i, j)
      ensures visibility <==> Visible(heights, i, j)
      ensures scenicScore == Scenic(heights, i, j)
    {
      var bottom := IsVisibleBottom(i, j);
      var left := IsVisibleLeft(i, j);
      var right := IsVisibleRight(i, j);
      var top := IsVisibleTop(i, j);
      visibility := bottom || left || right || top;
      var dl := ViewingDistanceLeft(i, j);
      var dr := ViewingDistanceRight(i, j);
      var dd := ViewingDistanceDown(i, j);
      var du := ViewingDistanceUp(i, j);
      scenicScore := dl * dr * dd * du;
    }

    method IsVisibleLeft(row: nat, col: nat) returns (b: bool)
      requires Rectangular(heights) && InGrid(heights, row, col)
      ensures b <==> VisibleLeft(heights, row, col)
    {
      for i := 0 to col
        invariant forall k | 0 <= k < i :: heights[row][k] < heights[row][col]
      {
        if heights[row][i] >= heights[row][col] {
          return false;
        }
      }
      return true;
    }

    method IsVisibleRight(row: nat, col: nat) returns (b: bool)
      requires Rectangular(heights) && InGrid(heights, row, col)
      ensures b <==> VisibleRight(heights, row, col)
    {
      for i := col + 1 to |heights[row]|
        invariant forall k | col < k < i :: heights[row][k] < heights[row][col]
      {
        if heights[row][i] >= heights[row][col] {
          return false;
        }
      }
      return true;
    }

    method IsVisibleTop(row: nat, col: nat) returns (b: bool)
      requires Rectangular(heights) && InGrid(heights, row, col)
      ensures b <==> VisibleTop(heights, row, col)
    {
      for j := 0 to row
        invariant forall k | 0 <= k < j :: heights[k][col] < heights[row][col]
      {
        if heights[j][col] >= heights[row][col] {
          return false;
        }
      }
      return true;
    }

    method IsVisibleBottom(row: nat, col: nat) returns (b: bool)
      requires Rectangular(heights) && InGrid(heights, row, col)
      ensures b <==> VisibleBottom(heights, row, col)
    {
      for j := row + 1 to |heights|
        invariant forall k | row < k < j :: heights[k][col] < heights[row][col]
      {
        if heights[j][col] >= heights[row][col] {
          return false;
        }
      }
      return true;
    }

    method ViewingDistanceLeft(row: nat, col: nat) returns (d: nat)
      requires Rectangular(heights) && InGrid(heights, row, col)
      ensures d == ViewLeft(heights, row, col)
    {
      var i := col - 1;
      while i >= 0
        invariant -1 <= i < col
        invariant ScanLeft(heights, row, col, i) == ViewLeft(heights, row, col)
        decreases i + 1
      {
        if heights[row][i] >= heights[row][col] {
          return col - i;
        }
        i := i - 1;
      }
      return col;
    }

    method ViewingDistanceRight(row: nat, col: nat) returns (d: nat)
      requires Rectangular(heights) && InGrid(heights, row, col)
      ensures d == ViewRight(heights, row, col)
    {
      for i := col + 1 to |heights[row]|
        invariant ScanRight(heights, row, col, i) == ViewRight(heights, row, col)
      {
        if heights[row][i] >= heights[row][col] {
          return i - col;
        }
      }
      return |heights[0]| - col - 1;
    }

    method ViewingDistanceUp(row: nat, col: nat) returns (d: nat)
      requires Rectangular(heights) && InGrid(heights, row, col)
      ensures d == ViewUp(heights, row, col)
    {
      var i := row - 1;
      while i >= 0
        invariant -1 <= i < row
        invariant ScanUp(heights, row, col, i) == ViewUp(heights, row, col)
        decreases i + 1
      {
        if heights[i][col] >= heights[row][col] {
          return row - i;
        }
        i := i - 1;
      }
      return row;
    }

    method ViewingDistanceDown(row: nat, col: nat) returns (d: nat)
      requires Rectangular(heights) && InGrid(heights, row, col)
      ensures d == ViewDown(heights, row, col)
    {
      for i := row + 1 to |heights|
        invariant ScanDown(heights, row, col, i) == ViewDown(heights, row, col)
      {
        if heights[i][col] >= heights[row][col] {
          return i - row;
        }
      }
      return |heights| - row - 1;
    }
  }
}
