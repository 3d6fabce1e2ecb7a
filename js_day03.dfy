/**
 * Toboggan Trajectory (2020, day 3): slide down a map of open squares '.'
 * and trees '#', moving dx columns right and dy rows down each step, the
 * map repeating to the right; count the trees hit.
 */
module TobogganTrajectory {
  import opened Common

  /** JavaScript's `%` on a positive modulus: it truncates, so the remainder takes the dividend's sign. */
  function JsRem(a: int, m: int): (r: int)
    requires m > 0
    ensures -m < r < m && (a >= 0 ==> r == a % m)
  {
    if a >= 0 then a % m else -((-a) % m)
  }

  /**
   * The column of the k-th visited square. The step `(col + dx) % width`
   * with a width of 0 gives NaN, written None, and NaN stays NaN.
   */
  function Column(dx: int, width: nat, k: nat): Option<int>
  {
    if k == 0 then Some(0)
    else match Column(dx, width, k - 1)
      case None => None
      case Some(c) => if width == 0 then None else Some(JsRem(c + dx, width))
  }

  /** The width the source wraps by: that of the first row. */
  function Width(slope: seq<string>): nat
  {
    if slope == [] then 0 else |slope[0]|
  }

  /** Square (row, col) exists and holds a tree; a missing column reads `undefined`, which is no tree. */
  predicate TreeAt(slope: seq<string>, row: nat, col: Option<int>)
  {
    row < |slope| && col.Some? && 0 <= col.value < |slope[row]| && slope[row][col.value] == '#'
  }

  /** The number of visits: rows 0, dy, 2dy, … below the map's height, i.e. ceil(rows / dy). */
  function Visits(rows: nat, dy: nat): nat
    requires dy >= 1
  {
    (rows + dy - 1) / dy
  }

  /** Visit k lands on the map exactly when k is below the number of visits. */
  lemma VisitOnMap(rows: nat, dy: nat, k: nat)
    requires dy >= 1
    ensures k < Visits(rows, dy) <==> k * dy < rows
  {
    var v := Visits(rows, dy);
    var rem := (rows + dy - 1) % dy;
    assert rows + dy - 1 == v * dy + rem;
    if k < v {
      MulMonotone(v - 1, k, dy);
    } else {
      MulMonotone(k, v, dy);
    }
  }

  /** The trees among the first n visits; at most one per visit. */
  function TreesAmong(slope: seq<string>, dx: int, dy: nat, n: nat): (r: nat)
    ensures r <= n
  {
    if n == 0 then 0
    else TreesAmong(slope, dx, dy, n - 1) + (if Hit(slope, dx, dy, n - 1) then 1 else 0)
  }

  /** Visit k, at row k·dy, lands on a tree. */
  predicate Hit(slope: seq<string>, dx: int, dy: nat, k: nat)
  {
    TreeAt(slope, k * dy, Column(dx, Width(slope), k))
  }

  /**
   * `countTrees`: the loop visits rows 0, dy, 2dy, … while on the map and
   * counts the trees it lands on. The result is at most ceil(rows / dy),
   * and an empty map gives 0.
   */
  method CountTrees(slope: seq<string>, dx: int, dy: nat) returns (count: nat)
    requires dy >= 1
    ensures count == TreesAmong(slope, dx, dy, Visits(|slope|, dy))
    ensures count <= Visits(|slope|, dy)
    ensures slope == [] ==> count == 0
  {
    count := 0;
    var row := 0;
    var col: Option<int> := Some(0);
    ghost var k := 0;
    while row < |slope|
      invariant row == k * dy && col == Column(dx, Width(slope), k)
      invariant k == 0 || (k - 1) * dy < |slope|
      invariant count == TreesAmong(slope, dx, dy, k)
      decreases |slope| - row
    {
      if col.Some? && 0 <= col.value < |slope[row]| && slope[row][col.value] == '#' {
        count := count + 1;
      }
      row := row + dy;
      col := if col.None? || |slope[0]| == 0 then None else Some(JsRem(col.value + dx, |slope[0]|));
      k := k + 1;
    }
    if k > 0 {
      VisitOnMap(|slope|, dy, k - 1);
    }
    VisitOnMap(|slope|, dy, k);
  }

  /** Adding to a number before reducing it by m is the same as adding to its remainder. */
  lemma ModAddLeft(a: nat, b: nat, m: nat)
    requires m > 0
    ensures (a % m + b) % m == (a + b) % m
  {
    assert a + b == (a / m) * m + (a % m + b);
    ModAddMultiple(a % m + b, a / m, m);
  }

  /** Moving right (dx ≥ 0) on a map of positive width, visit k is at column k·dx mod width. */
  lemma {:induction false} ColumnClosedForm(dx: nat, width: nat, k: nat)
    requires width > 0
    ensures Column(dx, width, k) == Some((k * dx) % width)
  {
    if k > 0 {
      ColumnClosedForm(dx, width, k - 1);
      ModAddLeft((k - 1) * dx, dx, width);
      assert (k - 1) * dx + dx == k * dx;
    }
  }

  /** The trees counted are exactly the visits that land on '#'. */
  lemma {:induction false} TreesAmongCounts(slope: seq<string>, dx: int, dy: nat, n: nat)
    ensures TreesAmong(slope, dx, dy, n) == |set k | 0 <= k < n && Hit(slope, dx, dy, k)|
  {
    var s := set k | 0 <= k < n && Hit(slope, dx, dy, k);
    if n > 0 {
      TreesAmongCounts(slope, dx, dy, n - 1);
      var s' := set k | 0 <= k < n - 1 && Hit(slope, dx, dy, k);
      if Hit(slope, dx, dy, n - 1) {
        assert s == s' + {n - 1};
      } else {
        assert s == s';
      }
    } else {
      assert s == {};
    }
  }
}
