/**
 * Point of Incidence (2023, day 13): a pattern of ash and rocks has a line of
 * reflection between two rows or two columns; in the second part the line
 * is the one across which exactly one character (the smudge) differs.
 */
module PointOfIncidence {
  import opened Common

  /** All rows have the same length. */
  predicate Rectangular(rows: seq<string>)
  {
    forall r | 0 <= r < |rows| :: |rows[r]| == |rows[0]|
  }

  /** `_colMap`: column c of the pattern read top to bottom, for each column of the first row. */
  function Transpose(rows: seq<string>): (cols: seq<string>)
    requires rows != [] && Rectangular(rows)
    ensures |cols| == |rows[0]|
    ensures forall c | 0 <= c < |cols| :: |cols[c]| == |rows|
    ensures forall c, r | 0 <= c < |cols| && 0 <= r < |rows| :: cols[c][r] == rows[r][c]
  {
    seq(|rows[0]|, c requires 0 <= c < |rows[0]| => seq(|rows|, r requires 0 <= r < |rows| => rows[r][c]))
  }

  /** Reading the columns as rows gives the pattern back. */
  lemma TransposeTwice(rows: seq<string>)
    requires rows != [] && Rectangular(rows) && rows[0] != []
    ensures Rectangular(Transpose(rows)) && Transpose(Transpose(rows)) == rows
  {
    var cols := Transpose(rows);
    var back := Transpose(cols);
    assert |back| == |rows|;
    forall r | 0 <= r < |rows|
      ensures back[r] == rows[r]
    {
      assert |back[r]| == |rows[r]|;
    }
  }

  /** The pattern as `Pattern` stores it: its rows and its columns. */
  datatype Pattern = Pattern(rowMap: seq<string>, colMap: seq<string>)

  /** The constructor: the rows joined and the columns read off the first row's width. */
  function NewPattern(mirrorMap: seq<string>): (p: Pattern)
    requires mirrorMap != [] && Rectangular(mirrorMap)
    ensures p.rowMap == mirrorMap && p.colMap == Transpose(mirrorMap)
  {
    Pattern(mirrorMap, Transpose(mirrorMap))
  }

  /** How many reflected pairs (line − t, line + 1 + t) lie inside the map. */
  function NumPairs(size: nat, line: nat): (n: nat)
    ensures n == 0 || (n <= line + 1 && line + n < size)
  {
    if line + 1 >= size then 0 else Min(line + 1, size - line - 1)
  }

  /** Rows line − t and line + 1 + t exist and are equal. */
  predicate PairMatches(grid: seq<string>, line: nat, t: nat)
  {
    t <= line && line + 1 + t < |grid| && grid[line - t] == grid[line + 1 + t]
  }

  /** `_isMirrorLine`: every reflected pair inside the map is equal. */
  predicate Mirror(grid: seq<string>, line: nat)
  {
    forall t | 0 <= t < NumPairs(|grid|, line) :: PairMatches(grid, line, t)
  }

  method IsMirrorLine(grid: seq<string>, line: nat) returns (b: bool)
    ensures b <==> Mirror(grid, line)
  {
    var i: int, j := line, line + 1;
    ghost var t := 0;
    while i >= 0 && j < |grid|
      invariant 0 <= t <= NumPairs(|grid|, line) && i == line - t && j == line + 1 + t
      invariant forall u | 0 <= u < t :: PairMatches(grid, line, u)
      decreases |grid| - j
    {
      if grid[i] != grid[j] {
        assert !PairMatches(grid, line, t);
        return false;
      }
      i, j, t := i - 1, j + 1, t + 1;
    }
    return true;
  }

  /** The characters among the first n of a that differ from b's (a position b lacks counts as different). */
  function DiffPrefix(a: string, b: string, n: nat): (d: nat)
    requires n <= |a|
    ensures d <= n
  {
    if n == 0 then 0 else DiffPrefix(a, b, n - 1) + (if n - 1 >= |b| || a[n - 1] != b[n - 1] then 1 else 0)
  }

  /** The smudges between two rows. */
  function PairDiff(a: string, b: string): nat
  {
    DiffPrefix(a, b, |a|)
  }

  /** The differing characters over the first t reflected pairs. */
  function SmudgesUpTo(grid: seq<string>, line: nat, t: nat): nat
    requires t <= NumPairs(|grid|, line)
  {
    if t == 0 then 0 else SmudgesUpTo(grid, line, t - 1) + PairDiff(grid[line - (t - 1)], grid[line + t])
  }

  /** The differing characters over all reflected pairs. */
  function Smudges(grid: seq<string>, line: nat): nat
  {
    SmudgesUpTo(grid, line, NumPairs(|grid|, line))
  }

  lemma {:induction false} SmudgesUpToMonotone(grid: seq<string>, line: nat, t: nat, u: nat)
    requires t <= u <= NumPairs(|grid|, line)
    ensures SmudgesUpTo(grid, line, t) <= SmudgesUpTo(grid, line, u)
  {
    if t < u {
      SmudgesUpToMonotone(grid, line, t, u - 1);
    }
  }

  lemma {:induction false} DiffPrefixMonotone(a: string, b: string, n: nat, m: nat)
    requires n <= m <= |a|
    ensures DiffPrefix(a, b, n) <= DiffPrefix(a, b, m)
  {
    if n < m {
      DiffPrefixMonotone(a, b, n, m - 1);
    }
  }

  /**
   * `_hasOneSmudge`: walks the reflected pairs character by character and
   * fails at the second difference; true when exactly one was found.
   */
  method HasOneSmudge(grid: seq<string>, line: nat) returns (b: bool)
    ensures b <==> Smudges(grid, line) == 1
  {
    var smudgeFound := false;
    var i: int, j := line, line + 1;
    ghost var t := 0;
    while i >= 0 && j < |grid|
      invariant 0 <= t <= NumPairs(|grid|, line) && i == line - t && j == line + 1 + t
      invariant SmudgesUpTo(grid, line, t) <= 1
      invariant smudgeFound <==> SmudgesUpTo(grid, line, t) == 1
      decreases |grid| - j
    {
      ghost var before := SmudgesUpTo(grid, line, t);
      for k := 0 to |grid[i]|
        invariant before + DiffPrefix(grid[i], grid[j], k) <= 1
        invariant smudgeFound <==> before + DiffPrefix(grid[i], grid[j], k) == 1
      {
        if k >= |grid[j]| || grid[i][k] != grid[j][k] {
          if smudgeFound {
            DiffPrefixMonotone(grid[i], grid[j], k + 1, |grid[i]|);
            SmudgesUpToMonotone(grid, line, t + 1, NumPairs(|grid|, line));
            return false;
          }
          smudgeFound := true;
        }
      }
      i, j, t := i - 1, j + 1, t + 1;
    }
    return smudgeFound;
  }

  /** A rectangular grid mirrors at a line exactly when it has no smudge there. */
  lemma MirrorIffNoSmudge(grid: seq<string>, line: nat)
    requires Rectangular(grid)
    ensures Mirror(grid, line) <==> Smudges(grid, line) == 0
  {
    MirrorUpTo(grid, line, NumPairs(|grid|, line));
  }

  lemma {:induction false} MirrorUpTo(grid: seq<string>, line: nat, t: nat)
    requires Rectangular(grid) && t <= NumPairs(|grid|, line)
    ensures (forall u | 0 <= u < t :: PairMatches(grid, line, u)) <==> SmudgesUpTo(grid, line, t) == 0
  {
    if t > 0 {
      MirrorUpTo(grid, line, t - 1);
      var a, b := grid[line - (t - 1)], grid[line + t];
      PairDiffZero(a, b, |a|);
      assert PairMatches(grid, line, t - 1) <==> a == b;
      assert (forall u | 0 <= u < t :: PairMatches(grid, line, u)) <==>
        (forall u | 0 <= u < t - 1 :: PairMatches(grid, line, u)) && PairMatches(grid, line, t - 1);
    }
  }

  lemma {:induction false} PairDiffZero(a: string, b: string, n: nat)
    requires |a| == |b| && n <= |a|
    ensures DiffPrefix(a, b, n) == 0 <==> a[..n] == b[..n]
  {
    if n > 0 {
      PairDiffZero(a, b, n - 1);
      assert a[..n] == a[..n - 1] + [a[n - 1]];
      assert b[..n] == b[..n - 1] + [b[n - 1]];
      if a[..n] == b[..n] {
        assert a[..n - 1] == a[..n][..n - 1];
        assert b[..n - 1] == b[..n][..n - 1];
      }
    } else {
      assert a[..0] == b[..0];
    }
    if n == |a| {
      assert a[..n] == a && b[..n] == b;
    }
  }

  /** The line the search looks for: a mirror, or a line with exactly one smudge. */
  predicate Reflects(grid: seq<string>, line: nat, lookForSmudge: bool)
  {
    if lookForSmudge then Smudges(grid, line) == 1 else Mirror(grid, line)
  }

  /** One past the first line from i on that reflects, or 0 when none does. */
  function FirstLine(grid: seq<string>, lookForSmudge: bool, i: nat): (r: nat)
    ensures r == 0 <==> forall l | i <= l < |grid| - 1 :: !Reflects(grid, l, lookForSmudge)
    ensures r > 0 ==> (i < r < |grid| && Reflects(grid, r - 1, lookForSmudge) &&
      forall l | i <= l < r - 1 :: !Reflects(grid, l, lookForSmudge))
    decreases |grid| - i
  {
    if i + 1 >= |grid| then 0
    else if Reflects(grid, i, lookForSmudge) then i + 1
    else FirstLine(grid, lookForSmudge, i + 1)
  }

  /** `_findMirrorLine` and `_findSmudgeLine`: i + 1 for the first line i that reflects, else 0. */
  method FindLine(grid: seq<string>, lookForSmudge: bool) returns (r: nat)
    ensures r == FirstLine(grid, lookForSmudge, 0)
  {
    var i := 0;
    while i + 1 < |grid|
      invariant FirstLine(grid, lookForSmudge, i) == FirstLine(grid, lookForSmudge, 0)
    {
      var found;
      if lookForSmudge {
        found := HasOneSmudge(grid, i);
      } else {
        found := IsMirrorLine(grid, i);
      }
      if found {
        return i + 1;
      }
      i := i + 1;
    }
    return 0;
  }

  /** The summary the two parts expect: the column line when there is one, otherwise 100 times the row line. */
  function Score(p: Pattern, lookForSmudge: bool): nat
  {
    var colLine := FirstLine(p.colMap, lookForSmudge, 0);
    if colLine > 0 then colLine else 100 * FirstLine(p.rowMap, lookForSmudge, 0)
  }

  /** `summary`. */
  method Summary(p: Pattern, lookForSmudge: bool) returns (r: nat)
    ensures r == Score(p, lookForSmudge)
  {
    var colLine := FindLine(p.colMap, lookForSmudge);
    var rowLine := FindLine(p.rowMap, lookForSmudge);
    return if colLine > 0 then colLine else 100 * rowLine;
  }

  /** Characters line − t and line + 1 + t of a row exist and are equal. */
  predicate CharsMatch(row: string, line: nat, t: nat)
  {
    t <= line && line + 1 + t < |row| && row[line - t] == row[line + 1 + t]
  }

  /** A column of the map is a mirror line exactly when every row reads the same reflected about it. */
  lemma ColumnMirror(rows: seq<string>, line: nat)
    requires rows != [] && Rectangular(rows)
    ensures Mirror(Transpose(rows), line) <==>
      forall r, t | 0 <= r < |rows| && 0 <= t < NumPairs(|rows[0]|, line) :: CharsMatch(rows[r], line, t)
  {
    var cols := Transpose(rows);
    var n := NumPairs(|rows[0]|, line);
    if Mirror(cols, line) {
      forall r, t | 0 <= r < |rows| && 0 <= t < n
        ensures CharsMatch(rows[r], line, t)
      {
        assert PairMatches(cols, line, t);
        assert cols[line - t][r] == cols[line + 1 + t][r];
      }
    }
    if forall r, t | 0 <= r < |rows| && 0 <= t < n :: CharsMatch(rows[r], line, t) {
      forall t | 0 <= t < n
        ensures PairMatches(cols, line, t)
      {
        var a, b := cols[line - t], cols[line + 1 + t];
        forall r | 0 <= r < |rows|
          ensures a[r] == b[r]
        {
          assert CharsMatch(rows[r], line, t);
        }
      }
    }
  }
}
