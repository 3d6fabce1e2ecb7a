/**
 * Sea cucumber (2021, day 25): on a floor that wraps around at its edges,
 * first every '>' whose east cell is empty moves east, all at once, then
 * every 'v' whose south cell is empty after that moves south. The answer
 * is the first step after which nothing has moved.
 */
module SeaCucumber {
  import opened Common

  type Grid = seq<seq<char>>

  /** A floor as the source reads it: at least one row, every row as wide as the first. */
  predicate Rectangular(g: Grid)
  {
    |g| > 0 && forall r | 0 <= r < |g| :: |g[r]| == |g[0]|
  }

  /** The wrapped successor `(i + 1) % n`. */
  function Next(i: nat, n: nat): (r: nat)
    requires i < n
    ensures r == (i + 1) % n
  {
    if i + 1 == n then 0 else i + 1
  }

  /** The wrapped predecessor: the index whose successor is i. */
  function Prev(i: nat, n: nat): (r: nat)
    requires i < n
    ensures r < n && Next(r, n) == i
  {
    if i == 0 then n - 1 else i - 1
  }

  lemma PrevNext(i: nat, n: nat)
    requires i < n
    ensures Prev(Next(i, n), n) == i
  {
  }

  /** The cell of a row after the east phase: a '>' leaves for an empty east cell, which it fills. */
  function EastCell(line: seq<char>, c: nat): char
    requires c < |line|
  {
    var w := |line|;
    if line[c] == '>' && line[Next(c, w)] == '.' then '.'
    else if line[c] == '.' && line[Prev(c, w)] == '>' then '>'
    else line[c]
  }

  function EastLine(line: seq<char>): (r: seq<char>)
    ensures |r| == |line|
  {
    seq(|line|, c requires 0 <= c < |line| => EastCell(line, c))
  }

  /** Every row after the east phase. */
  function EastPhase(g: Grid): (r: Grid)
    ensures |r| == |g| && forall i | 0 <= i < |g| :: r[i] == EastLine(g[i])
    decreases |g|
  {
    if g == [] then [] else EastPhase(g[..|g| - 1]) + [EastLine(g[|g| - 1])]
  }

  /** The cell after the south phase: a 'v' leaves for an empty south cell, which it fills. */
  function SouthCell(g: Grid, r: nat, c: nat): char
    requires Rectangular(g) && r < |g| && c < |g[0]|
  {
    var h := |g|;
    if g[r][c] == 'v' && g[Next(r, h)][c] == '.' then '.'
    else if g[r][c] == '.' && g[Prev(r, h)][c] == 'v' then 'v'
    else g[r][c]
  }

  function SouthRow(g: Grid, r: nat): (row: seq<char>)
    requires Rectangular(g) && r < |g|
    ensures |row| == |g[0]|
  {
    seq(|g[0]|, c requires 0 <= c < |g[0]| => SouthCell(g, r, c))
  }

  /** The first n rows after the south phase. */
  function SouthRows(g: Grid, n: nat): (s: Grid)
    requires Rectangular(g) && n <= |g|
    ensures |s| == n && forall r | 0 <= r < n :: s[r] == SouthRow(g, r)
  {
    if n == 0 then [] else SouthRows(g, n - 1) + [SouthRow(g, n - 1)]
  }

  function SouthPhase(g: Grid): (s: Grid)
    requires Rectangular(g)
    ensures Rectangular(s) && |s| == |g| && |s[0]| == |g[0]|
  {
    SouthRows(g, |g|)
  }

  /** One step: the east-facing herd moves first, then the south-facing herd on the result. */
  function StepGrid(g: Grid): (s: Grid)
    ensures Rectangular(g) ==> Rectangular(s) && |s| == |g| && |s[0]| == |g[0]|
  {
    if Rectangular(g) then SouthPhase(EastPhase(g)) else g
  }

  /** Every cell of the floor, counted with multiplicity. */
  function Cells(g: Grid): multiset<char>
    decreases |g|
  {
    if g == [] then multiset{} else Cells(g[..|g| - 1]) + multiset(g[|g| - 1])
  }

  lemma {:induction false} CellsReplaceRow(g: Grid, r: nat, row: seq<char>)
    requires r < |g|
    ensures Cells(g[r := row]) + multiset(g[r]) == Cells(g) + multiset(row)
    decreases |g|
  {
    var last, g' := |g| - 1, g[r := row];
    assert Cells(g') == Cells(g'[..last]) + multiset(g'[last]);
    assert Cells(g) == Cells(g[..last]) + multiset(g[last]);
    if r < last {
      CellsReplaceRow(g[..last], r, row);
      assert g'[..last] == g[..last][r := row];
      assert g'[last] == g[last];
      forall ch
        ensures (Cells(g') + multiset(g[r]))[ch] == (Cells(g) + multiset(row))[ch]
      {
        assert (Cells(g'[..last]) + multiset(g[r]))[ch] == (Cells(g[..last]) + multiset(row))[ch];
      }
    } else {
      assert g'[..last] == g[..last];
    }
  }

  /** Writing x into a row with v in place, and then v back into another place that held x, keeps its characters. */
  lemma SwapKeepsMultiset(s: seq<char>, i: nat, j: nat, x: char, v: char)
    requires i < |s| && j < |s| && s[i] == v && s[j] == x
    ensures multiset(s[i := x][j := v]) == multiset(s)
  {
    var s1 := s[i := x];
    assert multiset(s1) == multiset(s) - multiset{v} + multiset{x};
    if i == j {
      assert s1[j := v] == s;
    } else {
      assert s1[j] == x;
      assert multiset(s1[j := v]) == multiset(s1) - multiset{x} + multiset{v};
    }
  }

  /**
   * The row after the columns before `col` have been handled by the east
   * loop: each move that has happened is a swap of a '>' with the empty
   * cell east of it.
   */
  function PartialEast(line: seq<char>, col: nat, j: nat): char
    requires j < |line|
  {
    var w := |line|;
    if line[j] == '.' && line[Prev(j, w)] == '>' && Prev(j, w) < col then '>'
    else if line[j] == '>' && line[Next(j, w)] == '.' && j < col then '.'
    else line[j]
  }

  /** The east loop of `step` over one row, writing into a copy of it. */
  method MoveEast(line: seq<char>) returns (moved: seq<char>)
    ensures moved == EastLine(line)
    ensures multiset(moved) == multiset(line)
  {
    var w := |line|;
    moved := line;
    for col := 0 to w
      invariant |moved| == w
      invariant forall j | 0 <= j < w :: moved[j] == PartialEast(line, col, j)
      invariant multiset(moved) == multiset(line)
    {
      var next := (col + 1) % w;
      if line[col] == '>' && line[next] == '.' {
        EastMove(line, col, moved, moved[next := '>'][col := '.']);
        SwapKeepsMultiset(moved, next, col, '>', '.');
        moved := moved[next := '>'];
        moved := moved[col := '.'];
      } else {
        EastStay(line, col, moved);
      }
    }
  }

  /** Handling column col of the east loop keeps the row as PartialEast describes it when the cell stays. */
  lemma EastStay(line: seq<char>, col: nat, moved: seq<char>)
    requires col < |line| == |moved|
    requires forall j | 0 <= j < |line| :: moved[j] == PartialEast(line, col, j)
    requires !(line[col] == '>' && line[Next(col, |line|)] == '.')
    ensures forall j | 0 <= j < |line| :: moved[j] == PartialEast(line, col + 1, j)
  {
    var w := |line|;
    forall j | 0 <= j < w
      ensures PartialEast(line, col + 1, j) == PartialEast(line, col, j)
    {
      if Prev(j, w) == col {
        assert Next(col, w) == j;
      }
    }
  }

  /** Handling column col of the east loop when its '>' moves: two cells swap, as PartialEast describes. */
  lemma EastMove(line: seq<char>, col: nat, moved: seq<char>, moved': seq<char>)
    requires col < |line| == |moved|
    requires forall j | 0 <= j < |line| :: moved[j] == PartialEast(line, col, j)
    requires line[col] == '>' && line[Next(col, |line|)] == '.'
    requires moved' == moved[Next(col, |line|) := '>'][col := '.']
    ensures moved[col] == '>' && moved[Next(col, |line|)] == '.'
    ensures forall j | 0 <= j < |line| :: moved'[j] == PartialEast(line, col + 1, j)
  {
    var w, next := |line|, Next(col, |line|);
    PrevNext(col, w);
    assert moved[col] == '>';
    assert moved[next] == '.';
    forall j | 0 <= j < w
      ensures moved'[j] == PartialEast(line, col + 1, j)
    {
      if j != col && j != next {
        assert Prev(j, w) != col;
      }
    }
  }

  /** The east phase of `step`: a copy of the floor with every row moved east. */
  method StepEast(floor: Grid) returns (east: Grid)
    requires Rectangular(floor)
    ensures east == EastPhase(floor)
    ensures Cells(east) == Cells(floor)
  {
    east := floor;
    for row := 0 to |floor|
      invariant |east| == |floor|
      invariant forall r | 0 <= r < row :: east[r] == EastLine(floor[r])
      invariant forall r | row <= r < |floor| :: east[r] == floor[r]
      invariant Cells(east) == Cells(floor)
    {
      var moved := MoveEast(floor[row]);
      CellsReplaceRow(east, row, moved);
      MultisetCancel(Cells(east[row := moved]), Cells(floor), multiset(moved));
      east := east[row := moved];
    }
  }

  /** Whether the south loop has already handled cell (r, c) when it is at (row, col). */
  predicate Before(r: nat, c: nat, row: nat, col: nat)
  {
    r < row || (r == row && c < col)
  }

  /** The floor after the cells before (row, col) have been handled by the south loop. */
  function PartialSouth(g: Grid, row: nat, col: nat, r: nat, c: nat): char
    requires Rectangular(g) && r < |g| && c < |g[0]|
  {
    var h := |g|;
    if g[r][c] == '.' && g[Prev(r, h)][c] == 'v' && Before(Prev(r, h), c, row, col) then 'v'
    else if g[r][c] == 'v' && g[Next(r, h)][c] == '.' && Before(r, c, row, col) then '.'
    else g[r][c]
  }

  predicate SouthSoFar(g: Grid, south: Grid, row: nat, col: nat)
    requires Rectangular(g)
  {
    |south| == |g| && (forall r | 0 <= r < |g| :: |south[r]| == |g[0]|) &&
    forall r, c | 0 <= r < |g| && 0 <= c < |g[0]| :: south[r][c] == PartialSouth(g, row, col, r, c)
  }

  /** Writes one cell of the floor. */
  function SetCell(g: Grid, r: nat, c: nat, x: char): (s: Grid)
    requires r < |g| && c < |g[r]|
    ensures Cells(s) + multiset{g[r][c]} == Cells(g) + multiset{x}
  {
    SetCellCells(g, r, c, x);
    g[r := g[r][c := x]]
  }

  lemma SetCellCells(g: Grid, r: nat, c: nat, x: char)
    requires r < |g| && c < |g[r]|
    ensures Cells(g[r := g[r][c := x]]) + multiset{g[r][c]} == Cells(g) + multiset{x}
  {
    var row := g[r][c := x];
    CellsReplaceRow(g, r, row);
    assert multiset(row) == multiset(g[r]) - multiset{g[r][c]} + multiset{x};
    assert g[r][c] in multiset(g[r]);
    forall ch
      ensures (Cells(g[r := row]) + multiset{g[r][c]})[ch] == (Cells(g) + multiset{x})[ch]
    {
      assert (Cells(g[r := row]) + multiset(g[r]))[ch] == (Cells(g) + multiset(row))[ch];
    }
  }

  /** The inner south loop over one row of the floor. */
  method MoveSouthRow(east: Grid, south: Grid, row: nat) returns (south': Grid)
    requires Rectangular(east) && row < |east|
    requires SouthSoFar(east, south, row, 0)
    requires Cells(south) == Cells(east)
    ensures SouthSoFar(east, south', row + 1, 0)
    ensures Cells(south') == Cells(east)
  {
    var h, w := |east|, |east[0]|;
    south' := south;
    for col := 0 to w
      invariant SouthSoFar(east, south', row, col)
      invariant Cells(south') == Cells(east)
    {
      var below := (row + 1) % h;
      SouthAdvance(east, south', row, col);
      if east[row][col] == 'v' && east[below][col] == '.' {
        var s1 := SetCell(south', below, col, 'v');
        var s2 := SetCell(s1, row, col, '.');
        MultisetCancel(Cells(s2), Cells(south'), multiset{'v'});
        south' := s2;
      }
    }
    SouthRowDone(east, south', row);
  }

  /** Handling cell (row, col) of the south loop keeps the floor as PartialSouth describes it. */
  lemma SouthAdvance(g: Grid, south: Grid, row: nat, col: nat)
    requires Rectangular(g) && row < |g| && col < |g[0]|
    requires SouthSoFar(g, south, row, col)
    ensures var below := Next(row, |g|);
      if g[row][col] == 'v' && g[below][col] == '.' then
        south[row][col] == 'v' && south[below][col] == '.' &&
        SouthSoFar(g, SetCell(SetCell(south, below, col, 'v'), row, col, '.'), row, col + 1)
      else
        SouthSoFar(g, south, row, col + 1)
  {
    var below := Next(row, |g|);
    if g[row][col] == 'v' && g[below][col] == '.' {
      var s1 := south[below := south[below][col := 'v']];
      SouthMoves(g, south, s1[row := s1[row][col := '.']], row, col);
    } else {
      SouthStays(g, south, row, col);
    }
  }

  lemma SouthStays(g: Grid, south: Grid, row: nat, col: nat)
    requires Rectangular(g) && row < |g| && col < |g[0]|
    requires SouthSoFar(g, south, row, col)
    requires !(g[row][col] == 'v' && g[Next(row, |g|)][col] == '.')
    ensures SouthSoFar(g, south, row, col + 1)
  {
    var h := |g|;
    PrevNext(row, h);
    forall r, c | 0 <= r < h && 0 <= c < |g[0]|
      ensures south[r][c] == PartialSouth(g, row, col + 1, r, c)
    {
      if c != col || (r != row && r != Next(row, h)) {
        assert Prev(r, h) != row || c != col;
      }
    }
  }

  lemma SouthMoves(g: Grid, south: Grid, south': Grid, row: nat, col: nat)
    requires Rectangular(g) && row < |g| && col < |g[0]|
    requires SouthSoFar(g, south, row, col)
    requires g[row][col] == 'v' && g[Next(row, |g|)][col] == '.'
    requires var s1 := south[Next(row, |g|) := south[Next(row, |g|)][col := 'v']];
      south' == s1[row := s1[row][col := '.']]
    ensures south[row][col] == 'v' && south[Next(row, |g|)][col] == '.'
    ensures SouthSoFar(g, south', row, col + 1)
  {
    var h, below := |g|, Next(row, |g|);
    PrevNext(row, h);
    forall r, c | 0 <= r < h && 0 <= c < |g[0]|
      ensures south'[r][c] == PartialSouth(g, row, col + 1, r, c)
    {
      if c != col || (r != row && r != below) {
        assert Prev(r, h) != row || c != col;
      }
    }
  }

  lemma SouthRowDone(g: Grid, south: Grid, row: nat)
    requires Rectangular(g) && row < |g|
    requires SouthSoFar(g, south, row, |g[0]|)
    ensures SouthSoFar(g, south, row + 1, 0)
  {
    forall r, c | 0 <= r < |g| && 0 <= c < |g[0]|
      ensures PartialSouth(g, row, |g[0]|, r, c) == PartialSouth(g, row + 1, 0, r, c)
    {
      assert Before(r, c, row, |g[0]|) == Before(r, c, row + 1, 0);
      var p := Prev(r, |g|);
      assert Before(p, c, row, |g[0]|) == Before(p, c, row + 1, 0);
    }
  }

  lemma SouthDone(g: Grid, south: Grid)
    requires Rectangular(g)
    requires SouthSoFar(g, south, |g|, 0)
    ensures south == SouthPhase(g)
  {
    forall r | 0 <= r < |g|
      ensures south[r] == SouthPhase(g)[r]
    {
      forall c | 0 <= c < |g[0]|
        ensures south[r][c] == SouthCell(g, r, c)
      {
        assert Before(Prev(r, |g|), c, |g|, 0) && Before(r, c, |g|, 0);
      }
    }
  }

  /** The south phase of `step`: a copy of the east-phase floor with the south moves made. */
  method StepSouth(east: Grid) returns (south: Grid)
    requires Rectangular(east)
    ensures south == SouthPhase(east)
    ensures Cells(south) == Cells(east)
  {
    south := east;
    for row := 0 to |east|
      invariant SouthSoFar(east, south, row, 0)
      invariant Cells(south) == Cells(east)
    {
      south := MoveSouthRow(east, south, row);
    }
    SouthDone(east, south);
  }

  /** `step`: a new floor one step on; the argument itself is a value and is left as it was. */
  method Step(floor: Grid) returns (next: Grid)
    requires Rectangular(floor)
    ensures next == StepGrid(floor)
    ensures Cells(next) == Cells(floor)
  {
    var east := StepEast(floor);
    next := StepSouth(east);
  }

  /** One pass of the `findFinalState` loop: the next floor, and `isSame` of it and the current one. */
  method StepAndCompare(floor: Grid) returns (next: Grid, same: bool)
    requires Rectangular(floor)
    ensures next == StepGrid(floor)
    ensures same <==> next == floor
  {
    next := Step(floor);
    same := floor == next;
  }

  /** Some '>' has an empty cell east of it, or some 'v' an empty cell south of it. */
  predicate CanMove(g: Grid)
    requires Rectangular(g)
  {
    (exists r, c | 0 <= r < |g| && 0 <= c < |g[0]| :: g[r][c] == '>' && g[r][Next(c, |g[0]|)] == '.') ||
    (exists r, c | 0 <= r < |g| && 0 <= c < |g[0]| :: g[r][c] == 'v' && g[Next(r, |g|)][c] == '.')
  }

  lemma QuietEastLine(line: seq<char>)
    requires forall c | 0 <= c < |line| :: !(line[c] == '>' && line[Next(c, |line|)] == '.')
    ensures EastLine(line) == line
  {
    forall c | 0 <= c < |line|
      ensures EastCell(line, c) == line[c]
    {
      var p := Prev(c, |line|);
      assert !(line[p] == '>' && line[Next(p, |line|)] == '.');
    }
  }

  lemma QuietEast(g: Grid)
    requires Rectangular(g)
    requires forall r, c | 0 <= r < |g| && 0 <= c < |g[0]| :: !(g[r][c] == '>' && g[r][Next(c, |g[0]|)] == '.')
    ensures EastPhase(g) == g
  {
    forall r | 0 <= r < |g|
      ensures EastLine(g[r]) == g[r]
    {
      QuietEastLine(g[r]);
    }
  }

  lemma EastMoveUnsettles(g: Grid, r: nat, c: nat)
    requires Rectangular(g) && r < |g| && c < |g[0]|
    requires g[r][c] == '>' && g[r][Next(c, |g[0]|)] == '.'
    ensures StepGrid(g) != g
  {
    var e := EastPhase(g);
    assert e[r][c] == '.';
    assert StepGrid(g)[r][c] == SouthCell(e, r, c);
  }

  lemma SouthMoveUnsettles(g: Grid, r: nat, c: nat)
    requires Rectangular(g) && r < |g| && c < |g[0]|
    requires EastPhase(g) == g
    requires g[r][c] == 'v' && g[Next(r, |g|)][c] == '.'
    ensures StepGrid(g) != g
  {
    assert StepGrid(g)[r][c] == SouthCell(g, r, c);
  }

  lemma QuietSouth(g: Grid)
    requires Rectangular(g)
    requires forall r, c | 0 <= r < |g| && 0 <= c < |g[0]| :: !(g[r][c] == 'v' && g[Next(r, |g|)][c] == '.')
    ensures SouthPhase(g) == g
  {
    forall r | 0 <= r < |g|
      ensures SouthPhase(g)[r] == g[r]
    {
      forall c | 0 <= c < |g[0]|
        ensures SouthCell(g, r, c) == g[r][c]
      {
        var p := Prev(r, |g|);
        assert !(g[p][c] == 'v' && g[Next(p, |g|)][c] == '.');
      }
    }
  }

  /** A step leaves the floor as it is exactly when nothing can move. */
  lemma SettledIffStuck(g: Grid)
    requires Rectangular(g)
    ensures StepGrid(g) == g <==> !CanMove(g)
  {
    var h, w := |g|, |g[0]|;
    if exists r, c | 0 <= r < h && 0 <= c < w :: g[r][c] == '>' && g[r][Next(c, w)] == '.' {
      var r, c :| 0 <= r < h && 0 <= c < w && g[r][c] == '>' && g[r][Next(c, w)] == '.';
      EastMoveUnsettles(g, r, c);
    } else {
      QuietEast(g);
      if exists r, c | 0 <= r < h && 0 <= c < w :: g[r][c] == 'v' && g[Next(r, h)][c] == '.' {
        var r, c :| 0 <= r < h && 0 <= c < w && g[r][c] == 'v' && g[Next(r, h)][c] == '.';
        SouthMoveUnsettles(g, r, c);
      } else {
        QuietSouth(g);
      }
    }
  }

  lemma RingForward()
    ensures StepGrid([">."]) == [".>"]
  {
    assert EastLine(">.") == ".>" by { assert EastCell(">.", 0) == '.' && EastCell(">.", 1) == '>'; }
    assert EastPhase([">."]) == [".>"];
    QuietSouth([".>"]);
  }

  lemma RingBack()
    ensures StepGrid([".>"]) == [">."]
  {
    assert EastLine(".>") == ">." by { assert EastCell(".>", 0) == '>' && EastCell(".>", 1) == '.'; }
    assert EastPhase([".>"]) == [">."];
    QuietSouth([">."]);
  }
}

/**
 * The search of `findFinalState`, stated for any step function: the floors
 * a step function reaches, and the first one it leaves unchanged.
 */
module SettleSearch {
  import opened Common
  import opened SeaCucumber

  /** The floor after n steps. */
  function Iterate(step: Grid -> Grid, g: Grid, n: nat): Grid
  {
    if n == 0 then g else step(Iterate(step, g, n - 1))
  }

  /** The floor after k steps is one a further step leaves unchanged. */
  predicate SettledAfter(step: Grid -> Grid, g: Grid, k: nat)
  {
    var s := Iterate(step, g, k);
    step(s) == s
  }

  /** None of the floors after 0 .. n - 1 steps is settled. */
  predicate MovingUpTo(step: Grid -> Grid, g: Grid, n: nat)
  {
    n == 0 || (MovingUpTo(step, g, n - 1) && !SettledAfter(step, g, n - 1))
  }

  lemma {:induction false} MovingMeansUnsettled(step: Grid -> Grid, g: Grid, n: nat)
    requires MovingUpTo(step, g, n)
    ensures forall k :: 0 <= k < n ==> !SettledAfter(step, g, k)
  {
    if n > 0 {
      MovingMeansUnsettled(step, g, n - 1);
    }
  }

  /**
   * The answer of the search that is at floor g before step i: the first
   * step number j >= i whose step leaves the floor unchanged, or None when
   * no step up to `limit` does.
   */
  function FinalFrom(step: Grid -> Grid, g: Grid, i: nat, limit: nat): Option<nat>
    decreases limit + 1 - i
  {
    if i > limit then None
    else if step(g) == g then Some(i)
    else FinalFrom(step, step(g), i + 1, limit)
  }

  /** Searching on from the floor after i - 1 steps skips no settled floor. */
  lemma {:induction false} FinalFromIterate(step: Grid -> Grid, g: Grid, s: Grid, i: nat, limit: nat)
    requires 1 <= i <= limit + 1
    requires s == Iterate(step, g, i - 1) && MovingUpTo(step, g, i - 1)
    ensures FinalFrom(step, s, i, limit).Some? ==>
      var j := FinalFrom(step, s, i, limit).value;
      i <= j <= limit && SettledAfter(step, g, j - 1) && MovingUpTo(step, g, j - 1)
    ensures FinalFrom(step, s, i, limit).None? ==> MovingUpTo(step, g, limit)
    decreases limit + 1 - i
  {
    if i <= limit && step(s) != s {
      assert Iterate(step, g, i) == step(s);
      FinalFromIterate(step, g, step(s), i + 1, limit);
    }
  }

  /**
   * What the search answers: Some(i) when the floor after i - 1 steps is
   * the first settled one and i <= limit; None when none of the floors
   * after 0 .. limit - 1 steps is settled.
   */
  lemma FinalIsFirstSettled(step: Grid -> Grid, g: Grid, limit: nat)
    ensures var r := FinalFrom(step, g, 1, limit);
      r.Some? ==> 1 <= r.value <= limit && SettledAfter(step, g, r.value - 1)
    ensures var r := FinalFrom(step, g, 1, limit);
      r.Some? ==> forall k :: 0 <= k < r.value - 1 ==> !SettledAfter(step, g, k)
    ensures var r := FinalFrom(step, g, 1, limit);
      r.None? ==> forall k :: 0 <= k < limit ==> !SettledAfter(step, g, k)
  {
    FinalFromIterate(step, g, g, 1, limit);
    var r := FinalFrom(step, g, 1, limit);
    if r.Some? {
      MovingMeansUnsettled(step, g, r.value - 1);
    } else {
      MovingMeansUnsettled(step, g, limit);
    }
  }
}

/** `findFinalState`: running the herds until they settle. */
module SeaCucumberFinalState {
  import opened Common
  import opened SeaCucumber
  import opened SettleSearch

  /**
   * `findFinalState`: the number of the first step after which the floor is
   * unchanged. The source loops for ever on a floor that never settles;
   * here the search stops after `limit` steps.
   */
  method FindFinalState(startMap: Grid, limit: nat) returns (r: Option<nat>)
    requires Rectangular(startMap)
    ensures r == FinalFrom(StepGrid, startMap, 1, limit)
  {
    var currMap := startMap;
    for i := 1 to limit + 1
      invariant Rectangular(currMap)
      invariant FinalFrom(StepGrid, currMap, i, limit) == FinalFrom(StepGrid, startMap, 1, limit)
    {
      var newMap, same := StepAndCompare(currMap);
      if same {
        return Some(i);
      }
      currMap := newMap;
    }
    return None;
  }

  /** A single row ">." never settles: the '>' goes round it for ever. */
  lemma {:induction false} RingNeverSettles(n: nat)
    ensures Iterate(StepGrid, [">."], n) == (if n % 2 == 0 then [">."] else [".>"])
    ensures !SettledAfter(StepGrid, [">."], n)
  {
    RingForward();
    RingBack();
    if n > 0 {
      RingNeverSettles(n - 1);
    }
  }

  /** On the ring ">." the search never finds a settled floor. */
  lemma RingSearchFails(limit: nat)
    ensures FinalFrom(StepGrid, [">."], 1, limit) == None
  {
    FinalIsFirstSettled(StepGrid, [">."], limit);
    var r := FinalFrom(StepGrid, [">."], 1, limit);
    if r.Some? {
      RingNeverSettles(r.value - 1);
    }
  }
}
