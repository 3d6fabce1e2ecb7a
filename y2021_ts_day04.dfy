/**
 * Giant Squid (2021, day 4): bingo. Each board indexes its values to tiles; marking a drawn
 * number sets its tile's mark and, if that completes the tile's row or column, scores the
 * number times the sum of the unmarked values. Part 1 plays until the first score; part 2
 * drops winning boards until one is left and returns that board's winning score.
 */
module GiantSquid {

  datatype Pos = Pos(row: nat, col: nat)

  /** A board's values, its marks, and the value-to-tile index built by the constructor. */
  datatype Board = Board(values: seq<seq<int>>, marked: seq<seq<bool>>, lookup: map<int, Pos>)

  predicate Rectangular(values: seq<seq<int>>)
  {
    forall r :: 0 <= r < |values| ==> |values[r]| == |values[0]|
  }

  predicate InGrid(values: seq<seq<int>>, p: Pos)
  {
    p.row < |values| && p.col < |values[p.row]|
  }

  predicate WellFormed(b: Board)
  {
    && Rectangular(b.values)
    && |b.marked| == |b.values|
    && (forall r :: 0 <= r < |b.values| ==> |b.marked[r]| == |b.values[r]|)
    && IndexSound(b.values, b.lookup)
  }

  /** `lookup[value] = tile` for the first c tiles of row r; a later duplicate overwrites. */
  function RowLookup(values: seq<seq<int>>, r: nat, c: nat, m: map<int, Pos>): map<int, Pos>
    requires r < |values| && c <= |values[r]|
  {
    if c == 0 then m else RowLookup(values, r, c - 1, m)[values[r][c - 1] := Pos(r, c - 1)]
  }

  /** The lookup after the first r rows. */
  function LookupUpTo(values: seq<seq<int>>, r: nat): map<int, Pos>
    requires r <= |values|
  {
    if r == 0 then map[] else RowLookup(values, r - 1, |values[r - 1]|, LookupUpTo(values, r - 1))
  }

  function NewBoard(values: seq<seq<int>>): Board
  {
    Board(values, seq(|values|, r requires 0 <= r < |values| => seq(|values[r]|, c => false)),
          LookupUpTo(values, |values|))
  }

  /** Every indexed value sits on a tile of the grid that holds it. */
  predicate IndexSound(values: seq<seq<int>>, m: map<int, Pos>)
  {
    forall v :: v in m ==> InGrid(values, m[v]) && values[m[v].row][m[v].col] == v
  }

  lemma {:induction false} RowLookupSound(values: seq<seq<int>>, r: nat, c: nat, m: map<int, Pos>)
    requires r < |values| && c <= |values[r]|
    requires IndexSound(values, m)
    ensures IndexSound(values, RowLookup(values, r, c, m))
    ensures forall j :: 0 <= j < c ==> values[r][j] in RowLookup(values, r, c, m)
    ensures m.Keys <= RowLookup(values, r, c, m).Keys
  {
    if c > 0 {
      RowLookupSound(values, r, c - 1, m);
    }
  }

  lemma {:induction false} LookupSound(values: seq<seq<int>>, r: nat)
    requires r <= |values|
    ensures IndexSound(values, LookupUpTo(values, r))
    ensures forall i, j :: 0 <= i < r && 0 <= j < |values[i]| ==> values[i][j] in LookupUpTo(values, r)
  {
    if r > 0 {
      var m := LookupUpTo(values, r - 1);
      LookupSound(values, r - 1);
      RowLookupSound(values, r - 1, |values[r - 1]|, m);
      var m' := RowLookup(values, r - 1, |values[r - 1]|, m);
      assert LookupUpTo(values, r) == m';
      forall i, j | 0 <= i < r && 0 <= j < |values[i]|
        ensures values[i][j] in m'
      {
        if i < r - 1 {
          assert values[i][j] in m;
        }
      }
    }
  }

  /**
   * The constructor indexes every value to a tile holding that value, every value on the
   * board is indexed, and no tile starts marked.
   */
  lemma NewBoardIndexes(values: seq<seq<int>>)
    requires Rectangular(values)
    ensures WellFormed(NewBoard(values))
    ensures forall i, j :: 0 <= i < |values| && 0 <= j < |values[i]| ==> values[i][j] in NewBoard(values).lookup
    ensures forall i, j :: 0 <= i < |values| && 0 <= j < |values[i]| ==> !NewBoard(values).marked[i][j]
  {
    LookupSound(values, |values|);
  }

  predicate RowDone(b: Board, row: nat)
    requires row < |b.marked|
  {
    forall c :: 0 <= c < |b.marked[row]| ==> b.marked[row][c]
  }

  predicate ColumnDone(b: Board, col: nat)
    requires forall r :: 0 <= r < |b.marked| ==> col < |b.marked[r]|
  {
    forall r :: 0 <= r < |b.marked| ==> b.marked[r][col]
  }

  function RowUnmarked(values: seq<int>, marked: seq<bool>): int
    requires |values| == |marked|
  {
    if values == [] then 0
    else RowUnmarked(values[..|values| - 1], marked[..|marked| - 1]) + (if marked[|marked| - 1] then 0 else values[|values| - 1])
  }

  /** Sum of the unmarked values. */
  function UnmarkedSum(b: Board): int
    requires |b.marked| == |b.values|
    requires forall r :: 0 <= r < |b.values| ==> |b.marked[r]| == |b.values[r]|
    decreases |b.values|
  {
    if b.values == [] then 0
    else
      var n := |b.values|;
      UnmarkedSum(Board(b.values[..n - 1], b.marked[..n - 1], b.lookup)) + RowUnmarked(b.values[n - 1], b.marked[n - 1])
  }

  datatype MarkResult = MarkResult(board: Board, score: int)

  /** `markNumber`: set the tile's mark, then score if its column or row is complete. */
  function Mark(b: Board, num: int): (m: MarkResult)
    requires WellFormed(b)
    ensures WellFormed(m.board)
    ensures m.board.values == b.values && m.board.lookup == b.lookup
  {
    if num !in b.lookup then MarkResult(b, 0)
    else
      var p := b.lookup[num];
      var b' := b.(marked := b.marked[p.row := b.marked[p.row][p.col := true]]);
      if ColumnDone(b', p.col) || RowDone(b', p.row) then MarkResult(b', num * UnmarkedSum(b'))
      else MarkResult(b', 0)
  }

  /** A number not on the board changes nothing and scores 0. */
  lemma MarkAbsent(b: Board, num: int)
    requires WellFormed(b) && num !in b.lookup
    ensures Mark(b, num) == MarkResult(b, 0)
  {
  }

  /** Marks are only ever set: every old mark survives and the drawn number's tile is marked. */
  lemma MarkOnlySets(b: Board, num: int)
    requires WellFormed(b)
    ensures var m := Mark(b, num).board;
            forall r, c :: 0 <= r < |b.marked| && 0 <= c < |b.marked[r]| && b.marked[r][c] ==> m.marked[r][c]
    ensures num in b.lookup ==> Mark(b, num).board.marked[b.lookup[num].row][b.lookup[num].col]
    ensures forall r, c :: 0 <= r < |b.marked| && 0 <= c < |b.marked[r]| && Mark(b, num).board.marked[r][c] && !b.marked[r][c] ==>
              num in b.lookup && b.lookup[num] == Pos(r, c)
  {
  }

  /** A non-zero score means the drawn tile completed its column or its row. */
  lemma ScoreMeansBingo(b: Board, num: int)
    requires WellFormed(b) && Mark(b, num).score != 0
    ensures num in b.lookup
    ensures var p := b.lookup[num];
            ColumnDone(Mark(b, num).board, p.col) || RowDone(Mark(b, num).board, p.row)
    ensures Mark(b, num).score == num * UnmarkedSum(Mark(b, num).board)
  {
  }

  // ---- the draw loops, on board values ----

  /** The inner loop of playBingo from board k on, for one drawn number. */
  function RoundAt(bs: seq<Board>, num: int, k: nat): MarkRound
    requires forall i :: 0 <= i < |bs| ==> WellFormed(bs[i])
    requires k <= |bs|
    decreases |bs| - k
  {
    if k == |bs| then MarkRound(bs, 0)
    else
      var m := Mark(bs[k], num);
      if m.score != 0 then MarkRound(bs[k := m.board], m.score)
      else RoundAt(bs[k := m.board], num, k + 1)
  }

  datatype MarkRound = MarkRound(boards: seq<Board>, score: int)

  lemma {:induction false} RoundKeepsShape(bs: seq<Board>, num: int, k: nat)
    requires forall i :: 0 <= i < |bs| ==> WellFormed(bs[i])
    requires k <= |bs|
    ensures |RoundAt(bs, num, k).boards| == |bs|
    ensures forall i :: 0 <= i < |bs| ==> WellFormed(RoundAt(bs, num, k).boards[i])
    decreases |bs| - k
  {
    if k < |bs| {
      var m := Mark(bs[k], num);
      if m.score == 0 {
        RoundKeepsShape(bs[k := m.board], num, k + 1);
      }
    }
  }

  /** playBingo: the first non-zero score in draw order, else 0. */
  function Play(bs: seq<Board>, draw: seq<int>): int
    requires forall i :: 0 <= i < |bs| ==> WellFormed(bs[i])
    decreases |draw|
  {
    if draw == [] then 0
    else
      var round := RoundAt(bs, draw[0], 0);
      RoundKeepsShape(bs, draw[0], 0);
      if round.score != 0 then round.score else Play(round.boards, draw[1..])
  }

  /**
   * One filter of findLastWinnersScore on board values: every board is marked with the
   * number and the boards that scored 0 are kept, in order.
   */
  function KeepLosers(bs: seq<Board>, num: int): (kept: seq<Board>)
    requires forall i :: 0 <= i < |bs| ==> WellFormed(bs[i])
    ensures |kept| <= |bs|
    ensures forall i :: 0 <= i < |kept| ==> WellFormed(kept[i])
  {
    if bs == [] then []
    else
      var m := Mark(bs[|bs| - 1], num);
      KeepLosers(bs[..|bs| - 1], num) + (if m.score == 0 then [m.board] else [])
  }

  /** Filtering one more board appends it, marked, exactly when it did not score. */
  lemma KeepLosersStep(bs: seq<Board>, num: int, k: nat)
    requires k < |bs| && forall i :: 0 <= i < |bs| ==> WellFormed(bs[i])
    ensures var m := Mark(bs[k], num);
      KeepLosers(bs[..k + 1], num) == KeepLosers(bs[..k], num) + (if m.score == 0 then [m.board] else [])
  {
    assert bs[..k + 1][..k] == bs[..k];
  }

  /** The result of findLastWinnersScore: a score, or the TypeError of `boards[0]` on an empty list. */
  datatype Outcome = Score(value: int) | Throws

  /**
   * findLastWinnersScore: while more than one board is left, each number filters out the
   * boards that score; with one board left, its first positive score is the result.
   */
  function LastWinner(bs: seq<Board>, draw: seq<int>): Outcome
    requires forall i :: 0 <= i < |bs| ==> WellFormed(bs[i])
    decreases |draw|
  {
    if draw == [] then Score(0)
    else if |bs| > 1 then LastWinner(KeepLosers(bs, draw[0]), draw[1..])
    else if bs == [] then Throws
    else
      var m := Mark(bs[0], draw[0]);
      if m.score > 0 then Score(m.score) else LastWinner([m.board], draw[1..])
  }

  /** Every kept board scored 0 on the number, and no more boards are kept than were given. */
  lemma {:induction false} KeptBoardsDidNotScore(bs: seq<Board>, num: int)
    requires forall i :: 0 <= i < |bs| ==> WellFormed(bs[i])
    ensures forall b :: b in KeepLosers(bs, num) ==> exists i :: 0 <= i < |bs| && b == Mark(bs[i], num).board && Mark(bs[i], num).score == 0
  {
    if bs != [] {
      KeptBoardsDidNotScore(bs[..|bs| - 1], num);
    }
  }

  /** With a single board left, the result is that board's first positive score, or 0. */
  lemma {:induction false} SingleBoardScore(b: Board, draw: seq<int>)
    requires WellFormed(b)
    ensures LastWinner([b], draw).Score?
    ensures LastWinner([b], draw).value >= 0
    decreases |draw|
  {
    if draw != [] {
      var m := Mark(b, draw[0]);
      if m.score <= 0 {
        SingleBoardScore(m.board, draw[1..]);
      }
    }
  }

  // ---- the class ----

  class BingoBoard {
    const values: seq<seq<int>>
    const lookup: map<int, Pos>
    var marked: seq<seq<bool>>

    function State(): Board
      reads this
    {
      Board(values, marked, lookup)
    }

    ghost predicate Valid()
      reads this
    {
      WellFormed(State())
    }

    constructor (board: seq<seq<int>>)
      requires Rectangular(board)
      ensures State() == NewBoard(board) && Valid()
    {
      var m: map<int, Pos> := map[];
      var marks: seq<seq<bool>> := [];
      for i := 0 to |board|
        invariant m == LookupUpTo(board, i)
        invariant marks == NewBoard(board).marked[..i]
      {
        var rowMarks: seq<bool> := [];
        ghost var before := m;
        for j := 0 to |board[i]|
          invariant m == RowLookup(board, i, j, before)
          invariant rowMarks == seq(j, c => false)
        {
          m := m[board[i][j] := Pos(i, j)];
          rowMarks := rowMarks + [false];
        }
        marks := marks + [rowMarks];
      }
      values := board;
      lookup := m;
      marked := marks;
      NewBoardIndexes(board);
    }

    method CheckRow(row: nat) returns (done: bool)
      requires Valid() && row < |values|
      ensures done == RowDone(State(), row)
    {
      done := true;
      for c := 0 to |marked[row]|
        invariant done == forall j :: 0 <= j < c ==> marked[row][j]
      {
        done := done && marked[row][c];
      }
    }

    method CheckColumn(col: nat) returns (done: bool)
      requires Valid() && (values != [] ==> col < |values[0]|)
      ensures done == ColumnDone(State(), col)
    {
      done := true;
      for r := 0 to |marked|
        invariant done == forall i :: 0 <= i < r ==> marked[i][col]
      {
        done := done && marked[r][col];
      }
    }

    method MarkNumber(num: int) returns (score: int)
      requires Valid()
      modifies this
      ensures Valid()
      ensures State() == Mark(old(State()), num).board
      ensures score == Mark(old(State()), num).score
    {
      if num !in lookup {
        return 0;
      }
      var p := lookup[num];
      marked := marked[p.row := marked[p.row][p.col := true]];
      var colDone := CheckColumn(p.col);
      var rowDone := CheckRow(p.row);
      if colDone || rowDone {
        score := num * UnmarkedSum(State());
      } else {
        score := 0;
      }
    }
  }

  predicate Distinct(boards: seq<BingoBoard>)
  {
    forall i, j :: 0 <= i < j < |boards| ==> boards[i] != boards[j]
  }

  function States(boards: seq<BingoBoard>): (s: seq<Board>)
    reads set b | b in boards
    ensures |s| == |boards|
  {
    seq(|boards|, i reads boards requires 0 <= i < |boards| => boards[i].State())
  }

  ghost predicate AllValid(boards: seq<BingoBoard>)
    reads set b | b in boards
  {
    forall i :: 0 <= i < |boards| ==> boards[i].Valid()
  }

  /** One drawn number in playBingo: mark boards in order until one scores. */
  method PlayRound(boards: seq<BingoBoard>, num: int) returns (score: int)
    requires Distinct(boards) && AllValid(boards)
    modifies set b | b in boards
    ensures AllValid(boards)
    ensures MarkRound(States(boards), score) == RoundAt(old(States(boards)), num, 0)
  {
    for k := 0 to |boards|
      invariant AllValid(boards)
      invariant RoundAt(States(boards), num, k) == RoundAt(old(States(boards)), num, 0)
    {
      ghost var pre := States(boards);
      score := MarkAt(boards, k, num, []);
      if score != 0 {
        return;
      }
    }
    score := 0;
  }

  /** Marking board k of a list changes that board's state as Mark does, and no other board. */
  method MarkAt(boards: seq<BingoBoard>, k: nat, num: int, ghost others: seq<BingoBoard>) returns (score: int)
    requires Distinct(boards) && AllValid(boards) && k < |boards|
    requires boards[k] !in others
    modifies boards[k]
    ensures AllValid(boards)
    ensures States(boards) == old(States(boards))[k := Mark(old(boards[k].State()), num).board]
    ensures States(others) == old(States(others))
    ensures score == Mark(old(boards[k].State()), num).score
  {
    ghost var pre := States(boards);
    ghost var preOthers := States(others);
    score := boards[k].MarkNumber(num);
    forall i | 0 <= i < |others|
      ensures others[i].State() == preOthers[i]
    {
      assert others[i] != boards[k];
    }
    forall i | 0 <= i < |boards| && i != k
      ensures boards[i].Valid() && boards[i].State() == pre[i]
    {
      assert boards[i] != boards[k];
    }
    assert States(boards) == pre[k := boards[k].State()];
  }

  method PlayBingo(draw: seq<int>, boards: seq<BingoBoard>) returns (score: int)
    requires Distinct(boards) && AllValid(boards)
    modifies set b | b in boards
    ensures score == Play(old(States(boards)), draw)
  {
    for d := 0 to |draw|
      invariant AllValid(boards)
      invariant Play(States(boards), draw[d..]) == Play(old(States(boards)), draw)
    {
      assert draw[d..][1..] == draw[d + 1..];
      ghost var start := States(boards);
      score := PlayRound(boards, draw[d]);
      RoundKeepsShape(start, draw[d], 0);
      if score != 0 {
        return;
      }
    }
    score := 0;
  }

  /** The state of the filter loop after k boards: those boards marked, the losers among them kept in order. */
  ghost predicate FilteredUpTo(current: seq<BingoBoard>, kept: seq<BingoBoard>, before: seq<Board>, k: nat, num: int)
    reads set b | b in current, set b | b in kept
  {
    && k <= |current| == |before|
    && AllValid(current) && Distinct(kept)
    && (forall b :: b in kept ==> b in current[..k])
    && (forall j :: k <= j < |current| ==> current[j].State() == before[j])
    && (forall j :: 0 <= j < |before| ==> WellFormed(before[j]))
    && States(kept) == KeepLosers(before[..k], num)
  }

  /** One step of the filter: mark board k and keep it when it did not score. */
  method FilterStep(current: seq<BingoBoard>, kept: seq<BingoBoard>, ghost before: seq<Board>, k: nat, num: int)
    returns (kept': seq<BingoBoard>)
    requires Distinct(current) && k < |current| && FilteredUpTo(current, kept, before, k, num)
    modifies current[k]
    ensures FilteredUpTo(current, kept', before, k + 1, num)
  {
    ghost var pre := States(current);
    assert forall j :: k <= j < |current| ==> pre[j] == before[j];
    assert current[k] !in current[..k];
    assert current[k] !in kept;
    var s := MarkAt(current, k, num, kept);
    kept' := if s == 0 then kept + [current[k]] else kept;
    FilterAdvance(current, kept, kept', before, pre, k, num, s);
  }

  /** The bookkeeping of FilterStep, in the state after board k was marked. */
  lemma FilterAdvance(current: seq<BingoBoard>, kept: seq<BingoBoard>, kept': seq<BingoBoard>, before: seq<Board>,
                      pre: seq<Board>, k: nat, num: int, s: int)
    requires k < |current| == |before| == |pre| && Distinct(current)
    requires AllValid(current) && Distinct(kept)
    requires forall b :: b in kept ==> b in current[..k]
    requires forall j :: k <= j < |current| ==> pre[j] == before[j]
    requires forall j :: 0 <= j < |before| ==> WellFormed(before[j])
    requires States(kept) == KeepLosers(before[..k], num)
    requires States(current) == pre[k := Mark(before[k], num).board]
    requires s == Mark(before[k], num).score
    requires kept' == if s == 0 then kept + [current[k]] else kept
    ensures FilteredUpTo(current, kept', before, k + 1, num)
  {
    var m := Mark(before[k], num);
    forall j | k + 1 <= j < |current|
      ensures current[j].State() == before[j]
    {
      assert States(current)[j] == pre[j];
    }
    assert current[k].State() == States(current)[k] == m.board;
    KeepLosersStep(before, num, k);
    if s == 0 {
      StatesAppend(kept, current[k]);
      assert current[k] !in current[..k];
    }
    assert current[..k + 1] == current[..k] + [current[k]];
    assert forall b :: b in kept' ==> b in current[..k + 1];
    assert Distinct(kept');
    assert States(kept') == KeepLosers(before[..k + 1], num);
  }

  lemma StatesAppend(bs: seq<BingoBoard>, b: BingoBoard)
    ensures States(bs + [b]) == States(bs) + [b.State()]
  {
  }

  /** The filter of findLastWinnersScore: every board is marked, the non-scoring ones are kept. */
  method FilterLosers(current: seq<BingoBoard>, num: int) returns (kept: seq<BingoBoard>)
    requires Distinct(current) && AllValid(current)
    modifies set b | b in current
    ensures AllValid(current) && Distinct(kept) && AllValid(kept)
    ensures forall b :: b in kept ==> b in current
    ensures States(kept) == KeepLosers(old(States(current)), num)
  {
    ghost var before := States(current);
    kept := [];
    for k := 0 to |current|
      invariant FilteredUpTo(current, kept, before, k, num)
    {
      kept := FilterStep(current, kept, before, k, num);
    }
    assert before[..|current|] == before;
    assert current[..|current|] == current;
    forall i | 0 <= i < |kept|
      ensures kept[i].Valid()
    {
      assert kept[i] in current;
    }
  }

  method FindLastWinnersScore(draw: seq<int>, boards: seq<BingoBoard>) returns (r: Outcome)
    requires Distinct(boards) && AllValid(boards)
    modifies set b | b in boards
    ensures r == LastWinner(old(States(boards)), draw)
  {
    var current := boards;
    for d := 0 to |draw|
      invariant Distinct(current) && AllValid(current)
      invariant forall b :: b in current ==> b in boards
      invariant LastWinner(States(current), draw[d..]) == LastWinner(old(States(boards)), draw)
    {
      var num := draw[d];
      assert draw[d..][1..] == draw[d + 1..];
      ghost var pre := States(current);
      if |current| > 1 {
        assert LastWinner(pre, draw[d..]) == LastWinner(KeepLosers(pre, num), draw[d + 1..]);
        current := FilterLosers(current, num);
      } else if current == [] {
        return Throws;
      } else {
        var s := current[0].MarkNumber(num);
        if s > 0 {
          return Score(s);
        }
        assert States(current) == [current[0].State()];
      }
    }
    r := Score(0);
  }
}
