/**
 * Disk Fragmenter (2024, day 9): a disk map alternates file lengths and
 * free-space lengths; the blocks are compacted one cell at a time (part
 * one) or one whole file at a time (part two), and the checksum adds up
 * position × file id over the occupied cells.
 */
module DiskFragmenter {
  import opened Common

  /** A block cell: the id of the file stored there, or None for free space (`null`). */
  type Cell = Option<nat>

  /** `n` copies of a cell (`Array(n).fill(value)`). */
  function Repeat(c: Cell, n: nat): (r: seq<Cell>)
    ensures |r| == n
    ensures forall k | 0 <= k < n :: r[k] == c
  {
    if n == 0 then [] else Repeat(c, n - 1) + [c]
  }

  lemma {:induction false} RepeatCount(c: Cell, n: nat)
    ensures multiset(Repeat(c, n))[c] == n
    ensures forall d | d != c :: multiset(Repeat(c, n))[d] == 0
  {
    if n > 0 {
      RepeatCount(c, n - 1);
    }
  }

  /** The cell that entry `i` of a disk map expands to: file `i / 2` at even entries, free space at odd ones. */
  function CellFor(i: nat): Cell
  {
    if i % 2 == 1 then None else Some(i / 2)
  }

  /**
   * `mapToBlock`: the block has one cell per unit of the disk map, and every
   * file id in it belongs to an even entry of the map.
   */
  function MapToBlock(diskMap: seq<nat>): (r: seq<Cell>)
    ensures |r| == Sum(diskMap)
    ensures forall k | 0 <= k < |r| && r[k].Some? :: 2 * r[k].value < |diskMap|
  {
    if diskMap == [] then []
    else MapToBlock(diskMap[..|diskMap| - 1]) + Repeat(CellFor(|diskMap| - 1), diskMap[|diskMap| - 1])
  }

  /** File `k` occupies exactly as many cells as entry `2k` says, and no other file id appears. */
  lemma {:induction false} MapToBlockCount(diskMap: seq<nat>, k: nat)
    ensures multiset(MapToBlock(diskMap))[Some(k)] == if 2 * k < |diskMap| then diskMap[2 * k] else 0
  {
    if diskMap != [] {
      var front := diskMap[..|diskMap| - 1];
      var last := |diskMap| - 1;
      var tail := Repeat(CellFor(last), diskMap[last]);
      MapToBlockCount(front, k);
      RepeatCount(CellFor(last), diskMap[last]);
      CellForIs(last, k);
      assert MapToBlock(diskMap) == MapToBlock(front) + tail;
      var before := multiset(MapToBlock(front))[Some(k)];
      var added := multiset(tail)[Some(k)];
      assert multiset(MapToBlock(diskMap))[Some(k)] == before + added;
      if last == 2 * k {
        assert added == diskMap[2 * k] && before == 0;
      } else if 2 * k < |front| {
        assert added == 0 && before == diskMap[2 * k];
      } else {
        assert added == 0 && before == 0;
      }
    }
  }

  /** Entry i of the disk map holds file k exactly when i = 2k. */
  lemma CellForIs(i: nat, k: nat)
    ensures CellFor(i) == Some(k) <==> i == 2 * k
  {
  }

  /** The contribution of one cell to the checksum. */
  function Weight(c: Cell, index: nat): nat
  {
    if c.None? then 0 else c.value * index
  }

  /**
   * `blockChecksum`: Σ index × id over the occupied cells. Every term is
   * non-negative, so the checksum is zero exactly when each occupied cell is
   * at index 0 or holds file 0.
   */
  function BlockChecksum(block: seq<Cell>): (r: nat)
    ensures r == 0 <==> forall k | 0 <= k < |block| && block[k].Some? :: k == 0 || block[k].value == 0
  {
    if block == [] then 0
    else BlockChecksum(block[..|block| - 1]) + Weight(block[|block| - 1], |block| - 1)
  }

  /** Free space at the end of a block adds nothing to the checksum. */
  lemma {:induction false} TrailingFreeSpace(block: seq<Cell>, n: nat)
    ensures BlockChecksum(block + Repeat(None, n)) == BlockChecksum(block)
  {
    if n > 0 {
      var longer := block + Repeat(None, n);
      assert longer[..|longer| - 1] == block + Repeat(None, n - 1);
      assert longer[|longer| - 1] == None;
      assert BlockChecksum(longer) == BlockChecksum(longer[..|longer| - 1]) + Weight(longer[|longer| - 1], |longer| - 1);
      TrailingFreeSpace(block, n - 1);
    } else {
      assert block + Repeat(None, n) == block;
    }
  }

  /** All free cells come after all occupied ones. */
  predicate Compacted(block: seq<Cell>)
  {
    forall a, b | 0 <= a < b < |block| :: block[a].None? ==> block[b].None?
  }

  /** Every cell below `i` holds a file. */
  predicate FilesBelow(s: seq<Cell>, i: int)
  {
    forall k | 0 <= k < i && k < |s| :: s[k].Some?
  }

  /** Every cell above `j` is free. */
  predicate FreeAbove(s: seq<Cell>, j: int)
  {
    forall k | 0 <= k < |s| && j < k :: s[k].None?
  }

  /**
   * `compressBlock` corrected: the outer loop runs while `i < j`, and the
   * inner scan for a file cell stops at the left-hand cursor instead of
   * running past it (on [1, 3, 1] the source's scan would). The result is a
   * copy of the block in which the last file cells have been moved into the
   * first free cells; the input is not modified.
   */
  method CompressBlock(blocks: array<Cell>) returns (compressed: array<Cell>)
    ensures fresh(compressed) && compressed.Length == blocks.Length
    ensures multiset(compressed[..]) == multiset(blocks[..])
    ensures Compacted(compressed[..])
  {
    compressed := new Cell[blocks.Length](k reads blocks requires 0 <= k < blocks.Length => blocks[k]);
    assert compressed[..] == blocks[..];
    var i, j := 0, blocks.Length - 1;
    while i < j
      invariant 0 <= i <= j + 1 && j < compressed.Length
      invariant FilesBelow(compressed[..], i) && FreeAbove(compressed[..], j)
      invariant multiset(compressed[..]) == multiset(blocks[..])
      decreases j - i
    {
      if compressed[i].None? {
        j := SkipFree(compressed, i, j);
        if j == i {
          break;
        }
        Swap(compressed, i, j);
        j := j - 1;
      }
      i := i + 1;
    }
    BetweenCursors(compressed[..], i, j);
  }

  /** The inner loop of `compressBlock`: moves the right-hand cursor down past free cells, stopping at the left one. */
  method SkipFree(a: array<Cell>, i: nat, j: nat) returns (j': nat)
    requires i <= j < a.Length && FreeAbove(a[..], j)
    ensures i <= j' <= j && FreeAbove(a[..], j')
    ensures j' > i ==> a[j'].Some?
  {
    j' := j;
    while j' > i && a[j'].None?
      invariant i <= j' <= j && FreeAbove(a[..], j')
    {
      j' := j' - 1;
    }
  }

  /**
   * Moves the file cell at `j` into the free cell at `i`, which keeps the
   * multiset of cells and moves both cursors inwards.
   */
  method Swap(a: array<Cell>, i: nat, j: nat)
    requires i < j < a.Length && a[i].None? && a[j].Some?
    requires FilesBelow(a[..], i) && FreeAbove(a[..], j)
    modifies a
    ensures a[..] == old(a[..])[i := old(a[j])][j := old(a[i])]
    ensures multiset(a[..]) == multiset(old(a[..]))
    ensures FilesBelow(a[..], i + 1) && FreeAbove(a[..], j - 1)
  {
    SwapPreserves(a[..], i, j);
    a[i], a[j] := a[j], a[i];
  }

  lemma SwapPreserves(s: seq<Cell>, i: nat, j: nat)
    requires i < j < |s|
    ensures multiset(s[i := s[j]][j := s[i]]) == multiset(s)
  {
    var t := s[i := s[j]][j := s[i]];
    assert s == s[..i] + [s[i]] + s[i + 1..j] + [s[j]] + s[j + 1..];
    assert t == s[..i] + [s[j]] + s[i + 1..j] + [s[i]] + s[j + 1..];
  }

  /** Files below `i` and free space above `j`, with the cursors met: the block is compacted. */
  lemma BetweenCursors(s: seq<Cell>, i: nat, j: int)
    requires j <= i
    requires FilesBelow(s, i) && FreeAbove(s, j)
    ensures Compacted(s)
  {
  }

  /** The largest index at most `j` holding a file cell, or -1 (the `while (compressed[j] === null) j--` loop). */
  function LastFile(block: seq<Cell>, j: int): (k: int)
    requires -1 <= j < |block|
    ensures -1 <= k <= j
    ensures k >= 0 ==> block[k].Some?
    ensures forall m | k < m <= j :: block[m].None?
    decreases j + 1
  {
    if j < 0 || block[j].Some? then j else LastFile(block, j - 1)
  }

  /**
   * `compressBlock` as written, from position `i` with the right-hand cursor
   * at `j`; None when the inner loop runs below index 0 (the source then
   * reads `compressed[-1]`, which is undefined).
   */
  function CompressAsWritten(block: seq<Cell>, i: nat, j: int): Option<seq<Cell>>
    requires -1 <= j < |block|
    decreases |block| - i
  {
    if i > j then Some(block)
    else if block[i].Some? then CompressAsWritten(block, i + 1, j)
    else
      var k := LastFile(block, j);
      if k < 0 then None
      else CompressAsWritten(block[i := block[k]][k := None], i + 1, k - 1)
  }

  /**
   * For the disk map [1, 2, 1] the guard `i <= j` lets the loop visit a
   * free cell after the right-hand cursor has passed it, and it pulls file
   * 1 back there: free space is left in the middle. Tightening the guard to
   * `i < j` alone does not suffice; CompressBlock also stops the inner scan
   * at the left-hand cursor.
   */
  lemma AsWrittenCounterexample()
    ensures MapToBlock([1, 2, 1]) == [Some(0), None, None, Some(1)]
    ensures CompressAsWritten(MapToBlock([1, 2, 1]), 0, 3) == Some([Some(0), None, Some(1), None])
    ensures !Compacted([Some(0), None, Some(1), None])
  {
    var block: seq<Cell> := [Some(0), None, None, Some(1)];
    ExampleBlock();
    assert LastFile(block, 3) == 3;
    var second := block[1 := Some(1)][3 := None];
    assert second == [Some(0), Some(1), None, None];
    assert LastFile(second, 2) == 1;
    var third := second[2 := Some(1)][1 := None];
    assert third == [Some(0), None, Some(1), None];
    assert CompressAsWritten(third, 3, 0) == Some(third);
    assert CompressAsWritten(second, 2, 2) == Some(third);
    assert CompressAsWritten(block, 1, 3) == Some(third);
    assert third[1].None? && third[2].Some?;
  }

  /** The disk map [1, 2, 1] expands to file 0, two free cells, file 1. */
  lemma ExampleBlock()
    ensures MapToBlock([1, 2, 1]) == [Some(0), None, None, Some(1)]
  {
    assert MapToBlock([1]) == [Some(0)];
    assert [1, 2, 1][..2] == [1, 2];
    assert [1, 2][..1] == [1];
    assert Repeat(None, 2) == [None, None];
    assert MapToBlock([1, 2]) == [Some(0), None, None];
  }

  /** A run of cells: a file (id Some) or a free span (id None) of `size` cells from `pos`. */
  datatype File = File(pos: nat, size: nat, id: Option<nat>)

  /** `diskToFiles`: each entry starts where the previous ones end. */
  function DiskToFiles(diskMap: seq<nat>): (files: seq<File>)
    ensures |files| == |diskMap|
  {
    seq(|diskMap|, i requires 0 <= i < |diskMap| => File(Offset(diskMap[..i]), diskMap[i], CellFor(i)))
  }

  /** Where the entry after `sizes` starts (`pos += size`). */
  function Offset(sizes: seq<nat>): nat
  {
    if sizes == [] then 0 else Offset(sizes[..|sizes| - 1]) + sizes[|sizes| - 1]
  }

  /**
   * One step of the inner loop of `compressFiles`: when the free span `j`
   * starts at or before the entry `i` and has room for it, the entry moves
   * to the start of the span and the span shrinks from the left.
   */
  function MoveInto(files: seq<File>, i: nat, j: nat): (r: seq<File>)
    requires i < |files| && j < |files|
    ensures |r| == |files|
  {
    var used := files[i];
    var free := files[j];
    if free.pos <= used.pos && free.size >= used.size then
      files[i := used.(pos := free.pos)][j := free.(pos := free.pos + used.size, size := free.size - used.size)]
    else files
  }

  /** The inner loop: the free spans at odd indices from `j` on, in order. */
  function MoveAcross(files: seq<File>, i: nat, j: nat): (r: seq<File>)
    requires i < |files|
    ensures |r| == |files|
    decreases |files| - j
  {
    if j >= |files| then files else MoveAcross(MoveInto(files, i, j), i, j + 2)
  }

  /** The outer loop: every second entry from `i` down to 0. */
  function MoveFrom(files: seq<File>, i: int): (r: seq<File>)
    requires i < |files|
    ensures |r| == |files|
    decreases i + 1
  {
    if i < 0 then files else MoveFrom(MoveAcross(files, i, 1), i - 2)
  }

  /**
   * What a move keeps, on a list with files at even indices and free spans
   * at odd ones: every id; each file's size, with its position at most what
   * it was; each span's end, with its start at least what it was.
   */
  predicate Shrunk(before: seq<File>, after: seq<File>)
  {
    |after| == |before| &&
    forall k | 0 <= k < |before| ::
      after[k].id == before[k].id &&
      (k % 2 == 0 ==> after[k].size == before[k].size && after[k].pos <= before[k].pos) &&
      (k % 2 == 1 ==> after[k].pos + after[k].size == before[k].pos + before[k].size && after[k].pos >= before[k].pos)
  }

  lemma ShrunkTransitive(a: seq<File>, b: seq<File>, c: seq<File>)
    requires Shrunk(a, b) && Shrunk(b, c)
    ensures Shrunk(a, c)
  {
  }

  lemma {:induction false} MoveAcrossShrinks(files: seq<File>, i: nat, j: nat)
    requires i < |files| && i % 2 == 0 && j % 2 == 1
    ensures Shrunk(files, MoveAcross(files, i, j))
    decreases |files| - j
  {
    if j < |files| {
      var next := MoveInto(files, i, j);
      assert Shrunk(files, next);
      MoveAcrossShrinks(next, i, j + 2);
      ShrunkTransitive(files, next, MoveAcross(next, i, j + 2));
    }
  }

  /** With an odd number of entries (files first and last), compression only ever moves files left into spans. */
  lemma {:induction false} MoveFromShrinks(files: seq<File>, i: int)
    requires i < |files| && (i < 0 || i % 2 == 0)
    ensures Shrunk(files, MoveFrom(files, i))
    decreases i + 1
  {
    if i >= 0 {
      var next := MoveAcross(files, i, 1);
      MoveAcrossShrinks(files, i, 1);
      MoveFromShrinks(next, i - 2);
      ShrunkTransitive(files, next, MoveFrom(next, i - 2));
    }
  }

  /** A move happens only into a span that starts at or before the entry and has room for it. */
  lemma MoveIntoOnlyWhenRoom(files: seq<File>, i: nat, j: nat)
    requires i < |files| && j < |files| && i != j
    ensures MoveInto(files, i, j) != files ==>
      files[j].pos <= files[i].pos && files[j].size >= files[i].size &&
      MoveInto(files, i, j)[i] == files[i].(pos := files[j].pos)
  {
  }

  /** Sorted by position (the comparator `a.pos - b.pos`). */
  predicate SortedByPos(files: seq<File>)
  {
    forall a, b | 0 <= a < b < |files| :: files[a].pos <= files[b].pos
  }

  /** Insert after every entry at or before the same position, as a stable sort does. */
  function Insert(sorted: seq<File>, f: File): (r: seq<File>)
    ensures |r| == |sorted| + 1
  {
    if sorted == [] || sorted[|sorted| - 1].pos <= f.pos then sorted + [f]
    else Insert(sorted[..|sorted| - 1], f) + [sorted[|sorted| - 1]]
  }

  /** Inserting adds the entry and loses none. */
  lemma {:induction false} InsertPermutes(sorted: seq<File>, f: File)
    ensures multiset(Insert(sorted, f)) == multiset(sorted) + multiset{f}
  {
    if sorted != [] && sorted[|sorted| - 1].pos > f.pos {
      InsertPermutes(sorted[..|sorted| - 1], f);
      assert sorted == sorted[..|sorted| - 1] + [sorted[|sorted| - 1]];
    }
  }

  /** An upper bound on the positions of the list and the entry bounds the result. */
  lemma {:induction false} InsertUpperBound(sorted: seq<File>, f: File, hi: int)
    requires f.pos <= hi && forall k | 0 <= k < |sorted| :: sorted[k].pos <= hi
    ensures forall k | 0 <= k < |Insert(sorted, f)| :: Insert(sorted, f)[k].pos <= hi
  {
    if sorted != [] && sorted[|sorted| - 1].pos > f.pos {
      InsertUpperBound(sorted[..|sorted| - 1], f, hi);
    }
  }

  lemma {:induction false} InsertSorted(sorted: seq<File>, f: File)
    requires SortedByPos(sorted)
    ensures SortedByPos(Insert(sorted, f))
  {
    if sorted == [] {
    } else if sorted[|sorted| - 1].pos <= f.pos {
      var r := sorted + [f];
      forall a, b | 0 <= a < b < |r| ensures r[a].pos <= r[b].pos {
        if b < |sorted| {
          assert r[a] == sorted[a] && r[b] == sorted[b];
        } else {
          assert r[a].pos <= sorted[|sorted| - 1].pos;
        }
      }
    } else {
      var front := sorted[..|sorted| - 1];
      var last := sorted[|sorted| - 1];
      InsertSorted(front, f);
      InsertUpperBound(front, f, last.pos);
      var inner := Insert(front, f);
      var r := inner + [last];
      assert Insert(sorted, f) == r;
      forall a, b | 0 <= a < b < |r| ensures r[a].pos <= r[b].pos {
        assert r[a] == inner[a];
        if b < |inner| {
          assert r[b] == inner[b];
        }
      }
    }
  }

  /** The entries ordered by position (`sort((a, b) => a.pos - b.pos)`). */
  function SortByPos(files: seq<File>): (r: seq<File>)
    ensures |r| == |files|
  {
    if files == [] then []
    else Insert(SortByPos(files[..|files| - 1]), files[|files| - 1])
  }

  /** The sort loses and adds no entry. */
  lemma {:induction false} SortByPosPermutes(files: seq<File>)
    ensures multiset(SortByPos(files)) == multiset(files)
  {
    if files != [] {
      SortByPosPermutes(files[..|files| - 1]);
      InsertPermutes(SortByPos(files[..|files| - 1]), files[|files| - 1]);
      assert files == files[..|files| - 1] + [files[|files| - 1]];
    }
  }

  lemma {:induction false} SortByPosSorted(files: seq<File>)
    ensures SortedByPos(SortByPos(files))
  {
    if files != [] {
      SortByPosSorted(files[..|files| - 1]);
      InsertSorted(SortByPos(files[..|files| - 1]), files[|files| - 1]);
    }
  }

  /** `filter(f => f.size !== 0)`. */
  function NonEmpty(files: seq<File>): (r: seq<File>)
    ensures |r| <= |files|
    ensures forall k | 0 <= k < |r| :: r[k].size != 0
  {
    if files == [] then []
    else
      var rest := NonEmpty(files[..|files| - 1]);
      if files[|files| - 1].size != 0 then rest + [files[|files| - 1]] else rest
  }

  /** `compressFiles`: the entries after every move, without the empty ones, ordered by position. */
  function CompressedFiles(files: seq<File>): seq<File>
  {
    SortByPos(NonEmpty(MoveFrom(files, |files| - 1)))
  }

  /**
   * `compressFiles` over a copy of the entries: for each entry from the
   * last one down, every second index, the free spans at odd indices are
   * tried from the left.
   */
  method CompressFiles(files: seq<File>) returns (r: seq<File>)
    ensures r == CompressedFiles(files)
    ensures SortedByPos(r) && multiset(r) == multiset(NonEmpty(MoveFrom(files, |files| - 1)))
  {
    var compressed := new File[|files|](k requires 0 <= k < |files| => files[k]);
    assert compressed[..] == files;
    var i := compressed.Length - 1;
    while i >= 0
      invariant -2 <= i < compressed.Length
      invariant MoveFrom(compressed[..], i) == MoveFrom(files, |files| - 1)
      decreases i + 2
    {
      MoveAcrossSpans(compressed, i);
      i := i - 2;
    }
    r := SortByPos(NonEmpty(compressed[..]));
    SortByPosSorted(NonEmpty(compressed[..]));
    SortByPosPermutes(NonEmpty(compressed[..]));
  }

  /** The inner loop of `compressFiles`: entry `i` tried against the spans at indices 1, 3, 5, … */
  method MoveAcrossSpans(compressed: array<File>, i: nat)
    requires i < compressed.Length
    modifies compressed
    ensures compressed[..] == MoveAcross(old(compressed[..]), i, 1)
  {
    var j := 1;
    while j < compressed.Length
      invariant 1 <= j
      invariant MoveAcross(compressed[..], i, j) == MoveAcross(old(compressed[..]), i, 1)
      decreases compressed.Length - j
    {
      MoveEntry(compressed, i, j);
      j := j + 2;
    }
  }

  /** One step of the inner loop, in place. */
  method MoveEntry(compressed: array<File>, i: nat, j: nat)
    requires i < compressed.Length && j < compressed.Length
    modifies compressed
    ensures compressed[..] == MoveInto(old(compressed[..]), i, j)
  {
    var used := compressed[i];
    var free := compressed[j];
    if free.pos <= used.pos && free.size >= used.size {
      compressed[i] := used.(pos := free.pos);
      compressed[j] := free.(pos := free.pos + used.size, size := free.size - used.size);
    }
  }

  /** `(id × size × (2 × pos + size − 1)) / 2`, the closed form for one file; free spans count 0. */
  function FileTerm(f: File): int
  {
    if f.id.None? then 0 else (f.id.value * f.size * (2 * f.pos + f.size - 1)) / 2
  }

  /** Σ of the closed forms. */
  function FileSum(files: seq<File>): int
  {
    if files == [] then 0 else FileSum(files[..|files| - 1]) + FileTerm(files[|files| - 1])
  }

  /** `fileChecksum`. */
  method FileChecksum(files: seq<File>) returns (sum: int)
    ensures sum == FileSum(files)
  {
    sum := 0;
    var k := 0;
    while k < |files|
      invariant 0 <= k <= |files|
      invariant sum == FileSum(files[..k])
    {
      assert files[..k + 1][..k] == files[..k];
      var file := files[k];
      if file.id.Some? {
        sum := sum + (file.id.value * file.size * (2 * file.pos + file.size - 1)) / 2;
      }
      k := k + 1;
    }
    assert files[..k] == files;
  }

  /** The cells of one file: free space up to its position, then its id `size` times. */
  function FileCells(f: File): seq<Cell>
  {
    Repeat(None, f.pos) + Repeat(f.id, f.size)
  }

  lemma {:induction false} FileCellsStep(pos: nat, size: nat, id: nat)
    requires size > 0
    ensures BlockChecksum(FileCells(File(pos, size, Some(id)))) ==
      BlockChecksum(FileCells(File(pos, size - 1, Some(id)))) + id * (pos + size - 1)
  {
    var cells := FileCells(File(pos, size, Some(id)));
    assert cells[..|cells| - 1] == FileCells(File(pos, size - 1, Some(id)));
    assert cells[|cells| - 1] == Some(id);
  }

  /** The step of the closed form: size × (2 × pos + size − 1) grows by 2 × (pos + size − 1). */
  lemma ClosedFormStep(pos: nat, size: nat, id: nat)
    requires size > 0
    ensures id * (size * (2 * pos + size - 1)) ==
      id * ((size - 1) * (2 * pos + size - 2)) + 2 * (id * (pos + size - 1))
  {
    var q := size * (2 * pos + size - 1);
    var q' := (size - 1) * (2 * pos + size - 2);
    assert q == q' + 2 * (pos + size - 1);
    assert id * q == id * q' + id * (2 * (pos + size - 1));
  }

  /** Twice the per-cell sum of a file is id × size × (2 × pos + size − 1). */
  lemma {:induction false} FileCellsDouble(pos: nat, size: nat, id: nat)
    ensures 2 * BlockChecksum(FileCells(File(pos, size, Some(id)))) == id * (size * (2 * pos + size - 1))
  {
    if size == 0 {
      var cells := FileCells(File(pos, 0, Some(id)));
      assert cells == [] + Repeat(None, pos);
      TrailingFreeSpace([], pos);
      assert size * (2 * pos + size - 1) == 0;
    } else {
      FileCellsDouble(pos, size - 1, id);
      FileCellsStep(pos, size, id);
      ClosedFormStep(pos, size, id);
    }
  }

  /** The closed form of `fileChecksum` is exactly the block checksum of the file's own cells. */
  lemma FileTermMatchesCells(f: File)
    requires f.id.Some?
    ensures FileTerm(f) == BlockChecksum(FileCells(f))
  {
    FileCellsDouble(f.pos, f.size, f.id.value);
    MulAssociates(f.id.value, f.size, 2 * f.pos + f.size - 1);
  }

  /** Entries without cells add nothing, so dropping them keeps the checksum. */
  lemma {:induction false} NonEmptyKeepsSum(files: seq<File>)
    ensures FileSum(NonEmpty(files)) == FileSum(files)
  {
    if files != [] {
      NonEmptyKeepsSum(files[..|files| - 1]);
      var rest := NonEmpty(files[..|files| - 1]);
      if files[|files| - 1].size != 0 {
        assert (rest + [files[|files| - 1]])[..|rest|] == rest;
      }
    }
  }

  lemma {:induction false} InsertKeepsSum(sorted: seq<File>, f: File)
    ensures FileSum(Insert(sorted, f)) == FileSum(sorted) + FileTerm(f)
  {
    if sorted != [] && sorted[|sorted| - 1].pos > f.pos {
      InsertKeepsSum(sorted[..|sorted| - 1], f);
      var inner := Insert(sorted[..|sorted| - 1], f);
      assert (inner + [sorted[|sorted| - 1]])[..|inner|] == inner;
    } else {
      assert (sorted + [f])[..|sorted|] == sorted;
    }
  }

  /** The order of the entries does not change the checksum. */
  lemma {:induction false} SortKeepsSum(files: seq<File>)
    ensures FileSum(SortByPos(files)) == FileSum(files)
  {
    if files != [] {
      SortKeepsSum(files[..|files| - 1]);
      InsertKeepsSum(SortByPos(files[..|files| - 1]), files[|files| - 1]);
    }
  }

  /** The checksum of the compressed files is the checksum of the moved entries, before filtering and sorting. */
  lemma CompressedChecksum(files: seq<File>)
    ensures FileSum(CompressedFiles(files)) == FileSum(MoveFrom(files, |files| - 1))
  {
    SortKeepsSum(NonEmpty(MoveFrom(files, |files| - 1)));
    NonEmptyKeepsSum(MoveFrom(files, |files| - 1));
  }
}
