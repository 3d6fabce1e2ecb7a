/**
 * Binary Boarding: a boarding pass narrows the rows 0..127 with F/B and
 * the columns 0..7 with L/R, each letter keeping one half of the current
 * range; the seat ID is 8 × row + column.
 */
module BinaryBoarding {
  import opened Common
  import opened Bits

  /** Which half of a range a letter keeps: F and L the lower, B and R the upper. */
  datatype Half = Lower | Upper

  /** An inclusive range as JavaScript numbers; halving a range of odd size leaves fractions. */
  type Range = (real, real)

  /** The `rules` for one dimension: the midpoint is (hi − lo + 1) / 2 + lo. */
  function Narrow(r: Range, h: Half): Range
  {
    var (lo, hi) := r;
    match h
    case Lower => (lo, (hi - lo + 1.0) / 2.0 + lo - 1.0)
    case Upper => ((hi - lo + 1.0) / 2.0 + lo, hi)
  }

  /** One letter applied to both ranges; None for a letter `rules` has no entry for, where the call throws. */
  function Apply(c: char, rows: Range, cols: Range): Option<(Range, Range)>
  {
    if c == 'F' then Some((Narrow(rows, Lower), cols))
    else if c == 'B' then Some((Narrow(rows, Upper), cols))
    else if c == 'R' then Some((rows, Narrow(cols, Upper)))
    else if c == 'L' then Some((rows, Narrow(cols, Lower)))
    else None
  }

  /** The ranges after every letter of the pass, from rows [0, 127] and columns [0, 7]. */
  function Ranges(pass: string): Option<(Range, Range)>
  {
    if pass == [] then Some(((0.0, 127.0), (0.0, 7.0)))
    else
      match Ranges(pass[..|pass| - 1])
      case None => None
      case Some(rc) => Apply(pass[|pass| - 1], rc.0, rc.1)
  }

  function SeatIDSpec(pass: string): Option<real>
  {
    match Ranges(pass)
    case None => None
    case Some(rc) => Some(8.0 * rc.0.0 + rc.1.0)
  }

  /** `seatID`: the two ranges reassigned letter by letter. */
  method SeatID(pass: string) returns (id: Option<real>)
    ensures id == SeatIDSpec(pass)
  {
    var rows: Range := (0.0, 127.0);
    var cols: Range := (0.0, 7.0);
    var i := 0;
    while i < |pass|
      invariant 0 <= i <= |pass|
      invariant Ranges(pass[..i]) == Some((rows, cols))
    {
      assert pass[..i + 1][..i] == pass[..i];
      var next := Apply(pass[i], rows, cols);
      if next.None? {
        RangesFail(pass, i + 1);
        return None;
      }
      rows, cols := next.value.0, next.value.1;
      i := i + 1;
    }
    assert pass[..i] == pass;
    return Some(8.0 * rows.0 + cols.0);
  }

  /** A letter without a rule makes the whole pass throw. */
  lemma {:induction false} RangesFail(pass: string, n: nat)
    requires n <= |pass| && Ranges(pass[..n]).None?
    ensures Ranges(pass).None?
    decreases |pass| - n
  {
    if n < |pass| {
      assert pass[..n + 1][..n] == pass[..n];
      RangesFail(pass, n + 1);
    } else {
      assert pass[..n] == pass;
    }
  }

  /** The halves a pass picks in the rows (F/B letters) and in the columns (L/R letters). */
  function RowHalves(pass: string): seq<Half>
  {
    if pass == [] then []
    else
      var c := pass[|pass| - 1];
      RowHalves(pass[..|pass| - 1]) + (if c == 'F' then [Lower] else if c == 'B' then [Upper] else [])
  }

  function ColHalves(pass: string): seq<Half>
  {
    if pass == [] then []
    else
      var c := pass[|pass| - 1];
      ColHalves(pass[..|pass| - 1]) + (if c == 'L' then [Lower] else if c == 'R' then [Upper] else [])
  }

  /** The halves read as a binary number, most significant first, Upper = 1. */
  function Bin(hs: seq<Half>): (v: nat)
    ensures v < Pow2(|hs|)
  {
    if hs == [] then 0 else 2 * Bin(hs[..|hs| - 1]) + (if hs[|hs| - 1] == Upper then 1 else 0)
  }

  /** The halves applied one after another to one range. */
  function NarrowAll(r: Range, hs: seq<Half>): Range
  {
    if hs == [] then r else Narrow(NarrowAll(r, hs[..|hs| - 1]), hs[|hs| - 1])
  }

  predicate IsRowLetter(c: char) { c == 'F' || c == 'B' }

  predicate IsColLetter(c: char) { c == 'L' || c == 'R' }

  predicate ValidLetters(pass: string)
  {
    forall i | 0 <= i < |pass| :: IsRowLetter(pass[i]) || IsColLetter(pass[i])
  }

  lemma ValidLettersSnoc(pass: string)
    requires pass != []
    ensures var c := pass[|pass| - 1];
      ValidLetters(pass) <==> ValidLetters(pass[..|pass| - 1]) && (IsRowLetter(c) || IsColLetter(c))
  {
    assert forall i | 0 <= i < |pass| - 1 :: pass[..|pass| - 1][i] == pass[i];
  }

  /** A pass has ranges exactly when every letter has a rule. */
  lemma {:induction false} RangesDefined(pass: string)
    ensures ValidLetters(pass) <==> Ranges(pass).Some?
  {
    if pass != [] {
      RangesDefined(pass[..|pass| - 1]);
      ValidLettersSnoc(pass);
    }
  }

  /** Row letters narrow only the rows and column letters only the columns, in any interleaving. */
  lemma {:induction false} RangesSplit(pass: string)
    requires ValidLetters(pass)
    ensures Ranges(pass) == Some((NarrowAll((0.0, 127.0), RowHalves(pass)), NarrowAll((0.0, 7.0), ColHalves(pass))))
  {
    if pass != [] {
      var init := pass[..|pass| - 1];
      ValidLettersSnoc(pass);
      RangesSplit(init);
      var c := pass[|pass| - 1];
      var rh, ch := RowHalves(init), ColHalves(init);
      var rows, cols := NarrowAll((0.0, 127.0), rh), NarrowAll((0.0, 7.0), ch);
      assert Ranges(pass) == Apply(c, rows, cols);
      if IsRowLetter(c) {
        var h := if c == 'F' then Lower else Upper;
        assert RowHalves(pass) == rh + [h] && ColHalves(pass) == ch;
        assert (rh + [h])[..|rh|] == rh;
        assert NarrowAll((0.0, 127.0), rh + [h]) == Narrow(rows, h);
      } else {
        var h := if c == 'L' then Lower else Upper;
        assert ColHalves(pass) == ch + [h] && RowHalves(pass) == rh;
        assert (ch + [h])[..|ch|] == ch;
        assert NarrowAll((0.0, 7.0), ch + [h]) == Narrow(cols, h);
      }
    }
  }

  /** The start of the block the halves select within 2^m seats: each Upper skips the lower half of the current block. */
  function BlockStart(hs: seq<Half>, m: nat): nat
    requires |hs| <= m
  {
    if hs == [] then 0
    else BlockStart(hs[..|hs| - 1], m) + (if hs[|hs| - 1] == Upper then Pow2(m - |hs|) else 0)
  }

  /** Halving a range of 2^m seats k ≤ m times keeps a block of 2^(m−k) seats. */
  lemma {:induction false} NarrowBlock(l: real, m: nat, hs: seq<Half>)
    requires |hs| <= m
    ensures NarrowAll((l, l + Pow2(m) as real - 1.0), hs) ==
      (l + BlockStart(hs, m) as real, l + (BlockStart(hs, m) + Pow2(m - |hs|)) as real - 1.0)
  {
    if hs != [] {
      var init := hs[..|hs| - 1];
      NarrowBlock(l, m, init);
      var p := Pow2(m - |hs|);
      assert Pow2(m - |init|) == 2 * p;
      var lo := l + BlockStart(init, m) as real;
      var hi := l + (BlockStart(init, m) + 2 * p) as real - 1.0;
      assert (hi - lo + 1.0) / 2.0 == p as real;
    }
  }

  /** The block start is the halves read in binary, times the block size. */
  lemma {:induction false} BlockStartIsBin(hs: seq<Half>, m: nat)
    requires |hs| <= m
    ensures BlockStart(hs, m) == Bin(hs) * Pow2(m - |hs|)
  {
    if hs != [] {
      var init := hs[..|hs| - 1];
      BlockStartIsBin(init, m);
      var p := Pow2(m - |hs|);
      assert Pow2(m - |init|) == 2 * p;
      HalvingProducts(Bin(init), p);
    }
  }

  /** Halving a range of 2^m seats k ≤ m times keeps the block of 2^(m−k) seats the halves name in binary. */
  lemma NarrowMeaning(l: real, m: nat, hs: seq<Half>)
    requires |hs| <= m
    ensures NarrowAll((l, l + Pow2(m) as real - 1.0), hs) ==
      (l + (Bin(hs) * Pow2(m - |hs|)) as real, l + ((Bin(hs) + 1) * Pow2(m - |hs|)) as real - 1.0)
  {
    NarrowBlock(l, m, hs);
    BlockStartIsBin(hs, m);
    HalvingProducts(Bin(hs), Pow2(m - |hs|));
  }

  /** The products met when a block of 2p seats starting at block b is halved. */
  lemma HalvingProducts(b: int, p: int)
    ensures b * (2 * p) == 2 * (b * p) && (b + 1) * (2 * p) == 2 * (b * p) + 2 * p
    ensures (2 * b) * p == 2 * (b * p) && (2 * b + 1) * p == 2 * (b * p) + p
    ensures (2 * b + 1 + 1) * p == 2 * (b * p) + 2 * p
    ensures (b + 1) * p == b * p + p
  {
  }

  /** A pass with seven row letters and three column letters in any order names seat 8 × row + column, row and column read in binary. */
  lemma SeatIDIsBinary(pass: string)
    requires ValidLetters(pass) && |RowHalves(pass)| == 7 && |ColHalves(pass)| == 3
    ensures SeatIDSpec(pass) == Some((8 * Bin(RowHalves(pass)) + Bin(ColHalves(pass))) as real)
    ensures 0 <= Bin(RowHalves(pass)) < 128 && 0 <= Bin(ColHalves(pass)) < 8
  {
    RangesSplit(pass);
    NarrowMeaning(0.0, 7, RowHalves(pass));
    NarrowMeaning(0.0, 3, ColHalves(pass));
    assert Pow2(0) == 1;
    assert Pow2(3) == 8 && Pow2(7) == 128;
  }

  /** The binary value of a concatenation. */
  lemma {:induction false} BinAppend(a: seq<Half>, b: seq<Half>)
    ensures Bin(a + b) == Bin(a) * Pow2(|b|) + Bin(b)
  {
    if b == [] {
      assert a + b == a;
    } else {
      var b' := b[..|b| - 1];
      assert (a + b)[..|a + b| - 1] == a + b';
      BinAppend(a, b');
      var bit := if b[|b| - 1] == Upper then 1 else 0;
      assert Bin(a + b) == 2 * (Bin(a) * Pow2(|b'|) + Bin(b')) + bit;
      assert Pow2(|b|) == 2 * Pow2(|b'|);
      Double(Bin(a), Pow2(|b'|));
    }
  }

  lemma Double(x: int, y: int)
    ensures x * (2 * y) == 2 * (x * y)
  {
  }

  /** The halves of every letter, rows and columns alike. */
  function Halves(pass: string): (hs: seq<Half>)
    ensures |hs| == |pass|
    ensures forall i | 0 <= i < |pass| :: hs[i] == if pass[i] == 'B' || pass[i] == 'R' then Upper else Lower
  {
    if pass == [] then []
    else Halves(pass[..|pass| - 1]) + [if pass[|pass| - 1] == 'B' || pass[|pass| - 1] == 'R' then Upper else Lower]
  }

  /** For letters of one kind, the halves of the pass are the halves of that dimension. */
  lemma {:induction false} HalvesOfRows(pass: string, rows: bool)
    requires forall i | 0 <= i < |pass| :: if rows then IsRowLetter(pass[i]) else IsColLetter(pass[i])
    ensures Halves(pass) == (if rows then RowHalves(pass) else ColHalves(pass))
    ensures (if rows then ColHalves(pass) else RowHalves(pass)) == []
  {
    if pass != [] {
      var init := pass[..|pass| - 1];
      assert forall i | 0 <= i < |init| :: init[i] == pass[i];
      HalvesOfRows(init, rows);
    }
  }

  lemma {:induction false} HalvesAppend(a: string, b: string)
    ensures Halves(a + b) == Halves(a) + Halves(b)
    ensures RowHalves(a + b) == RowHalves(a) + RowHalves(b)
    ensures ColHalves(a + b) == ColHalves(a) + ColHalves(b)
  {
    if b == [] {
      assert a + b == a;
    } else {
      assert (a + b)[..|a + b| - 1] == a + b[..|b| - 1];
      HalvesAppend(a, b[..|b| - 1]);
    }
  }

  /** In a pass of row letters then column letters, each dimension's halves are those of its part. */
  lemma CanonicalHalves(rowPart: string, colPart: string)
    requires forall i | 0 <= i < |rowPart| :: IsRowLetter(rowPart[i])
    requires forall i | 0 <= i < |colPart| :: IsColLetter(colPart[i])
    ensures ValidLetters(rowPart + colPart)
    ensures RowHalves(rowPart + colPart) == Halves(rowPart)
    ensures ColHalves(rowPart + colPart) == Halves(colPart)
    ensures Halves(rowPart + colPart) == Halves(rowPart) + Halves(colPart)
  {
    var pass := rowPart + colPart;
    HalvesOfRows(rowPart, true);
    HalvesOfRows(colPart, false);
    HalvesAppend(rowPart, colPart);
    assert RowHalves(pass) == Halves(rowPart) + [];
    assert ColHalves(pass) == [] + Halves(colPart);
    forall i | 0 <= i < |pass| ensures IsRowLetter(pass[i]) || IsColLetter(pass[i]) {
      if i < |rowPart| { assert pass[i] == rowPart[i]; } else { assert pass[i] == colPart[i - |rowPart|]; }
    }
  }

  /** Seven F/B letters followed by three L/R letters: the seat ID is the whole pass read in binary with B and R as 1. */
  lemma CanonicalPassIsBinary(rowPart: string, colPart: string)
    requires |rowPart| == 7 && forall i | 0 <= i < 7 :: IsRowLetter(rowPart[i])
    requires |colPart| == 3 && forall i | 0 <= i < 3 :: IsColLetter(colPart[i])
    ensures SeatIDSpec(rowPart + colPart) == Some(Bin(Halves(rowPart + colPart)) as real)
  {
    CanonicalHalves(rowPart, colPart);
    var rh, ch := Halves(rowPart), Halves(colPart);
    SeatIDIsBinary(rowPart + colPart);
    BinThreeLow(rh, ch);
  }

  /** Appending three bits multiplies by 8 and adds them. */
  lemma BinThreeLow(a: seq<Half>, b: seq<Half>)
    requires |b| == 3
    ensures Bin(a + b) == 8 * Bin(a) + Bin(b)
  {
    BinAppend(a, b);
    assert Pow2(|b|) == 8;
  }

  /** The puzzle's example FBFBBFFRLR is row 44, column 5, seat 357. */
  lemma ExamplePass()
    ensures SeatIDSpec("FBFBBFFRLR") == Some(357.0)
  {
    CanonicalPassIsBinary("FBFBBFF", "RLR");
    assert "FBFBBFF" + "RLR" == "FBFBBFFRLR";
    var hs := Halves("FBFBBFFRLR");
    assert hs == [Lower, Upper, Lower, Upper, Upper, Lower, Lower, Upper, Lower, Upper];
    assert Bin(hs[..1]) == 0 by { assert hs[..1][..0] == []; }
    assert Bin(hs[..2]) == 1 by { assert hs[..2][..1] == hs[..1]; }
    assert Bin(hs[..3]) == 2 by { assert hs[..3][..2] == hs[..2]; }
    assert Bin(hs[..4]) == 5 by { assert hs[..4][..3] == hs[..3]; }
    assert Bin(hs[..5]) == 11 by { assert hs[..5][..4] == hs[..4]; }
    assert Bin(hs[..6]) == 22 by { assert hs[..6][..5] == hs[..5]; }
    assert Bin(hs[..7]) == 44 by { assert hs[..7][..6] == hs[..6]; }
    assert Bin(hs[..8]) == 89 by { assert hs[..8][..7] == hs[..7]; }
    assert Bin(hs[..9]) == 178 by { assert hs[..9][..8] == hs[..8]; }
    assert Bin(hs) == 357 by { assert hs[..9] == hs[..|hs| - 1]; }
  }

  /** The seat IDs of the passes, in order; None when one of them throws. */
  function SeatIDs(passes: seq<string>): (ids: Option<seq<real>>)
    ensures ids.Some? ==> |ids.value| == |passes|
    ensures ids.Some? ==> forall i | 0 <= i < |passes| :: SeatIDSpec(passes[i]) == Some(ids.value[i])
  {
    if passes == [] then Some([])
    else
      match (SeatIDs(passes[..|passes| - 1]), SeatIDSpec(passes[|passes| - 1]))
      case (Some(ids), Some(id)) => Some(ids + [id])
      case _ => None
  }

  /** The larger of the running maximum and an ID, as the `reduce` of `maxSeatID` keeps it. */
  function MaxOf(ids: seq<real>): real
  {
    if ids == [] then 0.0
    else var m := MaxOf(ids[..|ids| - 1]); var id := ids[|ids| - 1]; if id > m then id else m
  }

  /** `maxSeatID`. */
  function MaxSeatID(passes: seq<string>): Option<real>
  {
    match SeatIDs(passes)
    case None => None
    case Some(ids) => Some(MaxOf(ids))
  }

  /** The maximum is at least 0 and every ID, and it is 0 or one of the IDs. */
  lemma {:induction false} MaxOfMeaning(ids: seq<real>)
    ensures MaxOf(ids) >= 0.0
    ensures forall i | 0 <= i < |ids| :: ids[i] <= MaxOf(ids)
    ensures MaxOf(ids) == 0.0 || exists i :: 0 <= i < |ids| && ids[i] == MaxOf(ids)
  {
    if ids != [] {
      var init := ids[..|ids| - 1];
      MaxOfMeaning(init);
      if MaxOf(ids) != 0.0 && MaxOf(ids) == MaxOf(init) {
        var i :| 0 <= i < |init| && init[i] == MaxOf(init);
        assert ids[i] == MaxOf(ids);
      }
      if MaxOf(ids) == ids[|ids| - 1] {
        assert ids[|ids| - 1] == MaxOf(ids);
      }
    }
  }

  /** `maxSeatID` of passes with valid IDs is their largest ID, or 0 when there are none or all are negative. */
  lemma MaxSeatIDMeaning(passes: seq<string>)
    requires SeatIDs(passes).Some?
    ensures MaxSeatID(passes).Some?
    ensures forall i | 0 <= i < |passes| :: SeatIDSpec(passes[i]).value <= MaxSeatID(passes).value
    ensures MaxSeatID(passes).value == 0.0 || exists i :: 0 <= i < |passes| && SeatIDSpec(passes[i]) == MaxSeatID(passes)
  {
    MaxOfMeaning(SeatIDs(passes).value);
  }

  predicate Ascending(s: seq<real>)
  {
    forall i, j | 0 <= i < j < |s| :: s[i] <= s[j]
  }

  /** Inserts x before the first element larger than it. */
  function Insert(x: real, s: seq<real>): seq<real>
  {
    if s == [] || x <= s[0] then [x] + s else [s[0]] + Insert(x, s[1..])
  }

  /** The numeric `sort` of `findMySeatID`, as an insertion sort. */
  function Sort(s: seq<real>): seq<real>
  {
    if s == [] then [] else Insert(s[0], Sort(s[1..]))
  }

  /** Inserting adds x once and keeps every other element. */
  lemma {:induction false} InsertPermutes(x: real, s: seq<real>)
    ensures multiset(Insert(x, s)) == multiset(s) + multiset{x}
    ensures |Insert(x, s)| == |s| + 1
    ensures forall y :: y in Insert(x, s) <==> y == x || y in s
  {
    if s != [] && x > s[0] {
      InsertPermutes(x, s[1..]);
      assert s == [s[0]] + s[1..];
    }
  }

  lemma {:induction false} InsertSorted(x: real, s: seq<real>)
    requires Ascending(s)
    ensures Ascending(Insert(x, s))
  {
    if s != [] && x > s[0] {
      InsertSorted(x, s[1..]);
      InsertPermutes(x, s[1..]);
      var r := Insert(x, s[1..]);
      forall k | 0 <= k < |r| ensures s[0] <= r[k] {
        if r[k] != x {
          assert r[k] in s[1..];
        }
      }
      assert Insert(x, s) == [s[0]] + r;
    }
  }

  /** Sorting yields an ascending permutation. */
  lemma {:induction false} SortSorted(s: seq<real>)
    ensures Ascending(Sort(s))
    ensures multiset(Sort(s)) == multiset(s)
    ensures |Sort(s)| == |s|
  {
    if s != [] {
      SortSorted(s[1..]);
      InsertSorted(s[0], Sort(s[1..]));
      InsertPermutes(s[0], Sort(s[1..]));
      assert s == [s[0]] + s[1..];
    }
  }

  /** The index `find` stops at: the first whose successor is not one more; the last when none stops earlier. */
  function FirstGap(s: seq<real>, i: nat): (k: nat)
    requires i < |s|
    ensures i <= k < |s|
    ensures k + 1 == |s| || s[k] + 1.0 != s[k + 1]
    ensures forall j | i <= j < k :: s[j] + 1.0 == s[j + 1]
    decreases |s| - i
  {
    if i + 1 == |s| || s[i] + 1.0 != s[i + 1] then i else FirstGap(s, i + 1)
  }

  /** What `findMySeatID` computes from the IDs: one past the first sorted ID whose successor is not one more. */
  function MySeat(ids: seq<real>): Option<real>
  {
    var s := Sort(ids);
    SortSorted(ids);
    if s == [] then None else Some(s[FirstGap(s, 0)] + 1.0)
  }

  /** `findMySeatID`: None for no passes, where `find` gives undefined and the answer is NaN. */
  function FindMySeatID(passes: seq<string>): Option<real>
  {
    match SeatIDs(passes)
    case None => None
    case Some(ids) => MySeat(ids)
  }

  predicate Integral(x: real)
  {
    x.Floor as real == x
  }

  /** In strictly ascending whole numbers, one past the first gap is missing, and every number from the first up to it is present. */
  lemma GapMeaning(s: seq<real>)
    requires s != []
    requires forall i, j | 0 <= i < j < |s| :: s[i] < s[j]
    requires forall i | 0 <= i < |s| :: Integral(s[i])
    ensures var r := s[FirstGap(s, 0)] + 1.0;
      r !in s && (r - 1.0) in s && forall x | s[0] <= x < r && Integral(x) :: x in s
  {
    var k := FirstGap(s, 0);
    var r := s[k] + 1.0;
    forall j | 0 <= j < |s| ensures s[j] != r {
      if j > k {
        IntegralStep(s[k], s[k + 1]);
        assert s[j] >= s[k + 1];
      }
    }
    ContiguousRun(s, k);
    forall x | s[0] <= x < r && Integral(x) ensures x in s {
      var n := x.Floor - s[0].Floor;
      assert 0 <= n <= k;
      assert s[n] == s[0] + n as real;
    }
  }

  /**
   * For distinct whole-numbered IDs, the answer r is missing, r − 1 is
   * present, and so is every whole number from any ID up to r − 1.
   */
  lemma MySeatMeaning(ids: seq<real>)
    requires ids != []
    requires forall i, j | 0 <= i < j < |ids| :: ids[i] != ids[j]
    requires forall i | 0 <= i < |ids| :: Integral(ids[i])
    ensures MySeat(ids).Some?
    ensures var r := MySeat(ids).value;
      r !in ids && (r - 1.0) in ids &&
      forall x, y | y in ids && y <= x < r && Integral(x) :: x in ids
  {
    var s := Sort(ids);
    SortedDistinct(ids);
    GapMeaning(s);
  }

  /** Distinct whole-numbered IDs sort into strictly ascending whole numbers with the same elements, the smallest first. */
  lemma SortedDistinct(ids: seq<real>)
    requires forall i, j | 0 <= i < j < |ids| :: ids[i] != ids[j]
    requires forall i | 0 <= i < |ids| :: Integral(ids[i])
    ensures |Sort(ids)| == |ids|
    ensures forall x :: x in Sort(ids) <==> x in ids
    ensures forall i, j | 0 <= i < j < |Sort(ids)| :: Sort(ids)[i] < Sort(ids)[j]
    ensures forall i | 0 <= i < |Sort(ids)| :: Integral(Sort(ids)[i])
    ensures ids != [] ==> forall x | x in ids :: Sort(ids)[0] <= x
  {
    var s := Sort(ids);
    SortSorted(ids);
    forall x ensures x in s <==> x in ids {
      assert x in s <==> x in multiset(s);
      assert x in ids <==> x in multiset(ids);
    }
    StrictlyAscending(ids, s);
    if ids != [] {
      forall x | x in ids ensures s[0] <= x {
        var j :| 0 <= j < |s| && s[j] == x;
      }
    }
  }

  /** `findMySeatID` on passes with distinct whole-numbered IDs finds the first missing seat above a run of present ones. */
  lemma FindMySeatIDMeaning(passes: seq<string>)
    requires SeatIDs(passes).Some? && passes != []
    requires var ids := SeatIDs(passes).value;
      forall i, j | 0 <= i < j < |ids| :: ids[i] != ids[j]
    requires forall i | 0 <= i < |passes| :: Integral(SeatIDs(passes).value[i])
    ensures FindMySeatID(passes) == MySeat(SeatIDs(passes).value)
    ensures FindMySeatID(passes).Some? && FindMySeatID(passes).value !in SeatIDs(passes).value
  {
    MySeatMeaning(SeatIDs(passes).value);
  }

  /** Distinct IDs sort strictly ascending, and the sorted IDs are whole numbers too. */
  lemma StrictlyAscending(ids: seq<real>, s: seq<real>)
    requires forall i, j | 0 <= i < j < |ids| :: ids[i] != ids[j]
    requires forall i | 0 <= i < |ids| :: Integral(ids[i])
    requires Ascending(s) && multiset(s) == multiset(ids)
    ensures forall i, j | 0 <= i < j < |s| :: s[i] < s[j]
    ensures forall i | 0 <= i < |s| :: Integral(s[i])
  {
    forall i | 0 <= i < |s| ensures Integral(s[i]) && multiset(s)[s[i]] == 1 {
      assert s[i] in multiset(ids);
      var j :| 0 <= j < |ids| && ids[j] == s[i];
      DistinctOnce(ids, j);
    }
    forall i, j | 0 <= i < j < |s| ensures s[i] < s[j] {
      if s[i] == s[j] {
        TwiceCounted(s, i, j);
      }
    }
  }

  lemma {:induction false} DistinctOnce(ids: seq<real>, j: nat)
    requires j < |ids|
    requires forall a, b | 0 <= a < b < |ids| :: ids[a] != ids[b]
    ensures multiset(ids)[ids[j]] == 1
  {
    var init := ids[..|ids| - 1];
    assert ids == init + [ids[|ids| - 1]];
    if j < |ids| - 1 {
      DistinctOnce(init, j);
      assert init[j] == ids[j];
    } else {
      assert ids[j] !in init;
    }
  }

  lemma TwiceCounted(s: seq<real>, i: nat, j: nat)
    requires i < j < |s| && s[i] == s[j]
    ensures multiset(s)[s[i]] >= 2
  {
    assert s == s[..j] + [s[j]] + s[j + 1..];
    assert s[i] in s[..j];
    assert multiset(s) == multiset(s[..j]) + multiset{s[j]} + multiset(s[j + 1..]);
  }

  /** Whole numbers above x are at least x + 1. */
  lemma IntegralStep(x: real, y: real)
    requires Integral(x) && Integral(y) && x < y
    ensures y >= x + 1.0
  {
    assert x.Floor < y.Floor;
  }

  /** Before the first gap, the sorted IDs count up by one from the smallest. */
  lemma {:induction false} ContiguousRun(s: seq<real>, k: nat)
    requires k < |s|
    requires forall j | 0 <= j < k :: s[j] + 1.0 == s[j + 1]
    ensures forall n | 0 <= n <= k :: s[n] == s[0] + n as real
  {
    if k > 0 {
      ContiguousRun(s, k - 1);
      assert s[k] == s[k - 1] + 1.0;
      assert s[0] + (k - 1) as real + 1.0 == s[0] + k as real;
    }
  }
}
