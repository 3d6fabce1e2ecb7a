/**
 * Code Chronicle (2024, day 25): locks and keys are drawn as grids of '#'
 * and '.'; a column's height is its number of '#' cells less one, and a
 * lock fits a key when no column's heights add up to more than 5.
 */
module CodeChronicle {
  datatype Schematic = Schematic(heights: seq<int>, isLock: bool)

  /** The most a lock pin and a key tooth may add up to in one column. */
  const MaxCombined := 5

  /** How many of the rows have '#' in column `i`; a row too short for the column has none there. */
  function Hashes(rows: seq<string>, i: nat): (n: nat)
    ensures n <= |rows|
  {
    if rows == [] then 0
    else
      var last := rows[|rows| - 1];
      Hashes(rows[..|rows| - 1], i) + (if i < |last| && last[i] == '#' then 1 else 0)
  }

  /** Rows of a well-formed schematic are no wider than its first row. */
  predicate WellFormed(raw: seq<string>)
  {
    |raw| > 0 && forall r | 0 <= r < |raw| :: |raw[r]| <= |raw[0]|
  }

  /**
   * `parseSchematic`: one height per column of the first row, starting at
   * -1 and counting every '#' in that column; a lock's first row starts
   * with '#'.
   */
  method ParseSchematic(raw: seq<string>) returns (s: Schematic)
    requires WellFormed(raw)
    ensures |s.heights| == |raw[0]|
    ensures forall c | 0 <= c < |raw[0]| :: s.heights[c] == Hashes(raw, c) - 1
    ensures s.isLock <==> |raw[0]| > 0 && raw[0][0] == '#'
  {
    var width := |raw[0]|;
    var heights := new int[width](_ => -1);
    var r := 0;
    while r < |raw|
      invariant 0 <= r <= |raw|
      invariant forall c | 0 <= c < width :: heights[c] == Hashes(raw[..r], c) - 1
    {
      var row := raw[r];
      assert raw[..r + 1][..r] == raw[..r];
      var i := 0;
      while i < |row|
        invariant 0 <= i <= |row| <= width
        invariant forall c | 0 <= c < i :: heights[c] == Hashes(raw[..r + 1], c) - 1
        invariant forall c | i <= c < width :: heights[c] == Hashes(raw[..r], c) - 1
      {
        if row[i] == '#' {
          heights[i] := heights[i] + 1;
        }
        i := i + 1;
      }
      r := r + 1;
    }
    assert raw[..r] == raw;
    s := Schematic(heights[..], width > 0 && raw[0][0] == '#');
  }

  /** Every height lies between -1 and one less than the number of rows. */
  lemma HeightBounds(raw: seq<string>, s: Schematic)
    requires WellFormed(raw)
    requires |s.heights| == |raw[0]|
    requires forall c | 0 <= c < |raw[0]| :: s.heights[c] == Hashes(raw, c) - 1
    ensures forall c | 0 <= c < |s.heights| :: -1 <= s.heights[c] <= |raw| - 1
  {
  }

  /** A column that is '#' in every row has height one less than the number of rows. */
  lemma {:induction false} FullColumn(rows: seq<string>, i: nat)
    requires forall r | 0 <= r < |rows| :: i < |rows[r]| && rows[r][i] == '#'
    ensures Hashes(rows, i) == |rows|
  {
    if rows != [] {
      FullColumn(rows[..|rows| - 1], i);
    }
  }

  /** `lH.every((h, i) => h + kH[i] <= 5)`: a key shorter than the lock leaves `undefined`, which never fits. */
  predicate Fits(lock: seq<int>, key: seq<int>)
  {
    forall i | 0 <= i < |lock| :: i < |key| && lock[i] + key[i] <= MaxCombined
  }

  /** For equally wide heights fitting is symmetric. */
  lemma FitsSymmetric(lock: seq<int>, key: seq<int>)
    requires |lock| == |key|
    ensures Fits(lock, key) <==> Fits(key, lock)
  {
  }

  /** The schematics that are locks (`isLock`) or keys (`!isLock`), in order. */
  function Filter(schematics: seq<Schematic>, locks: bool): (r: seq<Schematic>)
    ensures |r| <= |schematics|
    ensures forall x | x in r :: x in schematics && x.isLock == locks
  {
    if schematics == [] then []
    else
      var rest := Filter(schematics[1..], locks);
      if schematics[0].isLock == locks then [schematics[0]] + rest else rest
  }

  /** Every lock and every key ends up on exactly one side. */
  lemma {:induction false} FilterSplits(schematics: seq<Schematic>)
    ensures |Filter(schematics, true)| + |Filter(schematics, false)| == |schematics|
  {
    if schematics != [] {
      FilterSplits(schematics[1..]);
    }
  }

  /** How many keys one lock fits. */
  function KeysFitting(lock: Schematic, keys: seq<Schematic>): (n: nat)
    ensures n <= |keys|
  {
    if keys == [] then 0
    else KeysFitting(lock, keys[..|keys| - 1]) + (if Fits(lock.heights, keys[|keys| - 1].heights) then 1 else 0)
  }

  /** How many lock and key pairs fit. */
  function FittingPairs(locks: seq<Schematic>, keys: seq<Schematic>): nat
  {
    if locks == [] then 0
    else FittingPairs(locks[..|locks| - 1], keys) + KeysFitting(locks[|locks| - 1], keys)
  }

  /** At most every lock fits every key. */
  lemma {:induction false} FittingPairsBound(locks: seq<Schematic>, keys: seq<Schematic>)
    ensures FittingPairs(locks, keys) <= |locks| * |keys|
  {
    if locks != [] {
      FittingPairsBound(locks[..|locks| - 1], keys);
      assert |locks| * |keys| == (|locks| - 1) * |keys| + |keys|;
    }
  }

  /** Each key fits each lock when all heights are 0. */
  lemma {:induction false} FlatPairsAllFit(locks: seq<Schematic>, keys: seq<Schematic>, width: nat)
    requires forall l | l in locks :: l.heights == seq(width, _ => 0)
    requires forall k | k in keys :: k.heights == seq(width, _ => 0)
    ensures FittingPairs(locks, keys) == |locks| * |keys|
  {
    if locks != [] {
      FlatPairsAllFit(locks[..|locks| - 1], keys, width);
      AllKeysFit(locks[|locks| - 1], keys, width);
      assert |locks| * |keys| == (|locks| - 1) * |keys| + |keys|;
    }
  }

  lemma {:induction false} AllKeysFit(lock: Schematic, keys: seq<Schematic>, width: nat)
    requires lock.heights == seq(width, _ => 0)
    requires forall k | k in keys :: k.heights == seq(width, _ => 0)
    ensures KeysFitting(lock, keys) == |keys|
  {
    if keys != [] {
      AllKeysFit(lock, keys[..|keys| - 1], width);
      assert keys[|keys| - 1] in keys;
    }
  }

  /** `countFittingPairs`: every lock against every key, both in input order. */
  method CountFittingPairs(schematics: seq<Schematic>) returns (fits: nat)
    ensures fits == FittingPairs(Filter(schematics, true), Filter(schematics, false))
    ensures fits <= |Filter(schematics, true)| * |Filter(schematics, false)|
  {
    var locks := Filter(schematics, true);
    var keys := Filter(schematics, false);
    fits := 0;
    var l := 0;
    while l < |locks|
      invariant 0 <= l <= |locks|
      invariant fits == FittingPairs(locks[..l], keys)
    {
      var lH := locks[l].heights;
      assert locks[..l + 1][..l] == locks[..l];
      var k := 0;
      var before := fits;
      while k < |keys|
        invariant 0 <= k <= |keys|
        invariant fits == before + KeysFitting(locks[l], keys[..k])
      {
        var kH := keys[k].heights;
        assert keys[..k + 1][..k] == keys[..k];
        if Fits(lH, kH) {
          fits := fits + 1;
        }
        k := k + 1;
      }
      assert keys[..k] == keys;
      l := l + 1;
    }
    assert locks[..l] == locks;
    FittingPairsBound(locks, keys);
  }
}
