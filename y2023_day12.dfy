/**
 * Hot Springs (2023, day 12): a row of springs is written with '#' (damaged),
 * '.' (operational) and '?' (unknown); the counts list the lengths of the
 * runs of damaged springs in order. The answer is the number of ways to fill
 * in the unknowns.
 */
module HotSprings {
  import opened Common
  import opened Bits

  /** `/^[^#]+$/` on a non-empty pattern: no damaged spring. */
  predicate NoHash(p: string)
  {
    forall i | 0 <= i < |p| :: p[i] != '#'
  }

  /** The sum of the counts, read from the front. */
  function Total(counts: seq<nat>): (t: nat)
    ensures counts != [] ==> t >= counts[0]
  {
    if counts == [] then 0 else counts[0] + Total(counts[1..])
  }

  /** Anything but '#' and '.' is unknown. */
  predicate Unknown(c: char)
  {
    c != '#' && c != '.'
  }

  function Measure(pattern: string): nat
  {
    if pattern != [] && Unknown(pattern[0]) then 1 else 0
  }

  /**
   * `countPossibilites`, check by check: the empty pattern, no counts left,
   * too little pattern for the runs and their gaps, a leading '.', a leading
   * '#' run that must be exactly `counts[0]` long, and a leading '?' that is
   * tried as '#' and as '.'. An arrangement exists only when the runs and
   * the gaps between them fit the row, and, when there is a run to place,
   * some spring of the row is not known to be operational.
   */
  function Arrangements(pattern: string, counts: seq<nat>): (r: nat)
    ensures r > 0 ==> Total(counts) + |counts| <= |pattern| + 1
    ensures r > 0 && |counts| > 0 ==> exists i | 0 <= i < |pattern| :: pattern[i] != '.'
    decreases |pattern|, Measure(pattern)
  {
    if |pattern| == 0 then (if |counts| == 0 then 1 else 0)
    else if |counts| == 0 then (if NoHash(pattern) then 1 else 0)
    else if |pattern| < Total(counts) + (|counts| - 1) then 0
    else if pattern[0] == '.' then Arrangements(pattern[1..], counts)
    else if pattern[0] == '#' then
      var firstCount := counts[0];
      if exists i | 0 <= i < firstCount :: pattern[i] == '.' then 0
      else if firstCount < |pattern| && pattern[firstCount] == '#' then 0
      else Arrangements(if firstCount + 1 <= |pattern| then pattern[firstCount + 1..] else "", counts[1..])
    else
      Arrangements(['#'] + pattern[1..], counts) + Arrangements(['.'] + pattern[1..], counts)
  }

  /** The recursion with the '#' branch's scan written as the source's loop. */
  method CountPossibilities(pattern: string, counts: seq<nat>) returns (r: nat)
    ensures r == Arrangements(pattern, counts)
    decreases |pattern|, Measure(pattern)
  {
    if |pattern| == 0 {
      return if |counts| == 0 then 1 else 0;
    }
    if |counts| == 0 {
      return if NoHash(pattern) then 1 else 0;
    }
    if |pattern| < Total(counts) + (|counts| - 1) {
      return 0;
    }
    if pattern[0] == '.' {
      r := CountPossibilities(pattern[1..], counts);
      return;
    }
    if pattern[0] == '#' {
      var firstCount := counts[0];
      for i := 0 to firstCount
        invariant forall k | 0 <= k < i :: pattern[k] != '.'
      {
        if pattern[i] == '.' {
          return 0;
        }
      }
      if firstCount < |pattern| && pattern[firstCount] == '#' {
        return 0;
      }
      r := CountPossibilities(if firstCount + 1 <= |pattern| then pattern[firstCount + 1..] else "", counts[1..]);
      return;
    }
    var asHash := CountPossibilities(['#'] + pattern[1..], counts);
    var asDot := CountPossibilities(['.'] + pattern[1..], counts);
    r := asHash + asDot;
  }

  /** The length of the leading run of '#'. */
  function HashRun(p: string): (k: nat)
    ensures k <= |p|
    ensures forall i | 0 <= i < k :: p[i] == '#'
    ensures k < |p| ==> p[k] != '#'
  {
    if p == [] || p[0] != '#' then 0 else 1 + HashRun(p[1..])
  }

  /** A run of '#' covering the first m characters makes the leading run at least m long. */
  lemma {:induction false} HashRunAtLeast(p: string, m: nat)
    requires m <= |p| && forall i | 0 <= i < m :: p[i] == '#'
    ensures HashRun(p) >= m
  {
    if m > 0 {
      HashRunAtLeast(p[1..], m - 1);
    }
  }

  /** The lengths of the maximal runs of '#' of a row, left to right. */
  function Runs(p: string): seq<nat>
    decreases |p|
  {
    if p == [] then []
    else if p[0] != '#' then Runs(p[1..])
    else
      var k := HashRun(p);
      [k] + Runs(p[k..])
  }

  /** A row without unknowns. */
  predicate Determined(p: string)
  {
    forall i | 0 <= i < |p| :: p[i] == '#' || p[i] == '.'
  }

  lemma {:induction false} NoRunsNoHash(p: string)
    ensures Runs(p) == [] <==> NoHash(p)
    decreases |p|
  {
    if p != [] {
      NoRunsNoHash(p[1..]);
      if p[0] != '#' {
        assert forall i | 1 <= i < |p| :: p[i] == p[1..][i - 1];
      }
    }
  }

  /** The runs of a row and a gap between each two of them fit in the row. */
  lemma {:induction false} RunsFit(p: string)
    ensures Total(Runs(p)) + |Runs(p)| <= |p| + 1
    ensures p != [] && p[0] != '#' ==> Total(Runs(p)) + |Runs(p)| <= |p|
    decreases |p|
  {
    if p != [] {
      if p[0] != '#' {
        RunsFit(p[1..]);
      } else {
        var k := HashRun(p);
        RunsFit(p[k..]);
        assert Runs(p)[1..] == Runs(p[k..]);
      }
    }
  }

  /**
   * On a row without unknowns there is exactly one arrangement when its runs
   * are the counts and none otherwise.
   */
  lemma {:induction false} DeterminedArrangements(p: string, counts: seq<nat>)
    requires Determined(p)
    ensures Arrangements(p, counts) == if Runs(p) == counts then 1 else 0
    decreases |p|
  {
    if |p| == 0 {
    } else if |counts| == 0 {
      NoRunsNoHash(p);
    } else if |p| < Total(counts) + (|counts| - 1) {
      RunsFit(p);
    } else if p[0] == '.' {
      DeterminedArrangements(p[1..], counts);
    } else {
      var c := counts[0];
      var k := HashRun(p);
      assert Runs(p) == [k] + Runs(p[k..]);
      if exists i | 0 <= i < c :: p[i] == '.' {
        var i :| 0 <= i < c && p[i] == '.';
        assert k <= i;
      } else if c < |p| && p[c] == '#' {
        HashRunAtLeast(p, c + 1);
      } else {
        HashRunAtLeast(p, c);
        assert k == c;
        var rest := if c + 1 <= |p| then p[c + 1..] else "";
        if c < |p| {
          assert p[c..][1..] == rest;
        }
        assert Runs(p[k..]) == Runs(rest);
        DeterminedArrangements(rest, counts[1..]);
        assert counts == [c] + counts[1..];
      }
    }
  }

  /** A leading unknown counts the arrangements with a damaged spring there plus those with an operational one. */
  lemma UnknownSplits(rest: string, counts: seq<nat>)
    ensures Arrangements(['?'] + rest, counts) ==
      Arrangements(['#'] + rest, counts) + Arrangements(['.'] + rest, counts)
  {
    var p, h, d := ['?'] + rest, ['#'] + rest, ['.'] + rest;
    assert p[1..] == rest && h[1..] == rest && d[1..] == rest;
    if |counts| == 0 {
      assert NoHash(p) == NoHash(d) by {
        assert forall i | 1 <= i < |p| :: p[i] == d[i];
      }
      assert !NoHash(h) by {
        assert h[0] == '#';
      }
    }
  }

  /** The number of unknowns. */
  function Unknowns(p: string): nat
  {
    if p == [] then 0 else (if Unknown(p[0]) then 1 else 0) + Unknowns(p[1..])
  }

  lemma {:induction false} UnknownsSuffix(p: string, j: nat)
    requires j <= |p|
    ensures Unknowns(p[j..]) <= Unknowns(p)
  {
    if j > 0 {
      UnknownsSuffix(p[1..], j - 1);
      assert p[1..][j - 1..] == p[j..];
    }
  }

  lemma {:induction false} Pow2Monotone(a: nat, b: nat)
    requires a <= b
    ensures Pow2(a) <= Pow2(b)
  {
    if a < b {
      Pow2Monotone(a, b - 1);
    }
  }

  /** There are never more arrangements than ways to fill in the unknowns. */
  lemma {:induction false} ArrangementsBound(pattern: string, counts: seq<nat>)
    ensures Arrangements(pattern, counts) <= Pow2(Unknowns(pattern))
    decreases |pattern|, Measure(pattern)
  {
    if |pattern| == 0 || |counts| == 0 || |pattern| < Total(counts) + (|counts| - 1) {
    } else if pattern[0] == '.' {
      ArrangementsBound(pattern[1..], counts);
    } else if pattern[0] == '#' {
      var c := counts[0];
      if c + 1 <= |pattern| {
        UnknownsSuffix(pattern, c + 1);
        ArrangementsBound(pattern[c + 1..], counts[1..]);
        Pow2Monotone(Unknowns(pattern[c + 1..]), Unknowns(pattern));
      }
    } else {
      var h, d := ['#'] + pattern[1..], ['.'] + pattern[1..];
      assert h[1..] == pattern[1..] && d[1..] == pattern[1..];
      ArrangementsBound(h, counts);
      ArrangementsBound(d, counts);
    }
  }
}
