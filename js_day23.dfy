/**
 * Crab Cups: cups labelled 1..count sit in a circle. Each move the crab
 * lifts the three cups clockwise of the current cup, picks the destination
 * label (one below the current label, wrapping round and skipping lifted
 * labels), puts the three cups back just clockwise of the destination, and
 * makes the next cup current.
 *
 * Every `Cup` node is reached by its label through the dictionary, so the
 * `right` and `left` pointers of the nodes are the arrays `right` and
 * `left` indexed by label; the ghost `ring` lists the labels clockwise from
 * the current cup.
 */
module CrabCups {

  predicate Distinct(s: seq<nat>)
  {
    forall i, j | 0 <= i < j < |s| :: s[i] != s[j]
  }

  /** s holds each of the labels 1..count exactly once. */
  ghost predicate IsRing(s: seq<nat>, count: nat)
  {
    |s| == count && Distinct(s) && forall x: nat :: x in s <==> 1 <= x <= count
  }

  lemma RingBounds(s: seq<nat>, count: nat)
    requires IsRing(s, count)
    ensures forall j | 0 <= j < |s| :: 1 <= s[j] <= count
  {
    forall j | 0 <= j < |s| ensures 1 <= s[j] <= count {
      assert s[j] in s;
    }
  }

  /** The position clockwise of position i in a circle of n. */
  function NextIndex(n: nat, i: nat): nat
    requires i < n
  {
    if i + 1 < n then i + 1 else 0
  }

  function Next(s: seq<nat>, i: nat): nat
    requires i < |s|
  {
    s[NextIndex(|s|, i)]
  }

  /** Every cup's right pointer is the cup clockwise of it. */
  predicate RightLinked(rt: seq<nat>, s: seq<nat>)
  {
    forall i {:trigger rt[s[i]]} | 0 <= i < |s| :: s[i] < |rt| && rt[s[i]] == Next(s, i)
  }

  /** One cup of a linked circle: its right pointer is the cup clockwise of it. */
  lemma LinkedAt(rt: seq<nat>, s: seq<nat>, i: nat)
    requires RightLinked(rt, s) && i < |s|
    ensures s[i] < |rt| && rt[s[i]] == Next(s, i)
  {
  }

  /** Every cup of a linked circle has a right pointer. */
  lemma LinkedBounds(rt: seq<nat>, s: seq<nat>)
    requires RightLinked(rt, s)
    ensures forall i | 0 <= i < |s| :: s[i] < |rt|
  {
    forall i | 0 <= i < |s| ensures s[i] < |rt| {
      LinkedAt(rt, s, i);
    }
  }

  /** One cup of a linked circle: the cup clockwise of it points back to it. */
  lemma LeftLinkedAt(lt: seq<nat>, s: seq<nat>, i: nat)
    requires LeftLinked(lt, s) && i < |s|
    ensures Next(s, i) < |lt| && lt[Next(s, i)] == s[i]
  {
  }

  /** Every cup's right neighbour has it as its left pointer: `cup.right.left` is the cup. */
  predicate LeftLinked(lt: seq<nat>, s: seq<nat>)
  {
    forall i {:trigger lt[Next(s, i)]} | 0 <= i < |s| :: Next(s, i) < |lt| && lt[Next(s, i)] == s[i]
  }

  function IndexOf(s: seq<nat>, x: nat): (k: nat)
    requires x in s
    ensures k < |s| && s[k] == x
  {
    if s[0] == x then 0 else 1 + IndexOf(s[1..], x)
  }

  /** The label one below d, wrapping from the lowest label 1 to `max`. */
  function Down(d: nat, count: nat): nat
  {
    if d - 1 < 1 then count else d - 1
  }

  /** The destination search from d with at most `tries` further steps. */
  function Search(d: nat, picked: seq<nat>, count: nat, tries: nat): nat
    decreases tries
  {
    if tries == 0 || d !in picked then d else Search(Down(d, count), picked, count, tries - 1)
  }

  /** The destination label: one below the current label, skipping the lifted labels. */
  function Destination(cur: nat, picked: seq<nat>, count: nat): nat
  {
    Search(Down(cur, count), picked, count, 3)
  }

  /** Among four labels stepping down from the current one at most three are lifted, so the search ends on a label that is not lifted. */
  lemma DestinationValid(cur: nat, picked: seq<nat>, count: nat)
    requires count >= 4 && 1 <= cur <= count && cur !in picked && |picked| == 3
    ensures Destination(cur, picked, count) !in picked
    ensures 1 <= Destination(cur, picked, count) <= count
  {
    var d1 := Down(cur, count);
    var d2 := Down(d1, count);
    var d3 := Down(d2, count);
    var d4 := Down(d3, count);
    assert d1 != d2 && d1 != d3 && d2 != d3;
    assert d4 != d1 && d4 != d2 && d4 != d3;
    if d1 in picked && d2 in picked && d3 in picked {
      assert forall x | x in picked :: x == d1 || x == d2 || x == d3;
    }
  }

  /**
   * The destination is the first label, stepping down from the current one
   * with wrap-around, that is not lifted.
   */
  lemma DestinationMeaning(cur: nat, picked: seq<nat>, count: nat)
    requires count >= 4 && 1 <= cur <= count && cur !in picked && |picked| == 3
    ensures var d := Destination(cur, picked, count);
      d !in picked && 1 <= d <= count &&
      exists k | 1 <= k <= 4 :: d == DownBy(cur, count, k) && forall j | 1 <= j < k :: DownBy(cur, count, j) in picked
  {
    DestinationValid(cur, picked, count);
    var d := Destination(cur, picked, count);
    assert DownBy(cur, count, 1) == Down(cur, count);
    assert DownBy(cur, count, 2) == Down(Down(cur, count), count);
    assert DownBy(cur, count, 3) == Down(Down(Down(cur, count), count), count);
    assert DownBy(cur, count, 4) == Down(Down(Down(Down(cur, count), count), count), count);
  }

  /** k steps down from d. */
  function DownBy(d: nat, count: nat, k: nat): nat
  {
    if k == 0 then d else Down(DownBy(d, count, k - 1), count)
  }

  /**
   * The circle read from the current cup after the three lifted cups are
   * put back just clockwise of position p + 3 (p = 0: of the current cup):
   * the current cup, the cups up to the destination, the lifted three, the
   * rest.
   */
  function Splice(ring: seq<nat>, p: nat): (s: seq<nat>)
    requires |ring| >= 4 && p <= |ring| - 4
    ensures |s| == |ring|
  {
    [ring[0]] + ring[4..p + 4] + ring[1..4] + ring[p + 4..]
  }

  /** Where position i of the spliced circle comes from in the old one. */
  function Source(p: nat, i: nat): nat
  {
    if i == 0 then 0 else if i <= p then i + 3 else if i <= p + 3 then i - p else i
  }

  lemma SpliceAt(ring: seq<nat>, p: nat, i: nat)
    requires |ring| >= 4 && p <= |ring| - 4 && i < |ring|
    ensures Source(p, i) < |ring| && Splice(ring, p)[i] == ring[Source(p, i)]
  {
  }

  /** The position of the destination in the spliced circle. */
  function SplicePos(ring: seq<nat>, dest: nat): (p: nat)
    requires |ring| >= 4 && dest in ring && dest !in ring[1..4]
    ensures p <= |ring| - 4
    ensures dest == (if p == 0 then ring[0] else ring[p + 3])
  {
    var k := IndexOf(ring, dest);
    assert k != 1 && k != 2 && k != 3 by {
      assert ring[1..4] == [ring[1], ring[2], ring[3]];
    }
    if k == 0 then 0 else k - 3
  }

  function Rotate1(s: seq<nat>): seq<nat>
    requires |s| >= 1
  {
    s[1..] + [s[0]]
  }

  /** The destination of the move from `ring`. */
  function DestinationOf(ring: seq<nat>, count: nat): (dest: nat)
    requires count >= 4 && IsRing(ring, count)
    ensures dest in ring && dest !in ring[1..4]
  {
    var picked := ring[1..4];
    assert ring[0] !in picked by {
      assert picked == [ring[1], ring[2], ring[3]];
    }
    assert ring[0] in ring;
    DestinationValid(ring[0], picked, count);
    Destination(ring[0], picked, count)
  }

  /**
   * One move: the ring read from the next current cup. The circle stays a
   * permutation of the labels 1..count.
   */
  function MoveRing(ring: seq<nat>, count: nat): (r: seq<nat>)
    requires count >= 4 && IsRing(ring, count)
    ensures IsRing(r, count)
  {
    var p := SplicePos(ring, DestinationOf(ring, count));
    SpliceIsRing(ring, count, p);
    RotateIsRing(Splice(ring, p), count);
    Rotate1(Splice(ring, p))
  }

  /** The positions of a ring hold distinct labels. */
  lemma DistinctAt(s: seq<nat>, i: nat, j: nat)
    requires Distinct(s) && i < |s| && j < |s| && i != j
    ensures s[i] != s[j]
  {
    if i > j {
      DistinctAt(s, j, i);
    }
  }

  lemma SpliceIsRing(ring: seq<nat>, count: nat, p: nat)
    requires count >= 4 && IsRing(ring, count) && p <= count - 4
    ensures IsRing(Splice(ring, p), count)
  {
    var s := Splice(ring, p);
    forall i, j | 0 <= i < j < |s| ensures s[i] != s[j] {
      SpliceAt(ring, p, i);
      SpliceAt(ring, p, j);
      DistinctAt(ring, Source(p, i), Source(p, j));
    }
    forall x: nat ensures x in s <==> 1 <= x <= count {
      if x in ring {
        var k := IndexOf(ring, x);
        var i := if k == 0 then 0 else if k <= 3 then k + p else if k <= p + 3 then k - 3 else k;
        SpliceAt(ring, p, i);
      }
      if x in s {
        var i :| 0 <= i < |s| && s[i] == x;
        SpliceAt(ring, p, i);
      }
    }
  }

  lemma RotateIsRing(s: seq<nat>, count: nat)
    requires count >= 1 && IsRing(s, count)
    ensures IsRing(Rotate1(s), count)
  {
    var r := Rotate1(s);
    assert forall x :: x in r <==> x in s;
    forall i, j | 0 <= i < j < |r| ensures r[i] != r[j] {
      if j < |r| - 1 {
        assert r[i] == s[i + 1] && r[j] == s[j + 1];
      } else {
        assert r[i] == s[i + 1] && r[j] == s[0];
      }
    }
  }

  /** The right pointers after a move: the three assignments of the move in order. */
  function MovedRight(rt: seq<nat>, cur: nat, a: nat, c: nat, dest: nat): (r: seq<nat>)
    requires cur < |rt| && c < |rt| && dest < |rt|
    ensures |r| == |rt|
  {
    var rt1 := rt[cur := rt[c]];
    var rt2 := rt1[c := rt1[dest]];
    rt2[dest := a]
  }

  /** The left pointers after a move, with X and Y the cups that now follow the current cup and the third lifted cup. */
  function MovedLeft(lt: seq<nat>, cur: nat, a: nat, c: nat, dest: nat, x: nat, y: nat): (l: seq<nat>)
    requires x < |lt| && y < |lt| && a < |lt|
    ensures |l| == |lt|
  {
    lt[x := cur][y := c][a := dest]
  }

  /** The facts about a ring the link lemmas use. */
  predicate MoveSetting(ring: seq<nat>, count: nat, p: nat)
  {
    count >= 4 && RingShape(ring, count) && p <= count - 4
  }

  /** What the link lemmas use of a ring: distinct labels, each in 1..count. */
  predicate RingShape(ring: seq<nat>, count: nat)
  {
    |ring| == count && Distinct(ring) && forall j | 0 <= j < |ring| :: 1 <= ring[j] <= count
  }

  function DestAt(ring: seq<nat>, p: nat): nat
    requires |ring| >= 4 && p <= |ring| - 4
  {
    if p == 0 then ring[0] else ring[p + 3]
  }

  /** The pointers and labels a move's right-pointer updates touch. */
  predicate RightFacts(ring: seq<nat>, p: nat, rt: seq<nat>)
  {
    |ring| >= 4 && p <= |ring| - 4 &&
    ring[0] < |rt| && ring[3] < |rt| && ring[p + 3] < |rt| &&
    ring[0] != ring[3] && (p > 0 ==> ring[p + 3] != ring[3] && ring[p + 3] != ring[0]) &&
    rt[ring[3]] == Next(ring, 3) && rt[ring[p + 3]] == Next(ring, p + 3)
  }

  lemma GetRightFacts(ring: seq<nat>, count: nat, p: nat, rt: seq<nat>)
    requires MoveSetting(ring, count, p) && RightLinked(rt, ring)
    ensures RightFacts(ring, p, rt)
  {
    LinkedAt(rt, ring, 0);
    LinkedAt(rt, ring, 3);
    LinkedAt(rt, ring, p + 3);
    DistinctAt(ring, 0, 3);
    if p > 0 {
      DistinctAt(ring, p + 3, 3);
      DistinctAt(ring, p + 3, 0);
    }
  }

  lemma MovedRightAt(ring: seq<nat>, p: nat, rt: seq<nat>, x: nat)
    requires RightFacts(ring, p, rt) && x < |rt|
    ensures var r := MovedRight(rt, ring[0], ring[1], ring[3], DestAt(ring, p));
      r[x] == if x == DestAt(ring, p) then ring[1]
              else if x == ring[3] then Next(ring, p + 3)
              else if x == ring[0] then Next(ring, 3)
              else rt[x]
  {
  }

  /** After the move every right pointer in the spliced circle points clockwise. */
  lemma RightSpliced(ring: seq<nat>, count: nat, p: nat, rt: seq<nat>)
    requires MoveSetting(ring, count, p) && RightLinked(rt, ring) && |rt| == count + 1
    ensures RightLinked(MovedRight(rt, ring[0], ring[1], ring[3], DestAt(ring, p)), Splice(ring, p))
  {
    var s := Splice(ring, p);
    var r := MovedRight(rt, ring[0], ring[1], ring[3], DestAt(ring, p));
    forall i | 0 <= i < |s| ensures s[i] < |r| && r[s[i]] == Next(s, i) {
      RightSplicedAt(ring, count, p, rt, i);
    }
  }

  lemma RightSplicedAt(ring: seq<nat>, count: nat, p: nat, rt: seq<nat>, i: nat)
    requires MoveSetting(ring, count, p) && RightLinked(rt, ring) && |rt| == count + 1 && i < count
    ensures var s := Splice(ring, p);
      s[i] < |rt| && MovedRight(rt, ring[0], ring[1], ring[3], DestAt(ring, p))[s[i]] == Next(s, i)
  {
    var s := Splice(ring, p);
    var n := count;
    var k := Source(p, i);
    SpliceAt(ring, p, i);
    SpliceAt(ring, p, NextIndex(n, i));
    assert ring[k] in ring;
    GetRightFacts(ring, count, p, rt);
    MovedRightAt(ring, p, rt, ring[k]);
    assert rt[ring[k]] == Next(ring, k);
    if k != 0 { DistinctAt(ring, k, 0); }
    if k != 3 { DistinctAt(ring, k, 3); }
    if p > 0 && k != p + 3 { DistinctAt(ring, k, p + 3); }
    if p == 0 && k != 0 { DistinctAt(ring, k, 0); }
  }

  lemma MovedLeftAt(ring: seq<nat>, count: nat, p: nat, lt: seq<nat>, y: nat)
    requires MoveSetting(ring, count, p) && |lt| == count + 1 && y < |lt|
    ensures Next(ring, 3) < |lt| && Next(ring, p + 3) < |lt| && ring[1] < |lt|
    ensures var l := MovedLeft(lt, ring[0], ring[1], ring[3], DestAt(ring, p), Next(ring, 3), Next(ring, p + 3));
      l[y] == if y == ring[1] then DestAt(ring, p)
              else if y == Next(ring, p + 3) then ring[3]
              else if y == Next(ring, 3) then ring[0]
              else lt[y]
  {
  }

  /** After the move every cup's right neighbour has it as its left pointer. */
  lemma LeftSpliced(ring: seq<nat>, count: nat, p: nat, lt: seq<nat>)
    requires MoveSetting(ring, count, p) && LeftLinked(lt, ring) && |lt| == count + 1
    ensures Next(ring, 3) < |lt| && Next(ring, p + 3) < |lt| && ring[1] < |lt|
    ensures LeftLinked(MovedLeft(lt, ring[0], ring[1], ring[3], DestAt(ring, p), Next(ring, 3), Next(ring, p + 3)), Splice(ring, p))
  {
    MovedLeftAt(ring, count, p, lt, 0);
    var s := Splice(ring, p);
    var l := MovedLeft(lt, ring[0], ring[1], ring[3], DestAt(ring, p), Next(ring, 3), Next(ring, p + 3));
    forall i | 0 <= i < |s| ensures Next(s, i) < |l| && l[Next(s, i)] == s[i] {
      LeftSplicedAt(ring, count, p, lt, i);
    }
  }

  lemma LeftSplicedAt(ring: seq<nat>, count: nat, p: nat, lt: seq<nat>, i: nat)
    requires MoveSetting(ring, count, p) && LeftLinked(lt, ring) && |lt| == count + 1 && i < count
    ensures Next(ring, 3) < |lt| && Next(ring, p + 3) < |lt| && ring[1] < |lt|
    ensures var s := Splice(ring, p);
      Next(s, i) < |lt| && MovedLeft(lt, ring[0], ring[1], ring[3], DestAt(ring, p), Next(ring, 3), Next(ring, p + 3))[Next(s, i)] == s[i]
  {
    if i < p {
      LeftBeforeAt(ring, count, p, lt, i);
    } else if i <= p + 3 {
      LeftLiftedAt(ring, count, p, lt, i);
    } else {
      LeftAfterAt(ring, count, p, lt, i);
    }
    RingShapeBounds(ring, count, lt);
    SplicedLeft(ring, p, MovedLeft(lt, ring[0], ring[1], ring[3], DestAt(ring, p), Next(ring, 3), Next(ring, p + 3)), i);
  }

  /** The left pointers read on the spliced circle, from the three regions read on the old one. */
  lemma SplicedLeft(ring: seq<nat>, p: nat, l: seq<nat>, i: nat)
    requires |ring| >= 4 && p <= |ring| - 4 && i < |ring| && |l| > 0
    requires forall j | 0 <= j < |ring| :: ring[j] < |l|
    requires i < p ==> l[ring[i + 4]] == ring[if i == 0 then 0 else i + 3]
    requires p <= i < p + 3 ==> l[ring[i - p + 1]] == (if i == p then DestAt(ring, p) else ring[i - p])
    requires i == p + 3 ==> l[Next(ring, p + 3)] == ring[3]
    requires p + 3 < i ==> l[Next(ring, i)] == ring[i]
    ensures var s := Splice(ring, p); Next(s, i) < |l| && l[Next(s, i)] == s[i]
  {
    var s := Splice(ring, p);
    var j := NextIndex(|ring|, i);
    SpliceAt(ring, p, i);
    SpliceAt(ring, p, j);
  }

  lemma LeftBeforeAt(ring: seq<nat>, count: nat, p: nat, lt: seq<nat>, i: nat)
    requires MoveSetting(ring, count, p) && LeftLinked(lt, ring) && |lt| == count + 1 && i < p
    ensures Next(ring, 3) < |lt| && Next(ring, p + 3) < |lt| && ring[1] < |lt|
    ensures MovedLeft(lt, ring[0], ring[1], ring[3], DestAt(ring, p), Next(ring, 3), Next(ring, p + 3))[ring[i + 4]] == ring[if i == 0 then 0 else i + 3]
  {
    assert Next(ring, i + 3) == ring[i + 4];
    var k := NextIndex(count, p + 3);
    DistinctAt(ring, i + 4, 1);
    if k != i + 4 {
      DistinctAt(ring, i + 4, k);
    }
    if i > 0 {
      DistinctAt(ring, i + 4, 4);
    }
    LeftBefore(ring, count, p, lt, i);
  }

  lemma LeftLiftedAt(ring: seq<nat>, count: nat, p: nat, lt: seq<nat>, i: nat)
    requires MoveSetting(ring, count, p) && LeftLinked(lt, ring) && |lt| == count + 1 && p <= i <= p + 3
    ensures Next(ring, 3) < |lt| && Next(ring, p + 3) < |lt| && ring[1] < |lt|
    ensures var y := if i < p + 3 then ring[i - p + 1] else Next(ring, p + 3);
      MovedLeft(lt, ring[0], ring[1], ring[3], DestAt(ring, p), Next(ring, 3), Next(ring, p + 3))[y] == (if i == p then DestAt(ring, p) else ring[i - p])
  {
    var k := NextIndex(count, p + 3);
    assert Next(ring, 1) == ring[2] && Next(ring, 2) == ring[3];
    DistinctAt(ring, 2, 1);
    DistinctAt(ring, 3, 1);
    DistinctAt(ring, 2, 3);
    DistinctAt(ring, k, 1);
    if k != 2 { DistinctAt(ring, k, 2); }
    if k != 3 { DistinctAt(ring, k, 3); }
    var k3 := NextIndex(count, 3);
    if k3 != 2 { DistinctAt(ring, k3, 2); }
    if k3 != 3 { DistinctAt(ring, k3, 3); }
    LeftLifted(ring, count, p, lt, i);
  }

  lemma LeftAfterAt(ring: seq<nat>, count: nat, p: nat, lt: seq<nat>, i: nat)
    requires MoveSetting(ring, count, p) && LeftLinked(lt, ring) && |lt| == count + 1 && p + 4 <= i < count
    ensures Next(ring, 3) < |lt| && Next(ring, p + 3) < |lt| && ring[1] < |lt|
    ensures MovedLeft(lt, ring[0], ring[1], ring[3], DestAt(ring, p), Next(ring, 3), Next(ring, p + 3))[Next(ring, i)] == ring[i]
  {
    var k := NextIndex(count, i);
    assert NextIndex(count, p + 3) == p + 4 && NextIndex(count, 3) == 4;
    DistinctAt(ring, k, 1);
    if k != 4 { DistinctAt(ring, k, 4); }
    if k != p + 4 { DistinctAt(ring, k, p + 4); }
    LeftAfter(ring, count, p, lt, i);
  }

  lemma RingShapeBounds(ring: seq<nat>, count: nat, lt: seq<nat>)
    requires RingShape(ring, count) && |lt| == count + 1
    ensures forall j | 0 <= j < |ring| :: ring[j] < |lt|
  {
  }

  /** The bounds the left-pointer updates of a move need. */
  predicate LeftBounds(ring: seq<nat>, count: nat, p: nat, lt: seq<nat>)
  {
    |ring| == count >= 4 && p <= count - 4 && |lt| == count + 1 &&
    forall j | 0 <= j < |ring| :: ring[j] < |lt|
  }

  /** The cups from after the current one up to the destination. */
  lemma LeftBefore(ring: seq<nat>, count: nat, p: nat, lt: seq<nat>, i: nat)
    requires LeftBounds(ring, count, p, lt) && i < p
    requires lt[ring[i + 4]] == ring[i + 3]
    requires ring[i + 4] != ring[1] && ring[i + 4] != Next(ring, p + 3) && (i > 0 ==> ring[i + 4] != Next(ring, 3))
    ensures Next(ring, 3) < |lt| && Next(ring, p + 3) < |lt|
    ensures MovedLeft(lt, ring[0], ring[1], ring[3], DestAt(ring, p), Next(ring, 3), Next(ring, p + 3))[ring[i + 4]] == ring[if i == 0 then 0 else i + 3]
  {
  }

  /** The destination and the three lifted cups. */
  lemma LeftLifted(ring: seq<nat>, count: nat, p: nat, lt: seq<nat>, i: nat)
    requires LeftBounds(ring, count, p, lt) && p <= i <= p + 3
    requires i == p + 1 ==> lt[ring[2]] == ring[1] && ring[2] != ring[1] && ring[2] != Next(ring, 3) && ring[2] != Next(ring, p + 3)
    requires i == p + 2 ==> lt[ring[3]] == ring[2] && ring[3] != ring[1] && ring[3] != Next(ring, 3) && ring[3] != Next(ring, p + 3)
    requires i == p + 3 ==> Next(ring, p + 3) != ring[1]
    ensures Next(ring, 3) < |lt| && Next(ring, p + 3) < |lt|
    ensures var y := if i < p + 3 then ring[i - p + 1] else Next(ring, p + 3);
      MovedLeft(lt, ring[0], ring[1], ring[3], DestAt(ring, p), Next(ring, 3), Next(ring, p + 3))[y] == (if i == p then DestAt(ring, p) else ring[i - p])
  {
  }

  /** The cups after the lifted ones. */
  lemma LeftAfter(ring: seq<nat>, count: nat, p: nat, lt: seq<nat>, i: nat)
    requires LeftBounds(ring, count, p, lt) && p + 4 <= i < count
    requires lt[Next(ring, i)] == ring[i]
    requires Next(ring, i) != ring[1] && Next(ring, i) != Next(ring, 3) && Next(ring, i) != Next(ring, p + 3)
    ensures Next(ring, 3) < |lt| && Next(ring, p + 3) < |lt|
    ensures MovedLeft(lt, ring[0], ring[1], ring[3], DestAt(ring, p), Next(ring, 3), Next(ring, p + 3))[Next(ring, i)] == ring[i]
  {
  }

  /** In a ring of distinct labels each label sits at one position: equal labels mean the same index. */
  lemma NextDistinct(ring: seq<nat>, i: nat, j: nat)
    requires Distinct(ring) && i < |ring| && j < |ring|
    ensures ring[i] == ring[j] ==> i == j
  {
    if i != j {
      DistinctAt(ring, i, j);
    }
  }

  lemma RotateRight(rt: seq<nat>, s: seq<nat>)
    requires |s| >= 1 && RightLinked(rt, s)
    ensures RightLinked(rt, Rotate1(s))
  {
    var r := Rotate1(s);
    forall i | 0 <= i < |s| ensures r[i] < |rt| && rt[r[i]] == Next(r, i) {
      var k := NextIndex(|s|, i);
      assert r[i] == s[k];
      assert Next(r, i) == Next(s, k);
      LinkedAt(rt, s, k);
    }
  }

  lemma RotateLeft(lt: seq<nat>, s: seq<nat>)
    requires |s| >= 1 && LeftLinked(lt, s)
    ensures LeftLinked(lt, Rotate1(s))
  {
    var r := Rotate1(s);
    forall i | 0 <= i < |s| ensures Next(r, i) < |lt| && lt[Next(r, i)] == r[i] {
      var k := NextIndex(|s|, i);
      assert r[i] == s[k];
      assert Next(r, i) == Next(s, k);
      LeftLinkedAt(lt, s, k);
    }
  }

  lemma RotateStep(s: seq<nat>, k: nat)
    requires 0 < k < |s|
    ensures Rotate1(s[k - 1..] + s[..k - 1]) == s[k..] + s[..k]
  {
    var t := s[k - 1..] + s[..k - 1];
    assert t[0] == s[k - 1];
    assert t[1..] == s[k..] + s[..k - 1];
    assert s[..k - 1] + [s[k - 1]] == s[..k];
  }

  /** Reading the circle from position k instead of 0 keeps the ring. */
  lemma {:induction false} RotateToIsRing(s: seq<nat>, count: nat, k: nat)
    requires count >= 1 && IsRing(s, count) && k < |s|
    ensures IsRing(s[k..] + s[..k], count)
  {
    if k == 0 {
      assert s[k..] + s[..k] == s;
    } else {
      RotateToIsRing(s, count, k - 1);
      var t := s[k - 1..] + s[..k - 1];
      RotateStep(s, k);
      RotateIsRing(t, count);
    }
  }

  /** Reading the circle from position k instead of 0 keeps every right pointer. */
  lemma {:induction false} RotateToRight(rt: seq<nat>, s: seq<nat>, k: nat)
    requires RightLinked(rt, s) && k < |s|
    ensures RightLinked(rt, s[k..] + s[..k])
  {
    if k == 0 {
      assert s[k..] + s[..k] == s;
    } else {
      RotateToRight(rt, s, k - 1);
      var t := s[k - 1..] + s[..k - 1];
      RotateStep(s, k);
      RotateRight(rt, t);
    }
  }

  /** The label clockwise of label x. */
  function Succ(s: seq<nat>, x: nat): nat
    requires x in s
  {
    Next(s, IndexOf(s, x))
  }

  /** In a linked circle the right pointer of a cup is its clockwise neighbour. */
  lemma SuccLinked(rt: seq<nat>, s: seq<nat>, x: nat)
    requires Distinct(s) && RightLinked(rt, s) && x in s
    ensures x < |rt| && rt[x] == Succ(s, x)
  {
  }

  /** On two rings of the same labels, the right pointers of one linked circle are its clockwise neighbours. */
  lemma SuccAll(rt: seq<nat>, r: seq<nat>, ring: seq<nat>, count: nat)
    requires IsRing(r, count) && IsRing(ring, count) && RightLinked(rt, r)
    ensures forall x | x in ring :: x in r && x < |rt| && Succ(r, x) == rt[x]
  {
    forall x | x in ring ensures x in r && x < |rt| && Succ(r, x) == rt[x] {
      SuccLinked(rt, r, x);
    }
  }

  /** The table of right pointers of a circle: every label maps to its clockwise neighbour. */
  function SuccTable(s: seq<nat>, count: nat): (rt: seq<nat>)
    ensures |rt| == count + 1
  {
    seq(count + 1, x requires 0 <= x <= count => if x in s then Succ(s, x) else 0)
  }

  lemma SuccTableLinked(s: seq<nat>, count: nat)
    requires IsRing(s, count)
    ensures RightLinked(SuccTable(s, count), s)
  {
    forall i | 0 <= i < |s| ensures s[i] < count + 1 && SuccTable(s, count)[s[i]] == Next(s, i) {
      assert s[i] in s;
      NextDistinct(s, IndexOf(s, s[i]), i);
    }
  }

  /** Any pointer table linking the circle, after a move, label by label. */
  lemma MovedTable(ring: seq<nat>, count: nat, p: nat, rt: seq<nat>)
    requires MoveSetting(ring, count, p) && RightLinked(rt, ring) && |rt| == count + 1
    ensures var rt3 := MovedRight(rt, ring[0], ring[1], ring[3], DestAt(ring, p));
      forall x | x in ring :: x < |rt3| && rt3[x] ==
        if x == DestAt(ring, p) then ring[1]
        else if x == ring[3] then Next(ring, p + 3)
        else if x == ring[0] then Next(ring, 3)
        else Succ(ring, x)
  {
    GetRightFacts(ring, count, p, rt);
    forall x | x in ring ensures x < |rt| && MovedRight(rt, ring[0], ring[1], ring[3], DestAt(ring, p))[x] ==
        if x == DestAt(ring, p) then ring[1]
        else if x == ring[3] then Next(ring, p + 3)
        else if x == ring[0] then Next(ring, 3)
        else Succ(ring, x) {
      MovedRightAt(ring, p, rt, x);
      SuccLinked(rt, ring, x);
    }
  }

  /**
   * A move in terms of the circle: the lifted cups follow the destination
   * in their old order, the cup that followed the destination follows the
   * third lifted cup, the cup that followed the third lifted cup follows
   * the current cup, every other cup keeps its neighbour, and the next
   * current cup is the one now clockwise of the current cup.
   */
  lemma MoveMeaning(ring: seq<nat>, count: nat)
    requires count >= 4 && IsRing(ring, count)
    ensures var r := MoveRing(ring, count);
      var dest := DestinationOf(ring, count);
      ring[0] in r && dest in r && ring[1] in r && ring[2] in r && ring[3] in r &&
      r[count - 1] == ring[0] &&
      Succ(r, dest) == ring[1] && Succ(r, ring[1]) == ring[2] && Succ(r, ring[2]) == ring[3] &&
      Succ(r, ring[3]) == (if dest == ring[0] then Next(ring, 3) else Succ(ring, dest)) &&
      (dest != ring[0] ==> Succ(r, ring[0]) == Next(ring, 3)) &&
      forall x | x in ring && x != ring[0] && x != ring[3] && x != dest :: x in r && Succ(r, x) == Succ(ring, x)
  {
    SuccTableLinked(ring, count);
    MoveMeaningWith(ring, count, SuccTable(ring, count));
  }

  /** The clockwise neighbour of every label after a move. */
  lemma MovedSucc(ring: seq<nat>, count: nat, rt: seq<nat>)
    requires count >= 4 && IsRing(ring, count) && RightLinked(rt, ring) && |rt| == count + 1
    ensures var r := MoveRing(ring, count);
      var dest := DestinationOf(ring, count);
      forall x | x in ring :: x in r && Succ(r, x) ==
        if x == dest then ring[1]
        else if x == ring[3] then (if dest == ring[0] then Next(ring, 3) else Succ(ring, dest))
        else if x == ring[0] then Next(ring, 3)
        else Succ(ring, x)
  {
    var dest := DestinationOf(ring, count);
    var p := SplicePos(ring, dest);
    var r := MoveRing(ring, count);
    LinkedBounds(rt, ring);
    var rt3 := MovedRight(rt, ring[0], ring[1], ring[3], DestAt(ring, p));
    MovedLinked(ring, count, rt, p);
    MovedTable(ring, count, p, rt);
    if p > 0 {
      SuccLinked(rt, ring, dest);
    }
    forall x | x in ring
      ensures x in r && Succ(r, x) ==
        if x == dest then ring[1]
        else if x == ring[3] then (if dest == ring[0] then Next(ring, 3) else Succ(ring, dest))
        else if x == ring[0] then Next(ring, 3)
        else Succ(ring, x)
    {
      SuccLinked(rt3, r, x);
    }
  }

  /** The pointers after a move link the circle `MoveRing` describes. */
  lemma MovedLinked(ring: seq<nat>, count: nat, rt: seq<nat>, p: nat)
    requires count >= 4 && IsRing(ring, count) && RightLinked(rt, ring) && |rt| == count + 1
    requires p == SplicePos(ring, DestinationOf(ring, count))
    ensures MoveSetting(ring, count, p)
    ensures var r := MoveRing(ring, count);
      IsRing(r, count) && RightLinked(MovedRight(rt, ring[0], ring[1], ring[3], DestAt(ring, p)), r)
  {
    RingBounds(ring, count);
    RightSpliced(ring, count, p, rt);
    var rt3 := MovedRight(rt, ring[0], ring[1], ring[3], DestAt(ring, p));
    RotateRight(rt3, Splice(ring, p));
  }

  lemma MoveMeaningWith(ring: seq<nat>, count: nat, rt: seq<nat>)
    requires count >= 4 && IsRing(ring, count) && RightLinked(rt, ring) && |rt| == count + 1
    ensures var r := MoveRing(ring, count);
      var dest := DestinationOf(ring, count);
      ring[0] in r && dest in r && ring[1] in r && ring[2] in r && ring[3] in r &&
      r[count - 1] == ring[0] &&
      Succ(r, dest) == ring[1] && Succ(r, ring[1]) == ring[2] && Succ(r, ring[2]) == ring[3] &&
      Succ(r, ring[3]) == (if dest == ring[0] then Next(ring, 3) else Succ(ring, dest)) &&
      (dest != ring[0] ==> Succ(r, ring[0]) == Next(ring, 3)) &&
      forall x | x in ring && x != ring[0] && x != ring[3] && x != dest :: x in r && Succ(r, x) == Succ(ring, x)
  {
    var dest := DestinationOf(ring, count);
    var r := MoveRing(ring, count);
    MovedSucc(ring, count, rt);
    assert ring[0] in ring && ring[1] in ring && ring[2] in ring && ring[3] in ring;
    assert ring[1] != dest && ring[2] != dest;
    DistinctAt(ring, 1, 0);
    DistinctAt(ring, 1, 3);
    DistinctAt(ring, 2, 0);
    DistinctAt(ring, 2, 3);
    SuccLinked(rt, ring, ring[1]);
    SuccLinked(rt, ring, ring[2]);
    var p := SplicePos(ring, dest);
    SpliceAt(ring, p, 0);
    assert r[count - 1] == Splice(ring, p)[0];
  }

  /**
   * The pointers after a move link the spliced circle read from the next
   * current cup. The caller names the lifted cups a and c, the destination,
   * the old right neighbours x of c and y of the destination, and the new
   * circle r.
   */
  lemma MoveLinks(ring: seq<nat>, count: nat, p: nat, rt: seq<nat>, lt: seq<nat>,
                  a: nat, c: nat, dest: nat, x: nat, y: nat, r: seq<nat>)
    requires MoveSetting(ring, count, p) && RightLinked(rt, ring) && LeftLinked(lt, ring)
    requires |rt| == count + 1 && |lt| == count + 1
    requires a == ring[1] && c == ring[3] && dest == DestAt(ring, p)
    requires x == Next(ring, 3) && y == Next(ring, p + 3) && r == Rotate1(Splice(ring, p))
    ensures ring[0] < |rt| && c < |rt| && dest < |rt| && x < |lt| && y < |lt| && a < |lt|
    ensures RightLinked(MovedRight(rt, ring[0], a, c, dest), r)
    ensures LeftLinked(MovedLeft(lt, ring[0], a, c, dest, x, y), r)
    ensures MovedRight(rt, ring[0], a, c, dest)[ring[0]] == r[0]
  {
    var s := Splice(ring, p);
    RightSpliced(ring, count, p, rt);
    LeftSpliced(ring, count, p, lt);
    var rt3 := MovedRight(rt, ring[0], a, c, dest);
    RotateRight(rt3, s);
    RotateLeft(MovedLeft(lt, ring[0], a, c, dest, x, y), s);
    SpliceAt(ring, p, 0);
    assert rt3[s[0]] == Next(s, 0);
  }

  /**
   * The updates of the pointers of a move, as `Unhook` and `Reinsert` make them,
   * link the circle `MoveRing` describes, read from the next current cup.
   */
  lemma MoveState(ring: seq<nat>, count: nat, rt: seq<nat>, lt: seq<nat>, a: nat, b: nat, c: nat, dest: nat)
    requires count >= 4 && IsRing(ring, count) && RightLinked(rt, ring) && LeftLinked(lt, ring)
    requires |rt| == count + 1 && |lt| == count + 1
    requires a == ring[1] && b == ring[2] && c == ring[3] && dest == Destination(ring[0], [a, b, c], count)
    ensures ring[0] < |rt| && c < |rt| && rt[c] < |lt| && dest < |rt| && a < |lt|
    ensures rt[ring[0] := rt[c]][dest] < |lt|
    ensures RightLinked(MovedRight(rt, ring[0], a, c, dest), MoveRing(ring, count))
    ensures LeftLinked(MovedLeft(lt, ring[0], a, c, dest, rt[c], rt[ring[0] := rt[c]][dest]), MoveRing(ring, count))
    ensures MovedRight(rt, ring[0], a, c, dest)[ring[0]] == MoveRing(ring, count)[0]
  {
    var p := MoveInputs(ring, count, rt, a, b, c, dest);
    MoveLinks(ring, count, p, rt, lt, a, c, dest, rt[c], rt[ring[0] := rt[c]][dest], MoveRing(ring, count));
  }

  /** A move splices the lifted cups in after the destination and reads the circle from the next cup. */
  lemma MoveRingAt(ring: seq<nat>, count: nat)
    requires count >= 4 && IsRing(ring, count)
    ensures MoveRing(ring, count) == Rotate1(Splice(ring, SplicePos(ring, DestinationOf(ring, count))))
  {
  }

  /** Where the destination sits in the ring: the move splices after position p + 3, or after the current cup when p is 0. */
  lemma DestPosition(ring: seq<nat>, count: nat, a: nat, b: nat, c: nat, dest: nat) returns (p: nat)
    requires count >= 4 && IsRing(ring, count)
    requires a == ring[1] && b == ring[2] && c == ring[3] && dest == Destination(ring[0], [a, b, c], count)
    ensures MoveSetting(ring, count, p) && dest == DestAt(ring, p)
    ensures MoveRing(ring, count) == Rotate1(Splice(ring, p))
  {
    RingBounds(ring, count);
    assert ring[1..4] == [a, b, c];
    assert dest == DestinationOf(ring, count);
    p := SplicePos(ring, dest);
    MoveRingAt(ring, count);
  }

  /** Where the destination sits in the ring, and the old right neighbours of c and of the destination. */
  lemma MoveInputs(ring: seq<nat>, count: nat, rt: seq<nat>, a: nat, b: nat, c: nat, dest: nat) returns (p: nat)
    requires count >= 4 && IsRing(ring, count) && RightLinked(rt, ring) && |rt| == count + 1
    requires a == ring[1] && b == ring[2] && c == ring[3] && dest == Destination(ring[0], [a, b, c], count)
    ensures MoveSetting(ring, count, p) && dest == DestAt(ring, p)
    ensures MoveRing(ring, count) == Rotate1(Splice(ring, p))
    ensures ring[0] < |rt| && c < |rt| && dest < |rt|
    ensures rt[c] == Next(ring, 3) && rt[ring[0] := rt[c]][dest] == Next(ring, p + 3)
  {
    FirstFour(ring, count, rt);
    p := DestPosition(ring, count, a, b, c, dest);
    var rt1 := rt[ring[0] := rt[c]];
    assert rt1[dest] == Next(ring, p + 3) by {
      if p > 0 {
        DistinctAt(ring, 0, p + 3);
        assert rt[ring[p + 3]] == Next(ring, p + 3);
      }
    }
  }

  /** The labels clockwise after cup 1, up to and not including cup 1 again. */
  function AfterOne(ring: seq<nat>): seq<nat>
    requires 1 in ring
  {
    var k := IndexOf(ring, 1);
    ring[k + 1..] + ring[..k]
  }

  lemma StartAtOne(ring: seq<nat>, k: nat)
    requires 1 in ring && k == IndexOf(ring, 1)
    ensures ring[k..] + ring[..k] == [1] + AfterOne(ring)
  {
    assert ring[k..] == [1] + ring[k + 1..];
  }

  /** The circle read from cup 1, with the pointers still linking it. */
  lemma FromOne(ring: seq<nat>, count: nat, rt: seq<nat>) returns (t: seq<nat>)
    requires count >= 1 && IsRing(ring, count) && RightLinked(rt, ring)
    ensures |t| == count && Distinct(t) && t[0] == 1 && RightLinked(rt, t)
    ensures t == [1] + AfterOne(ring)
  {
    assert 1 in ring;
    var k := IndexOf(ring, 1);
    t := ring[k..] + ring[..k];
    StartAtOne(ring, k);
    RotateToIsRing(ring, count, k);
    RotateToRight(rt, ring, k);
  }

  /** Along a linked circle that starts at cup 1, each label is the clockwise neighbour of the one before. */
  lemma ChainAfterOne(rt: seq<nat>, ring: seq<nat>, labels: seq<nat>)
    requires Distinct(ring) && RightLinked(rt, ring) && RightLinked(rt, [1] + labels)
    requires forall j | 0 <= j < |labels| + 1 :: ([1] + labels)[j] in ring
    ensures labels != [] ==> 1 in ring && labels[0] == Succ(ring, 1)
    ensures forall j | 0 <= j < |labels| - 1 :: labels[j] in ring && labels[j + 1] == Succ(ring, labels[j])
  {
    var s := [1] + labels;
    if labels != [] {
      assert s[0] == 1 && Next(s, 0) == labels[0];
      SuccLinked(rt, ring, 1);
    }
    forall j | 0 <= j < |labels| - 1 ensures labels[j] in ring && labels[j + 1] == Succ(ring, labels[j]) {
      ChainAt(rt, ring, labels, j);
    }
  }

  /** One link of `ChainAfterOne`: the label at j + 1 is the clockwise neighbour of the label at j. */
  lemma ChainAt(rt: seq<nat>, ring: seq<nat>, labels: seq<nat>, j: nat)
    requires Distinct(ring) && RightLinked(rt, ring) && RightLinked(rt, [1] + labels)
    requires forall j | 0 <= j < |labels| + 1 :: ([1] + labels)[j] in ring
    requires j + 1 < |labels|
    ensures labels[j] in ring && labels[j + 1] == Succ(ring, labels[j])
  {
    var s := [1] + labels;
    assert NextIndex(|s|, j + 1) == j + 2;
    assert labels[j] == s[j + 1] && labels[j + 1] == s[j + 2];
    SuccLinked(rt, ring, labels[j]);
  }

  /** A rotation of a circle holds only its labels. */
  lemma RotationMembers(s: seq<nat>, k: nat)
    requires k < |s|
    ensures forall j | 0 <= j < |s| :: (s[k..] + s[..k])[j] in s
  {
    forall j | 0 <= j < |s| ensures (s[k..] + s[..k])[j] in s {
      if j < |s| - k {
        assert (s[k..] + s[..k])[j] == s[k + j];
      } else {
        assert (s[k..] + s[..k])[j] == s[j - (|s| - k)];
      }
    }
  }

  /** The labels after cup 1 are every other label, each the clockwise neighbour of the one before. */
  lemma AfterOneMeaning(ring: seq<nat>, count: nat)
    requires count >= 1 && IsRing(ring, count)
    ensures 1 in ring
    ensures var labels := AfterOne(ring);
      |labels| == count - 1 && IsRing([1] + labels, count) &&
      (labels != [] ==> labels[0] == Succ(ring, 1)) &&
      forall j | 0 <= j < |labels| - 1 :: labels[j] in ring && labels[j + 1] == Succ(ring, labels[j])
  {
    assert 1 in ring;
    var k := IndexOf(ring, 1);
    StartAtOne(ring, k);
    var rt := SuccTable(ring, count);
    SuccTableLinked(ring, count);
    RotateToIsRing(ring, count, k);
    RotateToRight(rt, ring, k);
    RotationMembers(ring, k);
    ChainAfterOne(rt, ring, AfterOne(ring));
  }

  /** The circle `getCups` builds: the input labels, then len+1..cupCount. */
  function InitialRing(input: seq<nat>, cupCount: nat): (r: seq<nat>)
    ensures |r| == cupCount
  {
    seq(cupCount, i requires 0 <= i < cupCount => if i < |input| then input[i] else i + 1)
  }

  /** The input labels 1..len followed by len+1..cupCount hold every label once. */
  lemma InitialIsRing(input: seq<nat>, cupCount: nat)
    requires 1 <= |input| <= cupCount && IsRing(input, |input|)
    ensures IsRing(InitialRing(input, cupCount), cupCount)
  {
    var r := InitialRing(input, cupCount);
    forall i, j | 0 <= i < j < cupCount ensures r[i] != r[j] {
      if j < |input| {
        DistinctAt(input, i, j);
      } else if i < |input| {
        assert input[i] in input;
      }
    }
    forall x: nat ensures x in r <==> 1 <= x <= cupCount {
      if 1 <= x <= cupCount {
        if x <= |input| {
          var k := IndexOf(input, x);
          assert r[k] == x;
        } else {
          assert r[x - 1] == x;
        }
      }
      if x in r {
        var i :| 0 <= i < |r| && r[i] == x;
        if i < |input| {
          assert input[i] in input;
        }
      }
    }
  }

  /** The ring after `moves` moves. */
  function Rounds(ring: seq<nat>, count: nat, moves: nat): (r: seq<nat>)
    requires IsRing(ring, count) && (moves > 0 ==> count >= 4)
    ensures IsRing(r, count)
    decreases moves
  {
    if moves == 0 then ring else MoveRing(Rounds(ring, count, moves - 1), count)
  }

  /** The first i cups of the ring are linked one to the next. */
  predicate PathLinked(rt: seq<nat>, lt: seq<nat>, ring: seq<nat>, i: nat)
  {
    forall j | 0 <= j < i - 1 && j + 1 < |ring| ::
      ring[j] < |rt| && Next(ring, j) < |lt| && rt[ring[j]] == Next(ring, j) && lt[Next(ring, j)] == ring[j]
  }

  lemma PathStep(rt: seq<nat>, lt: seq<nat>, ring: seq<nat>, count: nat, i: nat)
    requires IsRing(ring, count) && |rt| == count + 1 && |lt| == count + 1 && 0 < i < count
    requires PathLinked(rt, lt, ring, i)
    ensures ring[i - 1] < |rt| && ring[i] < |lt|
    ensures PathLinked(rt[ring[i - 1] := ring[i]], lt[ring[i] := ring[i - 1]], ring, i + 1)
  {
    RingBounds(ring, count);
    forall j | 0 <= j < i - 1 ensures ring[j] != ring[i - 1] && Next(ring, j) != ring[i] {
      DistinctAt(ring, j, i - 1);
      DistinctAt(ring, j + 1, i);
    }
    assert Next(ring, i - 1) == ring[i];
  }

  /** Linking the last cup to the first closes the path into the circle. */
  lemma CloseCircle(rt: seq<nat>, lt: seq<nat>, ring: seq<nat>, count: nat)
    requires IsRing(ring, count) && count >= 1 && |rt| == count + 1 && |lt| == count + 1
    requires PathLinked(rt, lt, ring, count)
    ensures ring[count - 1] < |rt| && ring[0] < |lt|
    ensures RightLinked(rt[ring[count - 1] := ring[0]], ring) && LeftLinked(lt[ring[0] := ring[count - 1]], ring)
  {
    RingBounds(ring, count);
    CloseRight(rt, lt, ring, count);
    CloseLeft(rt, lt, ring, count);
  }

  lemma CloseRight(rt: seq<nat>, lt: seq<nat>, ring: seq<nat>, count: nat)
    requires |ring| == count >= 1 && Distinct(ring) && |rt| == count + 1
    requires forall j | 0 <= j < |ring| :: 1 <= ring[j] <= count
    requires PathLinked(rt, lt, ring, count)
    ensures RightLinked(rt[ring[count - 1] := ring[0]], ring)
  {
    var r := rt[ring[count - 1] := ring[0]];
    forall i | 0 <= i < count ensures ring[i] < |r| && r[ring[i]] == Next(ring, i) {
      if i < count - 1 {
        DistinctAt(ring, i, count - 1);
      }
    }
  }

  lemma CloseLeft(rt: seq<nat>, lt: seq<nat>, ring: seq<nat>, count: nat)
    requires |ring| == count >= 1 && Distinct(ring) && |lt| == count + 1
    requires forall j | 0 <= j < |ring| :: 1 <= ring[j] <= count
    requires PathLinked(rt, lt, ring, count)
    ensures LeftLinked(lt[ring[0] := ring[count - 1]], ring)
  {
    var l := lt[ring[0] := ring[count - 1]];
    forall i | 0 <= i < count ensures Next(ring, i) < |l| && l[Next(ring, i)] == ring[i] {
      if i < count - 1 {
        DistinctAt(ring, i + 1, 0);
      }
    }
  }

  /** The current cup and the three lifted ones, read off a linked circle. */
  lemma FirstFour(ring: seq<nat>, count: nat, rt: seq<nat>)
    requires count >= 4 && IsRing(ring, count) && RightLinked(rt, ring) && |rt| == count + 1
    ensures ring[0] < |rt| && ring[1] < |rt| && ring[2] < |rt|
    ensures rt[ring[0]] == ring[1] && rt[ring[1]] == ring[2] && rt[ring[2]] == ring[3]
    ensures ring[3] < |rt| && rt[ring[3]] == Next(ring, 3)
    ensures 1 <= ring[0] <= count && ring[0] != ring[1] && ring[0] != ring[2] && ring[0] != ring[3]
  {
    LinkedAt(rt, ring, 0);
    LinkedAt(rt, ring, 1);
    LinkedAt(rt, ring, 2);
    LinkedAt(rt, ring, 3);
    assert ring[0] in ring;
    DistinctAt(ring, 0, 1);
    DistinctAt(ring, 0, 2);
    DistinctAt(ring, 0, 3);
  }

  /**
   * The destination search of a move: one below the current label,
   * wrapping to `max`, while the label is one of the lifted three.
   */
  method FindDestination(cur: nat, a: nat, b: nat, c: nat, max: nat) returns (dest: nat)
    requires max >= 4 && 1 <= cur <= max && cur != a && cur != b && cur != c
    ensures dest == Destination(cur, [a, b, c], max)
  {
    var removed := [a, b, c];
    DestinationValid(cur, removed, max);
    dest := if cur - 1 < 1 then max else cur - 1;
    ghost var tries: nat := 3;
    while dest in removed
      invariant tries <= 3 && Search(dest, removed, max, tries) == Destination(cur, removed, max)
      decreases tries
    {
      dest := if dest - 1 < 1 then max else dest - 1;
      tries := tries - 1;
    }
  }

  /** The cups of a game, with the pointers of each cup stored under its label. */
  class CupCircle {
    const count: nat
    const right: array<nat>
    const left: array<nat>
    var current: nat
    ghost var ring: seq<nat>

    ghost predicate Valid()
      reads this, right, left
    {
      right != left && right.Length == count + 1 && left.Length == count + 1 &&
      count >= 1 && IsRing(ring, count) && current == ring[0] &&
      RightLinked(right[..], ring) && LeftLinked(left[..], ring)
    }

    /**
     * `getCups`: links the input labels and then len+1..cupCount into one
     * circle, the first input label current.
     */
    constructor (input: seq<nat>, cupCount: nat)
      requires 1 <= |input| <= cupCount && IsRing(input, |input|)
      ensures Valid() && count == cupCount && ring == InitialRing(input, cupCount)
      ensures fresh(right) && fresh(left)
    {
      count := cupCount;
      right := new nat[cupCount + 1];
      left := new nat[cupCount + 1];
      new;
      ghost var order := InitialRing(input, cupCount);
      InitialIsRing(input, cupCount);
      RingBounds(order, cupCount);
      var i := 0;
      var prev := 0;
      while i < cupCount
        modifies right, left
        invariant 0 <= i <= cupCount
        invariant i > 0 ==> prev == order[i - 1]
        invariant PathLinked(right[..], left[..], order, i)
      {
        var num := if i < |input| then input[i] else i + 1;
        assert num == order[i];
        if i > 0 {
          ghost var rt := right[..];
          ghost var lt := left[..];
          Link(prev, num);
          PathStep(rt, lt, order, cupCount, i);
        }
        prev := num;
        i := i + 1;
      }
      assert i == cupCount;
      assert prev == order[cupCount - 1];
      assert order[0] == input[0];
      ghost var rt := right[..];
      ghost var lt := left[..];
      Link(prev, input[0]);
      CloseCircle(rt, lt, order, cupCount);
      current := input[0];
      ring := order;
    }

    /** Joining cup a to cup b: b comes right after a. */
    method Link(a: nat, b: nat)
      requires a < right.Length && b < left.Length && right != left
      modifies right, left
      ensures right[..] == old(right[..])[a := b]
      ensures left[..] == old(left[..])[b := a]
    {
      right[a] := b;
      left[b] := a;
    }

    /** Lifting: `currCup.right = removed[2].right` and the back pointer of that cup. */
    method Unhook(cur: nat, c: nat)
      requires cur < right.Length && c < right.Length && right[c] < left.Length && right != left
      modifies right, left
      ensures right[..] == old(right[..])[cur := old(right[c])]
      ensures left[..] == old(left[..])[old(right[c]) := cur]
    {
      right[cur] := right[c];
      left[right[cur]] := cur;
    }

    /** Putting the lifted cups back between the destination and the cup after it. */
    method Reinsert(c: nat, dest: nat, a: nat)
      requires c < right.Length && dest < right.Length && right[dest] < left.Length && a < left.Length
      requires right != left
      modifies right, left
      ensures right[..] == old(right[..])[c := old(right[dest])][dest := a]
      ensures left[..] == old(left[..])[old(right[dest]) := c][a := dest]
    {
      right[c] := right[dest];
      left[right[c]] := c;
      right[dest] := a;
      left[right[dest]] := dest;
    }

    /**
     * One move of `playGame`: lift the three cups clockwise of the current
     * cup, find the destination, put them back after it, and move on.
     */
    method Move()
      requires Valid() && count >= 4
      modifies this, right, left
      ensures Valid() && ring == MoveRing(old(ring), count)
    {
      ghost var r := ring;
      ghost var rt := right[..];
      ghost var lt := left[..];
      FirstFour(r, count, rt);
      LeftLinkedAt(lt, r, 3);
      var cur := current;
      var a := right[cur];
      var b := right[a];
      var c := right[b];
      assert a == r[1] && b == r[2] && c == r[3];

      Unhook(cur, c);
      var dest := FindDestination(cur, a, b, c, count);
      MoveState(r, count, rt, lt, a, b, c, dest);
      Reinsert(c, dest, a);
      assert right[..] == MovedRight(rt, r[0], a, c, dest);
      assert left[..] == MovedLeft(lt, r[0], a, c, dest, rt[c], rt[r[0] := rt[c]][dest]);
      current := right[cur];
      ring := MoveRing(r, count);
    }

    /** `playGame`'s loop: `moves` moves, one after another. */
    method Play(moves: nat)
      requires Valid() && (moves > 0 ==> count >= 4)
      modifies this, right, left
      ensures Valid() && ring == Rounds(old(ring), count, moves)
    {
      ghost var start := ring;
      var i := 0;
      while i < moves
        invariant 0 <= i <= moves && Valid()
        invariant ring == Rounds(start, count, i)
      {
        Move();
        i := i + 1;
      }
    }

    /**
     * `findCupLabels`'s walk: from the cup after cup 1, collect labels
     * clockwise until cup 1 comes round again.
     */
    method LabelsAfterOne() returns (labels: seq<nat>)
      requires Valid()
      ensures labels == AfterOne(ring)
    {
      ghost var t := FromOne(ring, count, right[..]);
      labels := WalkFromOne(right, t);
    }
  }

  /**
   * `findCupLabels`: build the circle, play `maxMoves` moves and read the
   * labels clockwise after cup 1.
   */
  method FindCupLabels(input: seq<nat>, cupCount: nat, maxMoves: nat) returns (labels: seq<nat>)
    requires 1 <= |input| <= cupCount && IsRing(input, |input|)
    requires maxMoves > 0 ==> cupCount >= 4
    ensures IsRing(InitialRing(input, cupCount), cupCount)
    ensures labels == AfterOne(Rounds(InitialRing(input, cupCount), cupCount, maxMoves))
  {
    InitialIsRing(input, cupCount);
    var cups := new CupCircle(input, cupCount);
    cups.Play(maxMoves);
    labels := cups.LabelsAfterOne();
  }

  /** The labels from position 1 up to and including i. */
  lemma SliceSnoc(t: seq<nat>, i: nat)
    requires 1 <= i < |t|
    ensures t[1..i + 1] == t[1..i] + [t[i]]
  {
  }

  /** The walk of `findCupLabels` along the right pointers of a circle read from cup 1. */
  method WalkFromOne(right: array<nat>, ghost t: seq<nat>) returns (labels: seq<nat>)
    requires |t| >= 1 && Distinct(t) && t[0] == 1 && RightLinked(right[..], t)
    ensures labels == t[1..]
  {
    labels := [];
    LinkedAt(right[..], t, 0);
    var cur := right[1];
    while cur != 1
      invariant |labels| < |t|
      invariant labels == t[1..|labels| + 1]
      invariant cur == Next(t, |labels|)
      decreases |t| - |labels|
    {
      ghost var k := |labels|;
      assert NextIndex(|t|, k) == k + 1;
      LinkedAt(right[..], t, k + 1);
      assert cur == t[k + 1];
      SliceSnoc(t, k + 1);
      labels := labels + [cur];
      cur := right[cur];
    }
  }
}
