/**
 * Snailfish (2021, day 18): snailfish numbers are binary trees with numbers at the leaves.
 * Adding two numbers pairs them under a new node and reduces the result: explode the leftmost
 * pair of numbers nested four deep until none is left, then split the leftmost number of 10 or
 * more, and repeat.
 *
 * The source keeps the tree as linked objects with parent pointers; here it is a value. The
 * only use the source makes of a leaf's parent pointer is in `Leaf.split`, and the leaf that
 * `explode` puts in place of a pair is created without one; each leaf therefore records
 * whether it is attached to its parent.
 */
module Snailfish {
  import opened Common

  datatype Tree = Leaf(val: int, attached: bool) | Node(left: Tree, right: Tree)

  /** The numbers of a tree, left to right. */
  function Values(t: Tree): (vs: seq<int>)
    ensures |vs| >= 1
  {
    match t
    case Leaf(v, _) => [v]
    case Node(l, r) => Values(l) + Values(r)
  }

  function NodeCount(t: Tree): nat
  {
    match t
    case Leaf(_, _) => 0
    case Node(l, r) => 1 + NodeCount(l) + NodeCount(r)
  }

  predicate AllAttached(t: Tree)
  {
    match t
    case Leaf(_, a) => a
    case Node(l, r) => AllAttached(l) && AllAttached(r)
  }

  // ---- split ----

  datatype Split = Split(tree: Tree, did: bool)

  /**
   * Leaf.split and Node.split: the leftmost number of 10 or more becomes a pair of its halves
   * rounded down and up. A leaf without a parent reports a split but is not replaced.
   */
  function SplitTree(t: Tree): Split
  {
    match t
    case Leaf(v, attached) =>
      if v >= 10 then Split(if attached then Node(Leaf(v / 2, true), Leaf((v + 1) / 2, true)) else t, true)
      else Split(t, false)
    case Node(l, r) =>
      var sl := SplitTree(l);
      if sl.did then Split(Node(sl.tree, r), true)
      else
        var sr := SplitTree(r);
        Split(Node(l, sr.tree), sr.did)
  }

  /** A leaf splits only from 10 up, into halves that add up to it and differ by at most one. */
  lemma SplitLeafHalves(v: int)
    ensures SplitTree(Leaf(v, true)).did <==> v >= 10
    ensures v >= 10 ==> SplitTree(Leaf(v, true)).tree == Node(Leaf(v / 2, true), Leaf((v + 1) / 2, true))
    ensures v >= 10 ==> v / 2 + (v + 1) / 2 == v && 0 <= (v + 1) / 2 - v / 2 <= 1
  {
  }

  /** The index of the first value of 10 or more. */
  function FirstBig(vs: seq<int>): (r: Option<nat>)
    ensures r.Some? ==> r.value < |vs| && vs[r.value] >= 10 && forall k :: 0 <= k < r.value ==> vs[k] < 10
    ensures r.None? ==> forall k :: 0 <= k < |vs| ==> vs[k] < 10
  {
    if vs == [] then None
    else if vs[0] >= 10 then Some(0)
    else match FirstBig(vs[1..]) case None => None case Some(i) => Some(i + 1)
  }

  lemma FirstBigAppend(a: seq<int>, b: seq<int>)
    ensures FirstBig(a + b) ==
      if FirstBig(a).Some? then FirstBig(a)
      else match FirstBig(b) case None => None case Some(j) => Some(|a| + j)
  {
    if FirstBig(a).Some? {
      var i := FirstBig(a).value;
      forall k | 0 <= k <= i ensures (a + b)[k] == a[k] { }
      UniqueFirst(a + b, i);
    } else if FirstBig(b).Some? {
      var j := FirstBig(b).value;
      forall k | 0 <= k <= |a| + j ensures (a + b)[k] == if k < |a| then a[k] else b[k - |a|] { }
      UniqueFirst(a + b, |a| + j);
    } else {
      NoneFirst(a + b);
    }
  }

  lemma UniqueFirst(vs: seq<int>, i: nat)
    requires i < |vs| && vs[i] >= 10 && forall k :: 0 <= k < i ==> vs[k] < 10
    ensures FirstBig(vs) == Some(i)
  {
  }

  lemma NoneFirst(vs: seq<int>)
    requires forall k :: 0 <= k < |vs| ==> vs[k] < 10
    ensures FirstBig(vs) == None
  {
  }

  /**
   * Split happens iff some number is 10 or more, and then exactly the first such number is
   * replaced by its two halves; with no split the tree is unchanged.
   */
  lemma SplitLeftmost(t: Tree)
    ensures SplitTree(t).did <==> FirstBig(Values(t)).Some?
    ensures !SplitTree(t).did ==> SplitTree(t).tree == t
    ensures AllAttached(t) && SplitTree(t).did ==>
      var vs := Values(t);
      var i := FirstBig(vs).value;
      AllAttached(SplitTree(t).tree) &&
      Values(SplitTree(t).tree) == Halves(vs, i)
  {
    SplitDetects(t);
    if AllAttached(t) && SplitTree(t).did {
      SplitValues(t);
    }
  }

  /** A split is reported exactly when some number is 10 or more; otherwise the tree is unchanged. */
  lemma {:induction false} SplitDetects(t: Tree)
    ensures SplitTree(t).did <==> FirstBig(Values(t)).Some?
    ensures !SplitTree(t).did ==> SplitTree(t).tree == t
  {
    match t
    case Leaf(v, a) =>
    case Node(l, r) =>
      SplitDetects(l);
      SplitDetects(r);
      FirstBigAppend(Values(l), Values(r));
  }

  /** On an attached tree a split replaces the first number of 10 or more by its halves. */
  lemma {:induction false} SplitValues(t: Tree)
    requires AllAttached(t) && SplitTree(t).did
    ensures FirstBig(Values(t)).Some?
    ensures AllAttached(SplitTree(t).tree) && Values(SplitTree(t).tree) == Halves(Values(t), FirstBig(Values(t)).value)
  {
    match t
    case Leaf(v, a) =>
      assert Halves([v], 0) == [v / 2, (v + 1) / 2];
    case Node(l, r) =>
      if SplitTree(l).did {
        SplitValues(l);
        SplitNodeLeft(l, r);
      } else {
        SplitDetects(l);
        SplitValues(r);
        SplitNodeRight(l, r);
      }
  }

  lemma SplitNodeLeft(l: Tree, r: Tree)
    requires AllAttached(r) && SplitTree(l).did && FirstBig(Values(l)).Some?
    requires AllAttached(SplitTree(l).tree) && Values(SplitTree(l).tree) == Halves(Values(l), FirstBig(Values(l)).value)
    ensures FirstBig(Values(Node(l, r))).Some?
    ensures var t := Node(l, r);
      AllAttached(SplitTree(t).tree) && Values(SplitTree(t).tree) == Halves(Values(t), FirstBig(Values(t)).value)
  {
    var vl, vr := Values(l), Values(r);
    FirstBigAppend(vl, vr);
    SplitInLeft(vl, vr, FirstBig(vl).value);
  }

  lemma SplitNodeRight(l: Tree, r: Tree)
    requires AllAttached(l) && !SplitTree(l).did && FirstBig(Values(l)).None?
    requires SplitTree(r).did && FirstBig(Values(r)).Some?
    requires AllAttached(SplitTree(r).tree) && Values(SplitTree(r).tree) == Halves(Values(r), FirstBig(Values(r)).value)
    ensures FirstBig(Values(Node(l, r))).Some?
    ensures var t := Node(l, r);
      AllAttached(SplitTree(t).tree) && Values(SplitTree(t).tree) == Halves(Values(t), FirstBig(Values(t)).value)
  {
    var vl, vr := Values(l), Values(r);
    FirstBigAppend(vl, vr);
    SplitInRight(vl, vr, FirstBig(vr).value);
  }

  /** The numbers with the one at index i replaced by its halves, rounded down and up. */
  function Halves(vs: seq<int>, i: nat): seq<int>
    requires i < |vs|
  {
    vs[..i] + [vs[i] / 2, (vs[i] + 1) / 2] + vs[i + 1..]
  }

  lemma SplitInLeft(vl: seq<int>, vr: seq<int>, i: nat)
    requires i < |vl|
    ensures var vs := vl + vr;
      Halves(vs, i) == Halves(vl, i) + vr
  {
    var vs := vl + vr;
    assert vs[..i] == vl[..i] && vs[i] == vl[i];
    assert vs[i + 1..] == vl[i + 1..] + vr;
  }

  lemma SplitInRight(vl: seq<int>, vr: seq<int>, j: nat)
    requires j < |vr|
    ensures var vs := vl + vr; var i := |vl| + j;
      Halves(vs, i) == vl + Halves(vr, j)
  {
    var vs := vl + vr;
    var i := |vl| + j;
    assert vs[..i] == vl + vr[..j] && vs[i] == vr[j];
    assert vs[i + 1..] == vr[j + 1..];
  }

  // ---- explode ----

  datatype Exploded = Exploded(tree: Tree, did: bool, carryL: int, carryR: int)

  /** Leaf.add on the leftmost leaf. */
  function AddLeftmost(t: Tree, x: int): Tree
  {
    match t
    case Leaf(v, a) => Leaf(v + x, a)
    case Node(l, r) => Node(AddLeftmost(l, x), r)
  }

  function AddRightmost(t: Tree, x: int): Tree
  {
    match t
    case Leaf(v, a) => Leaf(v + x, a)
    case Node(l, r) => Node(l, AddRightmost(r, x))
  }

  /**
   * Node.explode at nesting depth d: the first pair of two numbers at depth 4 or more becomes
   * the number 0 (attached to its parent when `attach`), its left number is added to the
   * nearest number on its left and its right number to the nearest on its right. Amounts with
   * no neighbour inside this subtree are handed up as carries; at the root they are dropped.
   */
  function Explode(t: Tree, d: nat, attach: bool): Exploded
  {
    match t
    case Leaf(_, _) => Exploded(t, false, 0, 0)
    case Node(l, r) =>
      if l.Leaf? && r.Leaf? then
        if d >= 4 then Exploded(Leaf(0, attach), true, l.val, r.val) else Exploded(t, false, 0, 0)
      else
        var el := if l.Node? then Explode(l, d + 1, attach) else Exploded(l, false, 0, 0);
        if el.did then
          Exploded(Node(el.tree, AddLeftmost(r, el.carryR)), true, el.carryL, 0)
        else if r.Node? then
          var er := Explode(r, d + 1, attach);
          if er.did then
            Exploded(Node(AddRightmost(l, er.carryL), er.tree), true, 0, er.carryR)
          else Exploded(t, false, 0, 0)
        else Exploded(t, false, 0, 0)
  }

  /** An explosion removes exactly one pair, and with `attach` every leaf stays attached. */
  lemma {:induction false} ExplodeShape(t: Tree, d: nat, attach: bool)
    ensures var e := Explode(t, d, attach);
      NodeCount(e.tree) == (if e.did then NodeCount(t) - 1 else NodeCount(t)) &&
      (attach && AllAttached(t) ==> AllAttached(e.tree))
  {
    match t
    case Leaf(_, _) =>
    case Node(l, r) =>
      if !(l.Leaf? && r.Leaf?) {
        ExplodeShape(l, d + 1, attach);
        ExplodeShape(r, d + 1, attach);
        var el := Explode(l, d + 1, attach);
        var er := Explode(r, d + 1, attach);
        AddLeftmostShape(r, el.carryR);
        AddRightmostShape(l, er.carryL);
      }
  }

  lemma {:induction false} AddLeftmostShape(t: Tree, x: int)
    ensures NodeCount(AddLeftmost(t, x)) == NodeCount(t)
    ensures AllAttached(AddLeftmost(t, x)) == AllAttached(t)
  {
    match t
    case Leaf(_, _) =>
    case Node(l, r) =>
      AddLeftmostShape(l, x);
  }

  lemma {:induction false} AddRightmostShape(t: Tree, x: int)
    ensures NodeCount(AddRightmost(t, x)) == NodeCount(t)
    ensures AllAttached(AddRightmost(t, x)) == AllAttached(t)
  {
    match t
    case Leaf(_, _) =>
    case Node(l, r) =>
      AddRightmostShape(r, x);
  }

  /** Adding to the leftmost leaf adds to the first number and changes no other. */
  lemma {:induction false} AddLeftmostValues(t: Tree, x: int)
    ensures Values(AddLeftmost(t, x)) == Values(t)[0 := Values(t)[0] + x]
  {
    match t
    case Leaf(_, _) =>
    case Node(l, r) =>
      AddLeftmostValues(l, x);
      var vl, vr := Values(l), Values(r);
      assert (vl + vr)[0 := vl[0] + x] == vl[0 := vl[0] + x] + vr;
  }

  /** Adding to the rightmost leaf adds to the last number and changes no other. */
  lemma {:induction false} AddRightmostValues(t: Tree, x: int)
    ensures var vs := Values(t); Values(AddRightmost(t, x)) == vs[|vs| - 1 := vs[|vs| - 1] + x]
  {
    match t
    case Leaf(_, _) =>
    case Node(l, r) =>
      AddRightmostValues(r, x);
      var vl, vr := Values(l), Values(r);
      var vs := vl + vr;
      assert vs[|vs| - 1 := vs[|vs| - 1] + x] == vl + vr[|vr| - 1 := vr[|vr| - 1] + x];
  }

  /** Reference: the index (into Values) of the left number of the first pair nested four deep. */
  function FirstPair(t: Tree, d: nat): Option<nat>
  {
    match t
    case Leaf(_, _) => None
    case Node(l, r) =>
      if l.Leaf? && r.Leaf? then (if d >= 4 then Some(0) else None)
      else match FirstPair(l, d + 1)
        case Some(i) => Some(i)
        case None => match FirstPair(r, d + 1) case None => None case Some(j) => Some(|Values(l)| + j)
  }

  /** The numbers after an explosion at index i: the pair becomes 0 and its numbers move outwards. */
  function Absorb(vs: seq<int>, i: nat): seq<int>
    requires i + 1 < |vs|
  {
    (if i > 0 then vs[..i - 1] + [vs[i - 1] + vs[i]] else [])
    + [0]
    + (if i + 2 < |vs| then [vs[i + 2] + vs[i + 1]] + vs[i + 3..] else [])
  }

  /**
   * explode acts on the first pair nested four deep, if any: the pair becomes 0, its numbers
   * are added to the nearest numbers on either side, and the amounts with no neighbour are
   * the carries. Without such a pair nothing changes.
   */
  lemma ExplodeSpec(t: Tree, d: nat, attach: bool)
    ensures ExplodesAsSpecified(t, d, attach)
  {
    ExplodeDetects(t, d, attach);
    ExplodeMoves(t, d, attach);
  }

  /** What ExplodeSpec states about one subtree. */
  predicate ExplodesAsSpecified(t: Tree, d: nat, attach: bool)
  {
    ExplodeDetected(t, d, attach) && ExplodeMoved(t, d, attach)
  }

  /** An explosion is reported exactly when there is a pair to explode, and otherwise nothing changes. */
  predicate ExplodeDetected(t: Tree, d: nat, attach: bool)
  {
    (Explode(t, d, attach).did <==> FirstPair(t, d).Some?) &&
    (!Explode(t, d, attach).did ==> Explode(t, d, attach) == Exploded(t, false, 0, 0))
  }

  /** Where there is a pair to explode, the numbers and carries come out as Absorb describes. */
  predicate ExplodeMoved(t: Tree, d: nat, attach: bool)
  {
    FirstPair(t, d).Some? ==>
      var e := Explode(t, d, attach);
      MovedAs(Values(t), FirstPair(t, d).value, e.carryL, e.carryR, Values(e.tree))
  }

  /**
   * Exploding the pair at index i of the numbers vs leaves `after` and hands up the carries:
   * the left number when nothing lies to its left, the right number when nothing lies to its right.
   */
  predicate MovedAs(vs: seq<int>, i: nat, carryL: int, carryR: int, after: seq<int>)
  {
    i + 1 < |vs| &&
    carryL == (if i == 0 then vs[i] else 0) &&
    carryR == (if i + 2 == |vs| then vs[i + 1] else 0) &&
    after == Absorb(vs, i)
  }

  lemma {:induction false} ExplodeDetects(t: Tree, d: nat, attach: bool)
    ensures ExplodeDetected(t, d, attach)
  {
    match t
    case Leaf(_, _) =>
    case Node(l, r) =>
      if !(l.Leaf? && r.Leaf?) {
        ExplodeDetects(l, d + 1, attach);
        ExplodeDetects(r, d + 1, attach);
      }
  }

  lemma {:induction false} ExplodeMoves(t: Tree, d: nat, attach: bool)
    ensures ExplodeMoved(t, d, attach)
  {
    match t
    case Leaf(_, _) =>
    case Node(l, r) =>
      if !(l.Leaf? && r.Leaf?) {
        ExplodeDetects(l, d + 1, attach);
        ExplodeDetects(r, d + 1, attach);
        if FirstPair(l, d + 1).Some? {
          ExplodeMoves(l, d + 1, attach);
          ExplodeInLeft(l, r, d, attach);
        } else if FirstPair(r, d + 1).Some? {
          ExplodeMoves(r, d + 1, attach);
          ExplodeInRight(l, r, d, attach);
        }
      }
  }

  lemma ExplodeInLeft(l: Tree, r: Tree, d: nat, attach: bool)
    requires !(l.Leaf? && r.Leaf?) && FirstPair(l, d + 1).Some? && Explode(l, d + 1, attach).did
    requires ExplodeMoved(l, d + 1, attach)
    ensures ExplodeMoved(Node(l, r), d, attach)
  {
    var t := Node(l, r);
    var i := FirstPair(l, d + 1).value;
    var el := Explode(l, d + 1, attach);
    assert FirstPair(t, d) == Some(i);
    assert Explode(t, d, attach) == Exploded(Node(el.tree, AddLeftmost(r, el.carryR)), true, el.carryL, 0);
    AddLeftmostValues(r, el.carryR);
    MovedLeft(Values(l), Values(r), i, el.carryL, el.carryR, Values(el.tree), Values(AddLeftmost(r, el.carryR)));
  }

  lemma ExplodeInRight(l: Tree, r: Tree, d: nat, attach: bool)
    requires !(l.Leaf? && r.Leaf?) && FirstPair(l, d + 1).None? && FirstPair(r, d + 1).Some?
    requires !Explode(l, d + 1, attach).did && Explode(r, d + 1, attach).did
    requires ExplodeMoved(r, d + 1, attach)
    ensures ExplodeMoved(Node(l, r), d, attach)
  {
    var j := FirstPair(r, d + 1).value;
    var er := Explode(r, d + 1, attach);
    ExplodeNodeRight(l, r, d, attach);
    AddRightmostValues(l, er.carryL);
    MovedRight(Values(l), Values(r), j, er.carryL, er.carryR, Values(er.tree), Values(AddRightmost(l, er.carryL)));
  }

  /** One step of Explode and FirstPair on a node whose pair to explode lies in its right part. */
  lemma ExplodeNodeRight(l: Tree, r: Tree, d: nat, attach: bool)
    requires !(l.Leaf? && r.Leaf?) && FirstPair(l, d + 1).None? && FirstPair(r, d + 1).Some?
    requires !Explode(l, d + 1, attach).did && Explode(r, d + 1, attach).did
    ensures var er := Explode(r, d + 1, attach);
      FirstPair(Node(l, r), d) == Some(|Values(l)| + FirstPair(r, d + 1).value) &&
      Explode(Node(l, r), d, attach) == Exploded(Node(AddRightmost(l, er.carryL), er.tree), true, 0, er.carryR) &&
      Values(Node(AddRightmost(l, er.carryL), er.tree)) == Values(AddRightmost(l, er.carryL)) + Values(er.tree) &&
      Values(Node(l, r)) == Values(l) + Values(r)
  {
  }

  /** An explosion in the left part: the right carry lands on the first number of the right part. */
  lemma MovedLeft(vl: seq<int>, vr: seq<int>, i: nat, carryL: int, carryR: int, after: seq<int>, right: seq<int>)
    requires MovedAs(vl, i, carryL, carryR, after) && |vr| >= 1
    requires right == vr[0 := vr[0] + carryR]
    ensures MovedAs(vl + vr, i, carryL, 0, after + right)
  {
    var vs := vl + vr;
    if i > 0 {
      assert vs[..i - 1] == vl[..i - 1];
    }
    if i + 2 < |vl| {
      assert vs[i + 3..] == vl[i + 3..] + vr;
      assert vr[0 := vr[0] + carryR] == vr;
    } else {
      assert vs[i + 3..] == vr[1..];
      assert vr[0 := vr[0] + carryR] == [vr[0] + carryR] + vr[1..];
    }
  }

  /** An explosion in the right part: the left carry lands on the last number of the left part. */
  lemma MovedRight(vl: seq<int>, vr: seq<int>, j: nat, carryL: int, carryR: int, after: seq<int>, left: seq<int>)
    requires MovedAs(vr, j, carryL, carryR, after) && |vl| >= 1
    requires left == vl[|vl| - 1 := vl[|vl| - 1] + carryL]
    ensures MovedAs(vl + vr, |vl| + j, 0, carryR, left + after)
  {
    var vs := vl + vr;
    var i := |vl| + j;
    if j > 0 {
      assert vs[..i - 1] == vl + vr[..j - 1];
      assert vl[|vl| - 1 := vl[|vl| - 1] + carryL] == vl;
    } else {
      assert vs[..i - 1] == vl[..|vl| - 1];
      assert vl[|vl| - 1 := vl[|vl| - 1] + carryL] == vl[..|vl| - 1] + [vl[|vl| - 1] + carryL];
    }
    if j + 2 < |vr| {
      assert vs[i + 3..] == vr[j + 3..];
    }
  }

  /** The do-while around explode: explode until nothing explodes. */
  function ExplodeAll(t: Tree, attach: bool): Tree
    decreases NodeCount(t)
  {
    var e := Explode(t, 0, attach);
    ExplodeShape(t, 0, attach);
    if e.did then ExplodeAll(e.tree, attach) else t
  }

  lemma {:induction false} ExplodeAllDone(t: Tree, attach: bool)
    ensures FirstPair(ExplodeAll(t, attach), 0).None?
    ensures attach && AllAttached(t) ==> AllAttached(ExplodeAll(t, attach))
    decreases NodeCount(t)
  {
    ExplodeSpec(t, 0, attach);
    ExplodeShape(t, 0, attach);
    var e := Explode(t, 0, attach);
    if e.did {
      ExplodeAllDone(e.tree, attach);
    }
  }

  // ---- reduce and add ----

  /**
   * Node.reduce: explode to a fixpoint, split once, and reduce again if something split. The
   * recursion is bounded by `fuel`; None means the bound ran out.
   */
  function Reduce(t: Tree, fuel: nat, attach: bool): Option<Tree>
    decreases fuel
  {
    var e := ExplodeAll(t, attach);
    var s := SplitTree(e);
    if !s.did then Some(e)
    else if fuel == 0 then None
    else Reduce(s.tree, fuel - 1, attach)
  }

  /** add as the source writes it: the exploded pair's 0 has no parent. */
  function AddAsWritten(a: Tree, b: Tree, fuel: nat): Option<Tree>
  {
    Reduce(Node(a, b), fuel, false)
  }

  /** add with the 0 attached to its parent, as evidently intended. */
  function Add(a: Tree, b: Tree, fuel: nat): Option<Tree>
  {
    Reduce(Node(a, b), fuel, true)
  }

  /**
   * A reduced sum has no pair nested four deep and no number of 10 or more, it holds the
   * numbers of both operands' trees reduced, and every leaf stays attached.
   */
  lemma {:induction false} AddIsReduced(a: Tree, b: Tree, fuel: nat)
    requires AllAttached(a) && AllAttached(b)
    ensures Add(a, b, fuel).Some? ==>
      var r := Add(a, b, fuel).value;
      FirstPair(r, 0).None? && (forall k :: 0 <= k < |Values(r)| ==> Values(r)[k] < 10) && AllAttached(r)
  {
    ReduceIsReduced(Node(a, b), fuel);
  }

  lemma {:induction false} ReduceIsReduced(t: Tree, fuel: nat)
    requires AllAttached(t)
    ensures Reduce(t, fuel, true).Some? ==>
      var r := Reduce(t, fuel, true).value;
      FirstPair(r, 0).None? && (forall k :: 0 <= k < |Values(r)| ==> Values(r)[k] < 10) && AllAttached(r)
    decreases fuel
  {
    var e := ExplodeAll(t, true);
    ExplodeAllDone(t, true);
    SplitLeftmost(e);
    if SplitTree(e).did && fuel > 0 {
      ReduceIsReduced(SplitTree(e).tree, fuel - 1);
    }
  }

  // ---- magnitude ----

  /** Leaf.magnitude is the value; Node.magnitude is 3 × left + 2 × right. */
  function Magnitude(t: Tree): int
  {
    match t
    case Leaf(v, _) => v
    case Node(l, r) => 3 * Magnitude(l) + 2 * Magnitude(r)
  }

  /** The weight of each number: 3 per left turn and 2 per right turn on its path. */
  function Weights(t: Tree): (ws: seq<int>)
    ensures |ws| == |Values(t)|
  {
    match t
    case Leaf(_, _) => [1]
    case Node(l, r) => Scale(3, Weights(l)) + Scale(2, Weights(r))
  }

  function Scale(k: int, s: seq<int>): (r: seq<int>)
    ensures |r| == |s|
  {
    seq(|s|, i requires 0 <= i < |s| => k * s[i])
  }

  function Dot(a: seq<int>, b: seq<int>): int
    requires |a| == |b|
  {
    if a == [] then 0 else a[0] * b[0] + Dot(a[1..], b[1..])
  }

  lemma {:induction false} DotAppend(a1: seq<int>, a2: seq<int>, b1: seq<int>, b2: seq<int>)
    requires |a1| == |b1| && |a2| == |b2|
    ensures Dot(a1 + a2, b1 + b2) == Dot(a1, b1) + Dot(a2, b2)
  {
    if a1 != [] {
      assert (a1 + a2)[1..] == a1[1..] + a2;
      assert (b1 + b2)[1..] == b1[1..] + b2;
      DotAppend(a1[1..], a2, b1[1..], b2);
    } else {
      assert a1 + a2 == a2 && b1 + b2 == b2;
    }
  }

  lemma {:induction false} DotScale(k: int, a: seq<int>, b: seq<int>)
    requires |a| == |b|
    ensures Dot(Scale(k, a), b) == k * Dot(a, b)
  {
    if a != [] {
      assert Scale(k, a)[1..] == Scale(k, a[1..]);
      DotScale(k, a[1..], b[1..]);
    }
  }

  /** The magnitude is the weighted sum of the numbers: each number counts 3^lefts × 2^rights. */
  lemma {:induction false} MagnitudeIsWeightedSum(t: Tree)
    ensures Magnitude(t) == Dot(Weights(t), Values(t))
  {
    match t
    case Leaf(v, _) =>
    case Node(l, r) =>
      MagnitudeIsWeightedSum(l);
      MagnitudeIsWeightedSum(r);
      DotAppend(Scale(3, Weights(l)), Scale(2, Weights(r)), Values(l), Values(r));
      DotScale(3, Weights(l), Values(l));
      DotScale(2, Weights(r), Values(r));
  }

  // ---- the detached zero ----

  /** [0, [[2, [8, 1]], [[4, 0], 0]]] */
  const Left0 := Node(Leaf(0, true), Node(Node(Leaf(2, true), Node(Leaf(8, true), Leaf(1, true))), Node(Node(Leaf(4, true), Leaf(0, true)), Leaf(0, true))))

  /** [0, 0] */
  const Right0 := Node(Leaf(0, true), Leaf(0, true))

  /** A tree whose first number of 10 or more has no parent: it never splits. */
  lemma {:induction false} StuckForever(s: Tree, fuel: nat)
    requires Explode(s, 0, false).did == false
    requires SplitTree(s) == Split(s, true)
    ensures Reduce(s, fuel, false) == None
  {
    assert ExplodeAll(s, false) == s;
    if fuel > 0 {
      StuckForever(s, fuel - 1);
    }
  }

  // The trees met while adding Left0 and Right0; Leaf(0, false) is the parentless 0.
  const T0 := Node(Left0, Right0)
  const WrittenE1 := Node(Node(Leaf(0, true), Node(Node(Leaf(10, true), Leaf(0, false)), Node(Node(Leaf(5, true), Leaf(0, true)), Leaf(0, true)))), Right0)
  const WrittenE2 := Node(Node(Leaf(0, true), Node(Node(Leaf(10, true), Leaf(5, false)), Node(Leaf(0, false), Leaf(0, true)))), Right0)
  const WrittenT1 := Node(Node(Leaf(0, true), Node(Node(Node(Leaf(5, true), Leaf(5, true)), Leaf(5, false)), Node(Leaf(0, false), Leaf(0, true)))), Right0)
  const Stuck := Node(Node(Leaf(5, true), Node(Node(Leaf(0, false), Leaf(10, false)), Node(Leaf(0, false), Leaf(0, true)))), Right0)

  lemma WrittenFirstExplosion()
    ensures Explode(T0, 0, false) == Exploded(WrittenE1, true, 0, 0)
  {
    var a := Node(Leaf(2, true), Node(Leaf(8, true), Leaf(1, true)));
    var b := Node(Node(Leaf(4, true), Leaf(0, true)), Leaf(0, true));
    assert Explode(Node(Leaf(8, true), Leaf(1, true)), 4, false) == Exploded(Leaf(0, false), true, 8, 1);
    assert Explode(a, 3, false) == Exploded(Node(Leaf(10, true), Leaf(0, false)), true, 0, 1);
    assert AddLeftmost(b, 1) == Node(Node(Leaf(5, true), Leaf(0, true)), Leaf(0, true));
    assert Explode(Node(a, b), 2, false) == Exploded(Node(Node(Leaf(10, true), Leaf(0, false)), AddLeftmost(b, 1)), true, 0, 0);
    assert Explode(Left0, 1, false) == Exploded(WrittenE1.left, true, 0, 0);
  }

  lemma WrittenSecondExplosion()
    ensures Explode(WrittenE1, 0, false) == Exploded(WrittenE2, true, 0, 0)
  {
    var a := Node(Leaf(10, true), Leaf(0, false));
    var b := Node(Node(Leaf(5, true), Leaf(0, true)), Leaf(0, true));
    assert Explode(a, 3, false) == Exploded(a, false, 0, 0);
    assert Explode(Node(Leaf(5, true), Leaf(0, true)), 4, false) == Exploded(Leaf(0, false), true, 5, 0);
    assert Explode(b, 3, false) == Exploded(Node(Leaf(0, false), Leaf(0, true)), true, 5, 0);
    assert Explode(Node(a, b), 2, false) == Exploded(Node(Node(Leaf(10, true), Leaf(5, false)), Node(Leaf(0, false), Leaf(0, true))), true, 0, 0);
  }

  lemma WrittenExplosionsEnd()
    ensures !Explode(WrittenE2, 0, false).did
  {
    ExplodeDetects(WrittenE2, 0, false);
  }

  lemma WrittenSplitsOnce()
    ensures SplitTree(WrittenE2) == Split(WrittenT1, true)
    ensures Explode(WrittenT1, 0, false) == Exploded(Stuck, true, 0, 0)
    ensures !Explode(Stuck, 0, false).did
    ensures SplitTree(Stuck) == Split(Stuck, true)
  {
  }

  /**
   * As written, adding [0,[[2,[8,1]],[[4,0],0]]] and [0,0] never finishes: the second
   * explosion's parentless 0 later collects 5 + 5 = 10, and splitting it reports success
   * without replacing it, so reduce calls itself again on an unchanged tree.
   */
  lemma AddAsWrittenDiverges(fuel: nat)
    ensures AddAsWritten(Left0, Right0, fuel) == None
  {
    WrittenExplodeAll();
    WrittenSplitsOnce();
    SplitThenStuck(T0, WrittenE2, WrittenT1, Stuck, fuel);
  }

  /** Reduce from t0 reaches, after one split, a tree that is stuck. */
  lemma SplitThenStuck(t0: Tree, e: Tree, t1: Tree, stuck: Tree, fuel: nat)
    requires ExplodeAll(t0, false) == e && SplitTree(e) == Split(t1, true)
    requires ExplodeAll(t1, false) == stuck
    requires !Explode(stuck, 0, false).did && SplitTree(stuck) == Split(stuck, true)
    ensures Reduce(t0, fuel, false) == None
  {
    if fuel > 0 {
      StuckForever(stuck, fuel - 1);
    }
  }

  lemma WrittenExplodeAll()
    ensures ExplodeAll(T0, false) == WrittenE2
    ensures ExplodeAll(WrittenT1, false) == Stuck
  {
    WrittenFirstExplosion();
    WrittenSecondExplosion();
    WrittenExplosionsEnd();
    WrittenSplitsOnce();
    ExplodeAllStep(WrittenE2, false);
    ExplodeAllStep(WrittenE1, false);
    ExplodeAllStep(T0, false);
    ExplodeAllStep(Stuck, false);
    ExplodeAllStep(WrittenT1, false);
  }

  lemma ExplodeAllStep(t: Tree, attach: bool)
    ensures ExplodeAll(t, attach) == if Explode(t, 0, attach).did then ExplodeAll(Explode(t, 0, attach).tree, attach) else t
  {
  }

  const FixedE1 := Node(Node(Leaf(0, true), Node(Node(Leaf(10, true), Leaf(0, true)), Node(Node(Leaf(5, true), Leaf(0, true)), Leaf(0, true)))), Right0)
  const FixedE2 := Node(Node(Leaf(0, true), Node(Node(Leaf(10, true), Leaf(5, true)), Node(Leaf(0, true), Leaf(0, true)))), Right0)
  const FixedT1 := Node(Node(Leaf(0, true), Node(Node(Node(Leaf(5, true), Leaf(5, true)), Leaf(5, true)), Node(Leaf(0, true), Leaf(0, true)))), Right0)
  const FixedE3 := Node(Node(Leaf(5, true), Node(Node(Leaf(0, true), Leaf(10, true)), Node(Leaf(0, true), Leaf(0, true)))), Right0)
  const FixedT2 := Node(Node(Leaf(5, true), Node(Node(Leaf(0, true), Node(Leaf(5, true), Leaf(5, true))), Node(Leaf(0, true), Leaf(0, true)))), Right0)
  const FixedSum := Node(Node(Leaf(5, true), Node(Node(Leaf(5, true), Leaf(0, true)), Node(Leaf(5, true), Leaf(0, true)))), Right0)

  lemma FixedFirstExplosion()
    ensures Explode(T0, 0, true) == Exploded(FixedE1, true, 0, 0)
  {
    var a := Node(Leaf(2, true), Node(Leaf(8, true), Leaf(1, true)));
    var b := Node(Node(Leaf(4, true), Leaf(0, true)), Leaf(0, true));
    assert Explode(Node(Leaf(8, true), Leaf(1, true)), 4, true) == Exploded(Leaf(0, true), true, 8, 1);
    assert Explode(a, 3, true) == Exploded(Node(Leaf(10, true), Leaf(0, true)), true, 0, 1);
    assert AddLeftmost(b, 1) == Node(Node(Leaf(5, true), Leaf(0, true)), Leaf(0, true));
    assert Explode(Node(a, b), 2, true) == Exploded(Node(Node(Leaf(10, true), Leaf(0, true)), AddLeftmost(b, 1)), true, 0, 0);
    assert Explode(Left0, 1, true) == Exploded(FixedE1.left, true, 0, 0);
  }

  lemma FixedSecondExplosion()
    ensures Explode(FixedE1, 0, true) == Exploded(FixedE2, true, 0, 0)
    ensures !Explode(FixedE2, 0, true).did
  {
    var a := Node(Leaf(10, true), Leaf(0, true));
    var b := Node(Node(Leaf(5, true), Leaf(0, true)), Leaf(0, true));
    assert Explode(a, 3, true) == Exploded(a, false, 0, 0);
    assert Explode(Node(Leaf(5, true), Leaf(0, true)), 4, true) == Exploded(Leaf(0, true), true, 5, 0);
    assert Explode(b, 3, true) == Exploded(Node(Leaf(0, true), Leaf(0, true)), true, 5, 0);
    assert Explode(Node(a, b), 2, true) == Exploded(Node(Node(Leaf(10, true), Leaf(5, true)), Node(Leaf(0, true), Leaf(0, true))), true, 0, 0);
    ExplodeDetects(FixedE2, 0, true);
  }

  lemma FixedThirdExplosion()
    ensures Explode(FixedT1, 0, true) == Exploded(FixedE3, true, 0, 0)
    ensures !Explode(FixedE3, 0, true).did
  {
    ExplodeDetects(FixedE3, 0, true);
  }

  lemma FixedSplits()
    ensures SplitTree(FixedE2) == Split(FixedT1, true)
    ensures SplitTree(FixedE3) == Split(FixedT2, true)
  {
  }

  lemma FixedLastExplosion()
    ensures Explode(FixedT2, 0, true) == Exploded(FixedSum, true, 0, 0)
  {
    var x := Node(Node(Leaf(0, true), Node(Leaf(5, true), Leaf(5, true))), Node(Leaf(0, true), Leaf(0, true)));
    assert Explode(Node(Leaf(5, true), Leaf(5, true)), 4, true) == Exploded(Leaf(0, true), true, 5, 5);
    assert Explode(x.left, 3, true) == Exploded(Node(Leaf(5, true), Leaf(0, true)), true, 0, 5);
    assert Explode(x, 2, true) == Exploded(Node(Node(Leaf(5, true), Leaf(0, true)), Node(Leaf(5, true), Leaf(0, true))), true, 0, 0);
    assert Explode(FixedT2.left, 1, true) == Exploded(FixedSum.left, true, 0, 0);
  }

  lemma FixedSumStuck()
    ensures !Explode(FixedSum, 0, true).did
    ensures !SplitTree(FixedSum).did
  {
    ExplodeDetects(FixedSum, 0, true);
  }

  lemma FixedExplodeAll()
    ensures ExplodeAll(T0, true) == FixedE2
    ensures ExplodeAll(FixedT1, true) == FixedE3
    ensures ExplodeAll(FixedT2, true) == FixedSum
  {
    FixedFirstExplosion();
    FixedSecondExplosion();
    FixedThirdExplosion();
    FixedLastExplosion();
    FixedSumStuck();
    ExplodeAllStep(FixedE2, true);
    ExplodeAllStep(FixedE1, true);
    ExplodeAllStep(T0, true);
    ExplodeAllStep(FixedE3, true);
    ExplodeAllStep(FixedT1, true);
    ExplodeAllStep(FixedSum, true);
    ExplodeAllStep(FixedT2, true);
  }

  /** Reduce from t0 splits twice and then stops. */
  lemma TwoSplitsThenDone(t0: Tree, e1: Tree, t1: Tree, e2: Tree, t2: Tree, final: Tree)
    requires ExplodeAll(t0, true) == e1 && SplitTree(e1) == Split(t1, true)
    requires ExplodeAll(t1, true) == e2 && SplitTree(e2) == Split(t2, true)
    requires ExplodeAll(t2, true) == final && !SplitTree(final).did
    ensures Reduce(t0, 2, true) == Some(final)
  {
  }

  /** With the 0 attached, the same sum reduces to [[5,[[5,0],[5,0]]],[0,0]]. */
  lemma AddReducesSameInput()
    ensures Add(Left0, Right0, 2) == Some(FixedSum)
  {
    FixedExplodeAll();
    FixedSplits();
    FixedSumStuck();
    TwoSplitsThenDone(T0, FixedE2, FixedT1, FixedE3, FixedT2, FixedSum);
  }
}
