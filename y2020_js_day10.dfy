/**
 * Adapter Array (2020, day 10): adapters accept an input 1, 2 or 3 jolts
 * below their rating; the socket is 0 and the device is 3 above the best
 * adapter. Part one counts the step sizes of the chain using every
 * adapter; part two counts the chains from the socket to the device, once
 * by a memoised walk of the adapter tree and once by a table of routes.
 */
module AdapterArray {
  /** Counts of 1-, 2- and 3-jolt steps. */
  datatype Diffs = Diffs(one: nat, two: nat, three: nat)

  /** The keys of `joltDict`. */
  function JoltSet(jolts: seq<int>): set<int>
  {
    set x | x in jolts
  }

  /** The walk so far: the joltage reached and the steps counted. */
  datatype Walked = Walked(current: int, diffs: Diffs)

  function AddStep(diffs: Diffs, d: int): Diffs
  {
    if d == 1 then diffs.(one := diffs.one + 1)
    else if d == 2 then diffs.(two := diffs.two + 1)
    else if d == 3 then diffs.(three := diffs.three + 1)
    else diffs
  }

  /** The inner loop over differences 1..3: the nearest adapter above, or 0 when none is within 3. */
  function NextStep(jolts: set<int>, current: int): (d: nat)
    ensures d <= 3
    ensures d > 0 ==> current + d in jolts
    ensures d != 1 ==> current + 1 !in jolts
    ensures d != 1 && d != 2 ==> current + 2 !in jolts
    ensures d == 0 ==> current + 3 !in jolts
  {
    if current + 1 in jolts then 1
    else if current + 2 in jolts then 2
    else if current + 3 in jolts then 3
    else 0
  }

  /**
   * The state after `steps` rounds of the outer loop. The 3-jolt count
   * starts at 1 for the step from the last adapter to the device. Every
   * step is counted, so the weighted counts add up to the joltage reached,
   * which is the socket or an adapter.
   */
  function Walk(jolts: set<int>, steps: nat): (w: Walked)
    ensures w.diffs.one + 2 * w.diffs.two + 3 * w.diffs.three == w.current + 3
    ensures w.diffs.one + w.diffs.two + w.diffs.three <= steps + 1
    ensures w.current == 0 || w.current in jolts
  {
    if steps == 0 then Walked(0, Diffs(0, 0, 1))
    else
      var prev := Walk(jolts, steps - 1);
      var d := NextStep(jolts, prev.current);
      Walked(prev.current + d, AddStep(prev.diffs, d))
  }

  /** The inner loop of `findJoltDiffs`: tries differences 1, 2, 3 and stops at the first adapter found. */
  method NearestStep(joltDict: set<int>, currentJolt: int) returns (found: nat)
    ensures found == NextStep(joltDict, currentJolt)
  {
    var difference := 1;
    while difference <= 3
      invariant 1 <= difference <= 4
      invariant NextStep(joltDict, currentJolt) == 0 || NextStep(joltDict, currentJolt) >= difference
    {
      if currentJolt + difference in joltDict {
        return difference;
      }
      difference := difference + 1;
    }
    return 0;
  }

  /** `findJoltDiffs`: as many rounds as adapters, each taking the nearest adapter within 3 jolts. */
  method FindJoltDiffs(jolts: seq<int>) returns (differences: Diffs)
    ensures differences == Walk(JoltSet(jolts), |jolts|).diffs
  {
    var joltDict := JoltSet(jolts);
    differences := Diffs(0, 0, 1);
    var currentJolt := 0;
    var i := 0;
    while i < |jolts|
      invariant 0 <= i <= |jolts|
      invariant Walked(currentJolt, differences) == Walk(joltDict, i)
    {
      var difference := NearestStep(joltDict, currentJolt);
      if difference > 0 {
        differences := AddStep(differences, difference);
        currentJolt := currentJolt + difference;
      }
      i := i + 1;
    }
  }

  /** The socket followed by the adapters; each step up is 1 to 3 jolts. */
  predicate IsChain(s: seq<int>)
  {
    (forall i, j | 0 <= i < j < |s| :: s[i] < s[j]) &&
    forall k | 0 <= k < |s| :: ([0] + s)[k + 1] - ([0] + s)[k] <= 3
  }

  /** The steps of a chain, counted, with the device step. */
  function GapCounts(c: seq<int>): Diffs
  {
    if |c| < 2 then Diffs(0, 0, 1)
    else AddStep(GapCounts(c[..|c| - 1]), c[|c| - 1] - c[|c| - 2])
  }

  /** The greedy step is g when the adapter g above exists and none nearer does. */
  lemma NearestIs(jolts: set<int>, current: int, g: int)
    requires 1 <= g <= 3 && current + g in jolts
    requires g > 1 ==> current + 1 !in jolts
    requires g > 2 ==> current + 2 !in jolts
    ensures NextStep(jolts, current) == g
  {
  }

  /** No adapter lies strictly between two neighbours of a sorted chain. */
  lemma NothingBetween(s: seq<int>, k: nat, x: int)
    requires IsChain(s) && 0 < k <= |s|
    requires ([0] + s)[k - 1] < x < ([0] + s)[k]
    ensures x !in JoltSet(s)
  {
    if x in JoltSet(s) {
      var j :| 0 <= j < |s| && s[j] == x;
    }
  }

  /** Step k of a sorted chain is the greedy step from its predecessor. */
  lemma ChainStep(s: seq<int>, k: nat)
    requires IsChain(s) && 0 < k <= |s| && s[0] > 0
    ensures NextStep(JoltSet(s), ([0] + s)[k - 1]) == ([0] + s)[k] - ([0] + s)[k - 1]
  {
    var c := [0] + s;
    var prev := c[k - 1];
    assert c[k] == s[k - 1] && c[k] in JoltSet(s);
    if k > 1 {
      assert s[k - 2] < s[k - 1];
    }
    if prev + 1 < c[k] {
      NothingBetween(s, k, prev + 1);
    }
    if prev + 2 < c[k] {
      NothingBetween(s, k, prev + 2);
    }
    assert c[k] - prev <= 3 by {
      assert c[(k - 1) + 1] - c[k - 1] <= 3;
    }
    NearestIs(JoltSet(s), prev, c[k] - prev);
  }

  /** One more joltage of a chain adds its step. */
  lemma GapCountsStep(c: seq<int>, n: nat)
    requires 1 <= n < |c|
    ensures GapCounts(c[..n + 1]) == AddStep(GapCounts(c[..n]), c[n] - c[n - 1])
  {
    assert c[..n + 1][..n] == c[..n];
  }

  /** Joltage n of c is the greedy step from joltage n − 1. */
  predicate Greedy(jolts: set<int>, c: seq<int>, n: nat)
    requires 1 <= n < |c|
  {
    NextStep(jolts, c[n - 1]) == c[n] - c[n - 1]
  }

  /** A walk whose every step is greedy visits c in order, counting its steps. */
  lemma {:induction false} WalkAlongGreedy(jolts: set<int>, c: seq<int>, k: nat)
    requires k < |c| && c[0] == 0
    requires forall n | 1 <= n <= k :: Greedy(jolts, c, n)
    ensures Walk(jolts, k) == Walked(c[k], GapCounts(c[..k + 1]))
  {
    if k > 0 {
      WalkAlongGreedy(jolts, c, k - 1);
      assert Greedy(jolts, c, k);
      GapCountsStep(c, k);
    } else {
      assert c[..1] == [0];
    }
  }

  /** On a chain of sorted adapters the greedy walk visits them in order and counts exactly the chain's steps. */
  lemma WalkFollowsChain(s: seq<int>, k: nat)
    requires IsChain(s) && k <= |s| && (|s| > 0 ==> s[0] > 0)
    ensures Walk(JoltSet(s), k) == Walked(([0] + s)[k], GapCounts(([0] + s)[..k + 1]))
  {
    forall n | 1 <= n <= k
      ensures Greedy(JoltSet(s), [0] + s, n)
    {
      ChainStep(s, n);
    }
    WalkAlongGreedy(JoltSet(s), [0] + s, k);
  }

  /**
   * `deviceJoltage`: the largest adapter plus 3, or 3 without adapters
   * (the fold starts from 3).
   */
  function DeviceJoltage(jolts: seq<int>): (device: int)
    ensures device >= 3
    ensures forall k | 0 <= k < |jolts| :: jolts[k] + 3 <= device
    ensures device == 3 || exists k | 0 <= k < |jolts| :: jolts[k] + 3 == device
  {
    if jolts == [] then 3
    else
      var n := |jolts| - 1;
      var rest := DeviceJoltage(jolts[..n]);
      assert forall k | 0 <= k < n :: jolts[..n][k] == jolts[k];
      if jolts[n] + 3 > rest then jolts[n] + 3 else rest
  }

  /**
   * `routes[i]` of `arrayCombinations`: 1 at the socket; at an adapter or
   * the device the routes to the three joltages below, a joltage with no
   * entry counting 0; no entry (0) elsewhere.
   */
  function Ways(jolts: set<int>, device: int, i: int): nat
    decreases if i > 0 then i else 0
  {
    if i == 0 then 1
    else if i < 0 then 0
    else if i in jolts || i == device then Ways(jolts, device, i - 1) + Ways(jolts, device, i - 2) + Ways(jolts, device, i - 3)
    else 0
  }

  /** `routes[j] || 0`. */
  function Routes(routes: map<int, nat>, j: int): nat
  {
    if j in routes then routes[j] else 0
  }

  /** `arrayCombinations`: fills the routes table upwards to the device. */
  method ArrayCombinations(jolts: seq<int>) returns (r: nat)
    ensures r == Ways(JoltSet(jolts), DeviceJoltage(jolts), DeviceJoltage(jolts))
  {
    var joltDict := JoltSet(jolts);
    var device := DeviceJoltage(jolts);
    var routes: map<int, nat> := map[0 := 1];
    var i := 1;
    while i <= device
      invariant 1 <= i <= device + 1
      invariant forall j :: j in routes <==> j == 0 || (1 <= j < i && (j in joltDict || j == device))
      invariant forall j {:trigger Routes(routes, j)} | j < i :: Routes(routes, j) == Ways(joltDict, device, j)
    {
      ghost var before := routes;
      if i in joltDict || i == device {
        routes := routes[i := Routes(routes, i - 1) + Routes(routes, i - 2) + Routes(routes, i - 3)];
      }
      forall j | j < i + 1
        ensures Routes(routes, j) == Ways(joltDict, device, j)
      {
        if j < i {
          assert Routes(routes, j) == Routes(before, j);
        }
      }
      i := i + 1;
    }
    assert Routes(routes, device) == Ways(joltDict, device, device);
    r := routes[device];
  }

  /**
   * `recurseTree(val)`: the leaves below a joltage of the tree, whose
   * children are the tree joltages 1..3 above; a joltage without children
   * is a leaf of its own. top bounds the tree's joltages.
   */
  function Leaves(tree: set<int>, top: int, v: int): (n: nat)
    requires forall x | x in tree :: x <= top
    ensures n >= 1
    decreases top - v
  {
    var s := Branch(tree, top, v, 1) + Branch(tree, top, v, 2) + Branch(tree, top, v, 3);
    if s == 0 then 1 else s
  }

  /** The leaves through child v + d, or 0 without that child. */
  function Branch(tree: set<int>, top: int, v: int, d: nat): nat
    requires forall x | x in tree :: x <= top
    requires 1 <= d <= 3
    decreases top - v, 0
  {
    if v + d in tree then Leaves(tree, top, v + d) else 0
  }

  /** The `children` reduce: the tree joltages 1..3 above, in order. */
  function Children(tree: set<int>, v: int): (cs: seq<int>)
    ensures forall k | 0 <= k < |cs| :: cs[k] in tree && v < cs[k] <= v + 3
  {
    (if v + 1 in tree then [v + 1] else []) + (if v + 2 in tree then [v + 2] else []) + (if v + 3 in tree then [v + 3] else [])
  }

  /** The leaves of a list of children, added up. */
  function LeavesOf(tree: set<int>, top: int, cs: seq<int>): nat
    requires forall x | x in tree :: x <= top
  {
    if cs == [] then 0
    else LeavesOf(tree, top, cs[..|cs| - 1]) + (if cs[|cs| - 1] in tree then Leaves(tree, top, cs[|cs| - 1]) else 0)
  }

  lemma LeavesOfAppend(tree: set<int>, top: int, a: seq<int>, b: seq<int>)
    requires forall x | x in tree :: x <= top
    ensures LeavesOf(tree, top, a + b) == LeavesOf(tree, top, a) + LeavesOf(tree, top, b)
  {
    if b != [] {
      assert (a + b)[..|a + b| - 1] == a + b[..|b| - 1];
      LeavesOfAppend(tree, top, a, b[..|b| - 1]);
    } else {
      assert a + b == a;
    }
  }

  /** The children's leaves are the three branches. */
  lemma ChildrenLeaves(tree: set<int>, top: int, v: int)
    requires forall x | x in tree :: x <= top
    ensures LeavesOf(tree, top, Children(tree, v)) == Branch(tree, top, v, 1) + Branch(tree, top, v, 2) + Branch(tree, top, v, 3)
  {
    var c1 := if v + 1 in tree then [v + 1] else [];
    var c2 := if v + 2 in tree then [v + 2] else [];
    var c3 := if v + 3 in tree then [v + 3] else [];
    LeavesOfAppend(tree, top, c1 + c2, c3);
    LeavesOfAppend(tree, top, c1, c2);
    assert LeavesOf(tree, top, c1) == Branch(tree, top, v, 1) by {
      if v + 1 in tree { assert c1[..0] == []; }
    }
    assert LeavesOf(tree, top, c2) == Branch(tree, top, v, 2) by {
      if v + 2 in tree { assert c2[..0] == []; }
    }
    assert LeavesOf(tree, top, c3) == Branch(tree, top, v, 3) by {
      if v + 3 in tree { assert c3[..0] == []; }
    }
  }

  /** A tree entry: whether its descendants are explored, and its leaves so far. */
  datatype Node = Node(mapped: bool, leaves: nat)

  /** Every mapped entry holds its final leaves. */
  predicate MappedRight(tree: set<int>, top: int, memo: map<int, Node>)
    requires forall x | x in tree :: x <= top
  {
    forall k | k in memo && memo[k].mapped :: memo[k].leaves == Leaves(tree, top, k)
  }

  /** No entry above v has been started without being finished. */
  predicate PendingEmpty(memo: map<int, Node>, v: int)
  {
    forall k | k in memo && k > v && !memo[k].mapped :: memo[k].leaves == 0
  }

  /**
   * The state of the memo while exploring from v: a mapped entry holds
   * its final leaves, and an unexplored entry above v holds none yet.
   */
  predicate Memo(tree: set<int>, top: int, memo: map<int, Node>, v: int)
    requires forall x | x in tree :: x <= top
  {
    memo.Keys == tree && MappedRight(tree, top, memo) && PendingEmpty(memo, v)
  }

  /** Exploring a child above v keeps the memo right for v: entries below the child are untouched. */
  lemma MemoAfterChild(before: map<int, Node>, after: map<int, Node>, v: int, child: int)
    requires v < child && PendingEmpty(before, v) && PendingEmpty(after, child) && child in after && after[child].mapped
    requires before.Keys == after.Keys
    requires forall k | k in before && k < child :: after[k] == before[k]
    ensures PendingEmpty(after, v)
  {
    forall k | k in after && k > v && !after[k].mapped
      ensures after[k].leaves == 0
    {
      if k < child {
        assert after[k] == before[k];
      }
    }
  }

  /** Changing the pending entry of v keeps the memo right for v. */
  lemma MemoAtPending(tree: set<int>, top: int, memo: map<int, Node>, v: int, leaves: nat)
    requires forall x | x in tree :: x <= top
    requires Memo(tree, top, memo, v) && v in memo
    ensures Memo(tree, top, memo[v := Node(false, leaves)], v)
  {
  }

  /** Recording v's final leaves keeps the memo right for v. */
  lemma MemoAtMapped(tree: set<int>, top: int, memo: map<int, Node>, v: int)
    requires forall x | x in tree :: x <= top
    requires Memo(tree, top, memo, v) && v in memo
    ensures Memo(tree, top, memo[v := Node(true, Leaves(tree, top, v))], v)
  {
  }

  /**
   * One pass of `recurseTree`'s loop: a mapped child adds its stored
   * leaves, any other is explored first; v's entry grows by the child's
   * leaves.
   */
  method VisitChild(tree: set<int>, top: int, memo: map<int, Node>, v: int, child: int) returns (memo': map<int, Node>)
    requires forall x | x in tree :: x <= top
    requires v < child && child in tree && v in tree && Memo(tree, top, memo, v) && !memo[v].mapped
    ensures Memo(tree, top, memo', v) && memo'[v] == Node(false, memo[v].leaves + Leaves(tree, top, child))
    ensures forall k | k in memo && k < v :: memo'[k] == memo[k]
    decreases top - v, 0
  {
    var add: nat;
    memo' := memo;
    if memo[child].mapped {
      add := memo[child].leaves;
    } else {
      memo', add := RecurseTree(tree, top, memo, child);
      MemoAfterChild(memo, memo', v, child);
    }
    MemoAtPending(tree, top, memo', v, memo'[v].leaves + add);
    memo' := memo'[v := Node(false, memo'[v].leaves + add)];
  }

  /** `recurseTree`: sums the children's leaves, exploring a child only if it is not mapped yet, then marks v mapped. */
  method RecurseTree(tree: set<int>, top: int, memo: map<int, Node>, v: int) returns (memo': map<int, Node>, leaves: nat)
    requires forall x | x in tree :: x <= top
    requires v in tree && Memo(tree, top, memo, v) && !memo[v].mapped && memo[v].leaves == 0
    ensures Memo(tree, top, memo', v) && memo'[v] == Node(true, Leaves(tree, top, v))
    ensures leaves == Leaves(tree, top, v)
    ensures forall k | k in memo && k < v :: memo'[k] == memo[k]
    decreases top - v, 2
  {
    var children := Children(tree, v);
    memo' := VisitChildren(tree, top, memo, v, children);
    ChildrenLeaves(tree, top, v);
    leaves := if memo'[v].leaves == 0 then 1 else memo'[v].leaves;
    MemoAtMapped(tree, top, memo', v);
    memo' := memo'[v := Node(true, leaves)];
  }

  /** The `for` loop of `recurseTree`: visits the children in order, adding their leaves to v's count. */
  method VisitChildren(tree: set<int>, top: int, memo: map<int, Node>, v: int, children: seq<int>) returns (memo': map<int, Node>)
    requires forall x | x in tree :: x <= top
    requires v in tree && Memo(tree, top, memo, v) && !memo[v].mapped && memo[v].leaves == 0
    requires forall k | 0 <= k < |children| :: v < children[k] && children[k] in tree
    ensures Memo(tree, top, memo', v) && !memo'[v].mapped
    ensures memo'[v].leaves == LeavesOf(tree, top, children)
    ensures forall k | k in memo && k < v :: memo'[k] == memo[k]
    decreases top - v, 1
  {
    memo' := memo;
    var i := 0;
    while i < |children|
      invariant 0 <= i <= |children|
      invariant Memo(tree, top, memo', v) && !memo'[v].mapped
      invariant memo'[v].leaves == LeavesOf(tree, top, children[..i])
      invariant forall k | k in memo && k < v :: memo'[k] == memo[k]
    {
      assert children[..i + 1][..i] == children[..i];
      memo' := VisitChild(tree, top, memo', v, children[i]);
      i := i + 1;
    }
    assert children[..i] == children;
  }

  /** The tree's joltages: the socket (`start` = 0) and the adapters. */
  function TreeOf(jolts: seq<int>): set<int>
  {
    JoltSet(jolts) + {0}
  }

  /** Every tree joltage is at most the device joltage less 3. */
  lemma TreeBelowDevice(jolts: seq<int>)
    ensures forall x | x in TreeOf(jolts) :: x <= DeviceJoltage(jolts) - 3
  {
  }

  /** `treeCombinations` with the default start 0 and differences 1..3: the leaves below the socket. */
  method TreeCombinations(jolts: seq<int>) returns (r: nat)
    ensures r == Leaves(TreeOf(jolts), DeviceJoltage(jolts) - 3, 0)
  {
    var tree := TreeOf(jolts);
    var top := DeviceJoltage(jolts) - 3;
    TreeBelowDevice(jolts);
    var memo: map<int, Node> := map k | k in tree :: Node(false, 0);
    var leaves;
    memo, leaves := RecurseTree(tree, top, memo, 0);
    r := memo[0].leaves;
  }

  /** Chains from a up to b through joltages of the set, counted from the bottom. */
  function Forward(tree: set<int>, b: int, a: int): nat
    decreases b - a
  {
    if a >= b then (if a == b then 1 else 0)
    else
      (if a + 1 in tree then Forward(tree, b, a + 1) else 0) +
      (if a + 2 in tree then Forward(tree, b, a + 2) else 0) +
      (if a + 3 in tree then Forward(tree, b, a + 3) else 0)
  }

  /** The same chains counted from the top. */
  function Backward(tree: set<int>, a: int, b: int): nat
    decreases b - a
  {
    if b <= a then (if a == b then 1 else 0)
    else
      (if b - 1 in tree then Backward(tree, a, b - 1) else 0) +
      (if b - 2 in tree then Backward(tree, a, b - 2) else 0) +
      (if b - 3 in tree then Backward(tree, a, b - 3) else 0)
  }

  /** The chains from a to c whose first step is d, when a + d is a joltage of the tree. */
  function FirstTerm(tree: set<int>, c: int, a: int, d: int): nat
  {
    if a + d in tree then Forward(tree, c, a + d) else 0
  }

  /** The chains from a to b whose last step is d, when b − d is a joltage of the tree. */
  function LastTerm(tree: set<int>, a: int, b: int, d: int): nat
  {
    if b - d in tree then Forward(tree, b - d, a) else 0
  }

  /** 1 when the two ends meet. */
  function Meets(x: int, y: int): nat
  {
    if x == y then 1 else 0
  }

  /** Σ over the last step d2 of the chains from a to b − d2. */
  function LastSteps(tree: set<int>, a: int, b: int): nat
  {
    LastTerm(tree, a, b, 1) + LastTerm(tree, a, b, 2) + LastTerm(tree, a, b, 3)
  }

  /** Σ over the first step d1 of the chains from a + d1 to c. */
  function FirstSteps(tree: set<int>, a: int, c: int): nat
  {
    FirstTerm(tree, c, a, 1) + FirstTerm(tree, c, a, 2) + FirstTerm(tree, c, a, 3)
  }

  /** Chains a → c with first step d1 and last step d2, for the cells of the exchange of sums. */
  function Cell(tree: set<int>, a: int, b: int, d1: int, d2: int): nat
  {
    if a + d1 in tree && b - d2 in tree then Forward(tree, b - d2, a + d1) else 0
  }

  /** Unfolding the first step of a count whose ends may also coincide or cross. */
  lemma ForwardUnfold(tree: set<int>, a: int, c: int)
    ensures Forward(tree, c, a) == Meets(a, c) + FirstSteps(tree, a, c)
  {
  }

  /** After a first step d1 to a joltage of the tree, the chains split by their last step. */
  lemma FirstStepSplit(tree: set<int>, a: int, b: int, d1: int)
    requires a in tree && b in tree && 1 <= d1 <= 3 && a < b
    requires a + d1 in tree && a + d1 <= b ==> Forward(tree, b, a + d1) == Meets(a + d1, b) + LastSteps(tree, a + d1, b)
    ensures FirstTerm(tree, b, a, d1) == Meets(a + d1, b) + Cell(tree, a, b, d1, 1) + Cell(tree, a, b, d1, 2) + Cell(tree, a, b, d1, 3)
  {
    if a + d1 > b {
      assert a + d1 > b - 1 && a + d1 > b - 2 && a + d1 > b - 3;
    }
  }

  /** Before a last step d2 from a joltage of the tree, the chains split by their first step. */
  lemma LastStepSplit(tree: set<int>, a: int, b: int, d2: int)
    requires a in tree && b in tree && 1 <= d2 <= 3 && a < b
    ensures LastTerm(tree, a, b, d2) == Meets(b - d2, a) + Cell(tree, a, b, 1, d2) + Cell(tree, a, b, 2, d2) + Cell(tree, a, b, 3, d2)
  {
    if b - d2 in tree {
      ForwardUnfold(tree, a, b - d2);
    }
  }

  /** Exchanging the order of a 3 × 3 sum: rows of first steps against columns of last steps. */
  lemma ExchangeSums(f1: int, f2: int, f3: int, l1: int, l2: int, l3: int, e1: int, e2: int, e3: int, g1: int, g2: int, g3: int,
                     c11: int, c12: int, c13: int, c21: int, c22: int, c23: int, c31: int, c32: int, c33: int)
    requires f1 == e1 + c11 + c12 + c13 && f2 == e2 + c21 + c22 + c23 && f3 == e3 + c31 + c32 + c33
    requires l1 == g1 + c11 + c21 + c31 && l2 == g2 + c12 + c22 + c32 && l3 == g3 + c13 + c23 + c33
    requires e1 + e2 + e3 == g1 + g2 + g3
    ensures f1 + f2 + f3 == l1 + l2 + l3
  {
  }

  /** Splitting off the first step equals splitting off the last one. */
  lemma {:induction false} FirstEqualsLast(tree: set<int>, a: int, b: int)
    requires a in tree && b in tree
    ensures Forward(tree, b, a) == Meets(a, b) + LastSteps(tree, a, b)
    decreases b - a
  {
    if a < b {
      if a + 1 in tree && a + 1 <= b { FirstEqualsLast(tree, a + 1, b); }
      if a + 2 in tree && a + 2 <= b { FirstEqualsLast(tree, a + 2, b); }
      if a + 3 in tree && a + 3 <= b { FirstEqualsLast(tree, a + 3, b); }
      FirstStepSplit(tree, a, b, 1);
      FirstStepSplit(tree, a, b, 2);
      FirstStepSplit(tree, a, b, 3);
      LastStepSplit(tree, a, b, 1);
      LastStepSplit(tree, a, b, 2);
      LastStepSplit(tree, a, b, 3);
      ForwardUnfold(tree, a, b);
      ExchangeSums(
        FirstTerm(tree, b, a, 1), FirstTerm(tree, b, a, 2), FirstTerm(tree, b, a, 3),
        LastTerm(tree, a, b, 1), LastTerm(tree, a, b, 2), LastTerm(tree, a, b, 3),
        Meets(a + 1, b), Meets(a + 2, b), Meets(a + 3, b),
        Meets(b - 1, a), Meets(b - 2, a), Meets(b - 3, a),
        Cell(tree, a, b, 1, 1), Cell(tree, a, b, 1, 2), Cell(tree, a, b, 1, 3),
        Cell(tree, a, b, 2, 1), Cell(tree, a, b, 2, 2), Cell(tree, a, b, 2, 3),
        Cell(tree, a, b, 3, 1), Cell(tree, a, b, 3, 2), Cell(tree, a, b, 3, 3));
    }
  }

  /** Counting chains from either end gives the same number. */
  lemma {:induction false} ForwardIsBackward(tree: set<int>, a: int, b: int)
    requires a in tree && b in tree
    ensures Forward(tree, b, a) == Backward(tree, a, b)
    decreases b - a
  {
    FirstEqualsLast(tree, a, b);
    if a < b {
      if b - 1 in tree { ForwardIsBackward(tree, a, b - 1); }
      if b - 2 in tree { ForwardIsBackward(tree, a, b - 2); }
      if b - 3 in tree { ForwardIsBackward(tree, a, b - 3); }
    }
  }

  /** Every joltage of the tree below the top has a child, so only the top is a leaf. */
  predicate Connected(tree: set<int>, top: int)
  {
    forall x {:trigger HasChild(tree, x)} | x in tree && x < top :: HasChild(tree, x)
  }

  /** Some joltage 1..3 above x is in the tree. */
  predicate HasChild(tree: set<int>, x: int)
  {
    x + 1 in tree || x + 2 in tree || x + 3 in tree
  }

  /** In a connected tree the leaves below v are the chains from v to the top. */
  lemma {:induction false} LeavesAreChains(tree: set<int>, top: int, v: int)
    requires forall x | x in tree :: x <= top
    requires top in tree && v in tree && Connected(tree, top)
    ensures Leaves(tree, top, v) == Forward(tree, top, v)
    decreases top - v
  {
    if v + 1 in tree { LeavesAreChains(tree, top, v + 1); }
    if v + 2 in tree { LeavesAreChains(tree, top, v + 2); }
    if v + 3 in tree { LeavesAreChains(tree, top, v + 3); }
    assert Branch(tree, top, v, 1) == FirstTerm(tree, top, v, 1);
    assert Branch(tree, top, v, 2) == FirstTerm(tree, top, v, 2);
    assert Branch(tree, top, v, 3) == FirstTerm(tree, top, v, 3);
    ForwardUnfold(tree, v, top);
    var sum := Branch(tree, top, v, 1) + Branch(tree, top, v, 2) + Branch(tree, top, v, 3);
    if v < top {
      assert HasChild(tree, v);
      assert sum > 0;
    } else {
      assert v + 1 !in tree && v + 2 !in tree && v + 3 !in tree;
    }
  }

  /** Below the device the routes are the chains from the socket, counted from the top. */
  lemma {:induction false} WaysAreChains(jolts: seq<int>, b: int)
    requires 0 <= b <= DeviceJoltage(jolts) - 3 && b in TreeOf(jolts)
    ensures Ways(JoltSet(jolts), DeviceJoltage(jolts), b) == Backward(TreeOf(jolts), 0, b)
    decreases b
  {
    var device := DeviceJoltage(jolts);
    var s := JoltSet(jolts);
    if b > 0 {
      if b - 1 >= 0 && b - 1 in TreeOf(jolts) { WaysAreChains(jolts, b - 1); }
      if b - 2 >= 0 && b - 2 in TreeOf(jolts) { WaysAreChains(jolts, b - 2); }
      if b - 3 >= 0 && b - 3 in TreeOf(jolts) { WaysAreChains(jolts, b - 3); }
    }
  }

  /**
   * When every adapter below the best one has a successor within 3 jolts,
   * both ways of counting give the same number of arrangements.
   */
  lemma TreeCountIsArrayCount(jolts: seq<int>)
    requires Connected(TreeOf(jolts), DeviceJoltage(jolts) - 3)
    ensures Leaves(TreeOf(jolts), DeviceJoltage(jolts) - 3, 0) == Ways(JoltSet(jolts), DeviceJoltage(jolts), DeviceJoltage(jolts))
  {
    var tree := TreeOf(jolts);
    var device := DeviceJoltage(jolts);
    var top := device - 3;
    var s := JoltSet(jolts);
    assert top in tree by {
      if top != 0 {
        var k :| 0 <= k < |jolts| && jolts[k] + 3 == device;
      }
    }
    LeavesAreChains(tree, top, 0);
    ForwardIsBackward(tree, 0, top);
    WaysAreChains(jolts, top);
    assert Ways(s, device, device - 1) == 0 && Ways(s, device, device - 2) == 0;
  }

  /** Without that condition they differ: a lone adapter 5 is a leaf of the tree, but no chain reaches the device. */
  lemma DisconnectedDiffers()
    ensures Leaves(TreeOf([5]), DeviceJoltage([5]) - 3, 0) == 1
    ensures Ways(JoltSet([5]), DeviceJoltage([5]), DeviceJoltage([5])) == 0
  {
    var s := JoltSet([5]);
    assert s == {5};
    assert TreeOf([5]) == {0, 5};
    assert DeviceJoltage([5]) == 8 by {
      assert [5][..0] == [];
    }
    assert Ways(s, 8, 5) == 0 by {
      assert Ways(s, 8, 4) == 0 && Ways(s, 8, 3) == 0 && Ways(s, 8, 2) == 0;
    }
    assert Ways(s, 8, 7) == 0 && Ways(s, 8, 6) == 0;
  }
}
