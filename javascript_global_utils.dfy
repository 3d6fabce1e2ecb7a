/**
 * Shared helpers of the 2020 JavaScript solutions: the handheld console
 * (`cpu`), which runs acc/jmp/nop instructions until the instruction pointer leaves the
 * program or an instruction would run once too often, and `findSum`, which
 * finds n numbers of a list adding up to a target.
 */
module GlobalUtils {
  import opened Common

  datatype Op = Acc | Jmp | Nop

  /** One line such as "jmp -3", once split into its command and `Number(incr)`. */
  datatype Instruction = Instruction(op: Op, arg: int)

  /** `{ accumulator, terminated }`. */
  datatype Outcome = Outcome(accumulator: int, terminated: bool)

  /** No instruction has run more than maxLoop times. */
  predicate WithinLimit(loops: seq<nat>, maxLoop: nat)
  {
    forall k | 0 <= k < |loops| :: loops[k] <= maxLoop
  }

  /** The runs still allowed: Σ (maxLoop − loops[k]). */
  function Unspent(loops: seq<nat>, maxLoop: nat): nat
  {
    if loops == [] then 0
    else
      var n := |loops| - 1;
      Unspent(loops[..n], maxLoop) + (if loops[n] <= maxLoop then maxLoop - loops[n] else 0)
  }

  /** One more run of an instruction below its limit spends one allowed run. */
  lemma {:induction false} UnspentUpdate(loops: seq<nat>, maxLoop: nat, i: nat)
    requires i < |loops| && loops[i] < maxLoop
    ensures Unspent(loops[i := loops[i] + 1], maxLoop) == Unspent(loops, maxLoop) - 1
  {
    var n := |loops| - 1;
    if i < n {
      assert loops[i := loops[i] + 1][..n] == loops[..n][i := loops[i] + 1];
      UnspentUpdate(loops[..n], maxLoop, i);
    } else {
      assert loops[i := loops[i] + 1][..n] == loops[..n];
    }
  }

  /** Before the first step every instruction has all its runs left. */
  lemma {:induction false} UnspentOfZeros(n: nat, maxLoop: nat)
    ensures Unspent(seq(n, _ => 0), maxLoop) == maxLoop * n
  {
    if n > 0 {
      assert seq(n, _ => 0)[..n - 1] == seq(n - 1, _ => 0);
      UnspentOfZeros(n - 1, maxLoop);
    }
  }

  /**
   * The console from pointer i with accumulator acc and visit counts loops:
   * it stops terminated once the instruction pointer reaches the end, stops
   * unterminated when the instruction at the instruction pointer has run maxLoop times,
   * and fails (None) when a jump leaves the instruction pointer below 0, where
   * `instructions[i].split` throws.
   */
  function Execute(prog: seq<Instruction>, maxLoop: nat, i: int, acc: int, loops: seq<nat>): Option<Outcome>
    requires |loops| == |prog| && WithinLimit(loops, maxLoop)
    decreases Unspent(loops, maxLoop)
  {
    if i >= |prog| then Some(Outcome(acc, true))
    else if i < 0 then None
    else if loops[i] == maxLoop then Some(Outcome(acc, false))
    else
      var next := loops[i := loops[i] + 1];
      UnspentUpdate(loops, maxLoop, i);
      match prog[i].op
      case Acc => Execute(prog, maxLoop, i + 1, acc + prog[i].arg, next)
      case Jmp => Execute(prog, maxLoop, i + prog[i].arg, acc, next)
      case Nop => Execute(prog, maxLoop, i + 1, acc, next)
  }

  /**
   * One pass of `cpu`'s loop below the limit: counts the run of instruction
   * i and executes it, leaving the run's outcome unchanged and one allowed
   * run fewer.
   */
  method StepOnce(instructions: seq<Instruction>, maxLoop: nat, loops: array<nat>, i: nat, acc: int)
    returns (i': int, acc': int)
    requires loops.Length == |instructions| && WithinLimit(loops[..], maxLoop)
    requires i < |instructions| && loops[i] < maxLoop
    modifies loops
    ensures loops[..] == old(loops[..])[i := old(loops[i]) + 1]
    ensures WithinLimit(loops[..], maxLoop)
    ensures Unspent(loops[..], maxLoop) == Unspent(old(loops[..]), maxLoop) - 1
    ensures Execute(instructions, maxLoop, i', acc', loops[..]) == Execute(instructions, maxLoop, i, acc, old(loops[..]))
  {
    UnspentUpdate(loops[..], maxLoop, i);
    loops[i] := loops[i] + 1;
    var ins := instructions[i];
    match ins.op {
      case Acc =>
        i', acc' := i + 1, acc + ins.arg;
      case Jmp =>
        i', acc' := i + ins.arg, acc;
      case Nop =>
        i', acc' := i + 1, acc;
    }
  }

  /** `cpu(instructions, mem, maxLoop)`: a run from the first instruction with no instruction yet visited. */
  function Run(prog: seq<Instruction>, mem: int, maxLoop: nat): Option<Outcome>
  {
    Execute(prog, maxLoop, 0, mem, seq(|prog|, _ => 0))
  }

  /**
   * `cpu`: counts every instruction's runs in an array, and stops when the
   * pointer leaves the program or an instruction is due to run once too
   * often. The ghost `steps` counts the instructions run, at most maxLoop
   * per instruction.
   */
  method Cpu(instructions: seq<Instruction>, mem: int, maxLoop: nat) returns (r: Option<Outcome>, ghost steps: nat)
    ensures r == Run(instructions, mem, maxLoop)
    ensures steps <= maxLoop * |instructions|
  {
    var loops := new nat[|instructions|](_ => 0);
    assert loops[..] == seq(|instructions|, _ => 0);
    UnspentOfZeros(|instructions|, maxLoop);
    var acc := mem;
    var i := 0;
    steps := 0;
    while i < |instructions|
      invariant WithinLimit(loops[..], maxLoop)
      invariant Execute(instructions, maxLoop, i, acc, loops[..]) == Run(instructions, mem, maxLoop)
      invariant steps + Unspent(loops[..], maxLoop) == maxLoop * |instructions|
      decreases Unspent(loops[..], maxLoop)
    {
      if i < 0 {
        return None, steps;
      }
      if loops[i] == maxLoop {
        return Some(Outcome(acc, false)), steps;
      }
      i, acc := StepOnce(instructions, maxLoop, loops, i, acc);
      steps := steps + 1;
    }
    return Some(Outcome(acc, true)), steps;
  }

  /** What the acc instructions of a program add, in order. */
  function AccTotal(prog: seq<Instruction>): int
  {
    if prog == [] then 0 else (if prog[0].op == Acc then prog[0].arg else 0) + AccTotal(prog[1..])
  }

  /** Without jumps the console runs straight to the end, adding every acc argument once. */
  lemma {:induction false} StraightLine(prog: seq<Instruction>, maxLoop: nat, i: nat, acc: int, loops: seq<nat>)
    requires |loops| == |prog| && WithinLimit(loops, maxLoop) && maxLoop > 0 && i <= |prog|
    requires forall k | i <= k < |prog| :: prog[k].op != Jmp && loops[k] == 0
    ensures Execute(prog, maxLoop, i, acc, loops) == Some(Outcome(acc + AccTotal(prog[i..]), true))
    decreases |prog| - i
  {
    if i < |prog| {
      var next := loops[i := loops[i] + 1];
      StraightLine(prog, maxLoop, i + 1, acc + (if prog[i].op == Acc then prog[i].arg else 0), next);
      assert prog[i..][1..] == prog[i + 1..];
    }
  }

  /** `jmp +0` never lets the program finish: the instruction reruns until its limit. */
  lemma {:induction false} SelfJump(prog: seq<Instruction>, maxLoop: nat, i: nat, acc: int, loops: seq<nat>)
    requires |loops| == |prog| && WithinLimit(loops, maxLoop) && i < |prog|
    requires prog[i] == Instruction(Jmp, 0)
    ensures Execute(prog, maxLoop, i, acc, loops) == Some(Outcome(acc, false))
    decreases maxLoop - loops[i]
  {
    if loops[i] < maxLoop {
      SelfJump(prog, maxLoop, i, acc, loops[i := loops[i] + 1]);
    }
  }

  /**
   * The `dict[target - e]` test: the key is stored with a non-zero value.
   * Every stored value equals its key, so a stored 0 is never found.
   */
  predicate Seen(dict: map<int, int>, k: int)
  {
    k in dict && dict[k] != 0
  }

  /** The n = 2 search: the first e whose complement was seen before, storing each e as it goes. */
  function PairScan(nums: seq<int>, target: int, dict: map<int, int>): (r: seq<int>)
    ensures r == [] || (|r| == 2 && r[0] + r[1] == target)
  {
    if nums == [] then []
    else
      var e := nums[0];
      if Seen(dict, target - e) then [e, target - e] else PairScan(nums[1..], target, dict[e := e])
  }

  /**
   * `findSum`: n numbers from the array adding up to target. For n > 2 each
   * e in turn is tried with n − 1 numbers from `array.slice(1)` adding up to
   * target − e; n = 2 is the complement scan, n = 1 the first e equal to the
   * target; anything else finds nothing.
   */
  function FindSumSpec(nums: seq<int>, target: int, n: int, memo: map<int, int>): seq<int>
    decreases if n > 0 then n else 0, |nums| + 1
  {
    if n > 2 then TryEach(nums, nums, target, n, memo)
    else if n == 2 then PairScan(nums, target, memo)
    else if n == 1 then (if target in nums then [target] else [])
    else []
  }

  /** The n > 2 loop over the candidates for the first number. */
  function TryEach(candidates: seq<int>, nums: seq<int>, target: int, n: int, memo: map<int, int>): seq<int>
    requires n > 2
    decreases n, |candidates|
  {
    if candidates == [] then []
    else
      var e := candidates[0];
      var sub := FindSumSpec(if |nums| > 0 then nums[1..] else [], target - e, n - 1, memo);
      if sub != [] then [e] + sub else TryEach(candidates[1..], nums, target, n, memo)
  }

  /** A non-empty answer has n numbers adding up to the target. */
  lemma {:induction false} FoundSumsToTarget(nums: seq<int>, target: int, n: int, memo: map<int, int>)
    ensures var r := FindSumSpec(nums, target, n, memo);
      r != [] ==> |r| == n && Sum(r) == target
    decreases if n > 0 then n else 0, |nums| + 1
  {
    var r := FindSumSpec(nums, target, n, memo);
    if n > 2 {
      TriedSumsToTarget(nums, nums, target, n, memo);
    } else if n == 2 && r != [] {
      assert r[..1] == [r[0]] && [r[0]][..0] == [];
      assert Sum([r[0]]) == r[0];
      assert Sum(r) == Sum([r[0]]) + r[1];
    } else if n == 1 && r != [] {
      assert r[..0] == [];
    }
  }

  lemma {:induction false} TriedSumsToTarget(candidates: seq<int>, nums: seq<int>, target: int, n: int, memo: map<int, int>)
    requires n > 2
    ensures var r := TryEach(candidates, nums, target, n, memo);
      r != [] ==> |r| == n && Sum(r) == target
    decreases n, |candidates|
  {
    if candidates != [] {
      var e := candidates[0];
      var rest := if |nums| > 0 then nums[1..] else [];
      var sub := FindSumSpec(rest, target - e, n - 1, memo);
      if sub != [] {
        FoundSumsToTarget(rest, target - e, n - 1, memo);
        SumAppend([e], sub);
        assert Sum([e]) == e by {
          assert [e][..0] == [];
        }
      } else {
        TriedSumsToTarget(candidates[1..], nums, target, n, memo);
      }
    }
  }

  /**
   * From an empty memo the pair scan answers [a[j], a[i]] for the first
   * j that has an earlier i with a[i] + a[j] = target and a[i] ≠ 0, and []
   * when there is none.
   */
  predicate PairAt(nums: seq<int>, target: int, i: nat, j: nat)
    requires i < j < |nums|
  {
    nums[i] + nums[j] == target && nums[i] != 0
  }

  lemma {:induction false} PairScanMeaning(nums: seq<int>, target: int, done: seq<int>)
    ensures var r := PairScan(nums, target, StoredMap(done));
      (r == [] <==> forall i, j | 0 <= i < j < |done + nums| && j >= |done| :: !PairAt(done + nums, target, i, j)) &&
      (r != [] ==> exists i, j | 0 <= i < j < |done + nums| && j >= |done| ::
        PairAt(done + nums, target, i, j) && r == [(done + nums)[j], (done + nums)[i]] &&
        forall i', j' | 0 <= i' < j' < j && j' >= |done| :: !PairAt(done + nums, target, i', j'))
    decreases |nums|
  {
    var all := done + nums;
    if nums != [] {
      var e := nums[0];
      var j := |done|;
      assert all[j] == e;
      StoredMapMeaning(done, target - e);
      assert done + [e] + nums[1..] == all;
      PairScanMeaning(nums[1..], target, done + [e]);
      StoredMapAppend(done, e);
      if Seen(StoredMap(done), target - e) {
        var i :| 0 <= i < |done| && done[i] == target - e && done[i] != 0;
        assert PairAt(all, target, i, j);
      } else {
        forall i | 0 <= i < j ensures !PairAt(all, target, i, j) {
          assert all[i] == done[i];
        }
      }
    }
  }

  /** The pair scan from an empty dict finds a pair exactly when the numbers hold one. */
  lemma PairScanFresh(nums: seq<int>, target: int)
    ensures PairScan(nums, target, map[]) == [] <==>
      forall i, j | 0 <= i < j < |nums| :: !PairAt(nums, target, i, j)
  {
    PairScanMeaning(nums, target, []);
    assert [] + nums == nums;
    assert StoredMap([]) == map[];
  }

  /** The dict after storing each number of `done`. */
  function StoredMap(done: seq<int>): map<int, int>
  {
    if done == [] then map[] else StoredMap(done[..|done| - 1])[done[|done| - 1] := done[|done| - 1]]
  }

  lemma StoredMapAppend(done: seq<int>, e: int)
    ensures StoredMap(done + [e]) == StoredMap(done)[e := e]
  {
    assert (done + [e])[..|done|] == done;
  }

  /** A key is seen exactly when a non-zero number equal to it was stored. */
  lemma {:induction false} StoredMapMeaning(done: seq<int>, k: int)
    ensures Seen(StoredMap(done), k) <==> exists i | 0 <= i < |done| :: done[i] == k && k != 0
  {
    if done != [] {
      var n := |done| - 1;
      StoredMapMeaning(done[..n], k);
      if exists i | 0 <= i < n :: done[..n][i] == k && k != 0 {
        var i :| 0 <= i < n && done[..n][i] == k && k != 0;
        assert done[i] == k;
      }
      if exists i | 0 <= i < |done| :: done[i] == k && k != 0 {
        var i :| 0 <= i < |done| && done[i] == k && k != 0;
        if i < n {
          assert done[..n][i] == k;
        }
      }
    }
  }

  /** The two-sum scan misses 0 + 5 = 5, as the stored 0 reads as false. */
  lemma ZeroIsNeverFound()
    ensures PairScan([0, 5], 5, map[]) == []
  {
    assert [0, 5][1..] == [5] && [5][1..] == [];
    assert !Seen(map[0 := 0], 0);
  }

  /**
   * `findSum` on a memo, copying it into `dict`: the n = 2 case scans the
   * array storing each number; n > 2 recurses on `array.slice(1)`.
   */
  method FindSum(nums: seq<int>, target: int, n: int, memo: map<int, int>) returns (r: seq<int>)
    ensures r == FindSumSpec(nums, target, n, memo)
    decreases if n > 0 then n else 0
  {
    var dict := memo;
    var k := 0;
    while k < |nums|
      invariant 0 <= k <= |nums|
      invariant n > 2 ==> TryEach(nums[k..], nums, target, n, memo) == FindSumSpec(nums, target, n, memo)
      invariant n == 2 ==> PairScan(nums[k..], target, dict) == FindSumSpec(nums, target, n, memo)
      invariant n != 2 ==> dict == memo
      invariant n == 1 ==> (target in nums <==> target in nums[k..])
    {
      var e := nums[k];
      assert nums[k..][1..] == nums[k + 1..];
      if n > 2 {
        var subQuery := FindSum(nums[1..], target - e, n - 1, dict);
        if |subQuery| == 0 {
          k := k + 1;
          continue;
        } else {
          return [e] + subQuery;
        }
      }
      if n == 2 {
        if Seen(dict, target - e) {
          return [e, target - e];
        }
        dict := dict[e := e];
      } else if n == 1 && e == target {
        return [e];
      }
      k := k + 1;
    }
    return [];
  }
}
