/**
 * Supply Stacks (2022, day 5): stacks of crates, bottom first, rearranged
 * by "move q from s to t" instructions; the CrateMover 9000 moves crates one
 * at a time, the 9001 moves them as one block. The answer is the top crate
 * of each stack.
 */
module SupplyStacks {
  import opened Common

  type Stacks = seq<seq<char>>

  /** An `Instruction`: stack numbers are 1-based. */
  datatype Instruction = Instruction(quantity: nat, source: nat, target: nat)

  datatype CrateMover = Mover9000 | Mover9001

  /** The instruction names two existing stacks, as `this.stacks[n - 1]` needs. */
  predicate Addresses(stacks: Stacks, instr: Instruction)
  {
    1 <= instr.source <= |stacks| && 1 <= instr.target <= |stacks|
  }

  /** One pass of the 9000 loop: pop the source's top crate, if any, and push it on the target. */
  function PopPush(stacks: Stacks, s: nat, t: nat): Stacks
    requires s < |stacks| && t < |stacks|
  {
    var src := stacks[s];
    if src == [] then stacks
    else
      var popped := stacks[s := src[..|src| - 1]];
      popped[t := popped[t] + [src[|src| - 1]]]
  }

  /** n passes of the 9000 loop; they touch no stack but the source and the target. */
  function PopPushTimes(stacks: Stacks, s: nat, t: nat, n: nat): (r: Stacks)
    requires s < |stacks| && t < |stacks|
    ensures |r| == |stacks|
    ensures forall i | 0 <= i < |stacks| && i != s && i != t :: r[i] == stacks[i]
  {
    if n == 0 then stacks else PopPush(PopPushTimes(stacks, s, t, n - 1), s, t)
  }

  /**
   * The 9001 move: `slice(-q)` of the source goes on the target and
   * `slice(0, -q)` stays. With q = 0 the first is the whole stack and the
   * second empty, since -0 is 0.
   */
  function Block(stacks: Stacks, q: nat, s: nat, t: nat): (r: Stacks)
    requires s < |stacks| && t < |stacks|
    ensures |r| == |stacks|
    ensures forall i | 0 <= i < |stacks| && i != s && i != t :: r[i] == stacks[i]
    ensures s != t ==> |r[s]| + |r[t]| == |stacks[s]| + |stacks[t]|
  {
    var src := stacks[s];
    var keep := if q == 0 || q >= |src| then 0 else |src| - q;
    var moved := stacks[s := src[..keep]];
    moved[t := moved[t] + src[keep..]]
  }

  /** The stacks after one instruction: only the named source and target can change. */
  function Process(stacks: Stacks, instr: Instruction, mover: CrateMover): (r: Stacks)
    requires Addresses(stacks, instr)
    ensures |r| == |stacks|
    ensures forall i | 0 <= i < |stacks| && i != instr.source - 1 && i != instr.target - 1 :: r[i] == stacks[i]
  {
    var s, t := instr.source - 1, instr.target - 1;
    match mover
    case Mover9000 => PopPushTimes(stacks, s, t, instr.quantity)
    case Mover9001 => Block(stacks, instr.quantity, s, t)
  }

  function Reverse(s: seq<char>): (r: seq<char>)
    ensures |r| == |s| && forall i | 0 <= i < |s| :: r[i] == s[|s| - 1 - i]
  {
    if s == [] then [] else [s[|s| - 1]] + Reverse(s[..|s| - 1])
  }

  /**
   * The 9000 moves the top min(q, |source|) crates one by one, so they land
   * on the target in reverse order; every other stack is unchanged.
   */
  lemma PopPushTimesMovesReversed(stacks: Stacks, s: nat, t: nat, n: nat)
    requires s < |stacks| && t < |stacks| && s != t
    ensures var k := Min(n, |stacks[s]|);
      var r := PopPushTimes(stacks, s, t, n);
      r[s] == stacks[s][..|stacks[s]| - k] &&
      r[t] == stacks[t] + Reverse(stacks[s][|stacks[s]| - k..]) &&
      forall i | 0 <= i < |stacks| && i != s && i != t :: r[i] == stacks[i]
  {
    PopPushTimesTarget(stacks, s, t, n);
  }

  lemma {:induction false} PopPushTimesSource(stacks: Stacks, s: nat, t: nat, n: nat)
    requires s < |stacks| && t < |stacks| && s != t
    ensures PopPushTimes(stacks, s, t, n)[s] == stacks[s][..|stacks[s]| - Min(n, |stacks[s]|)]
  {
    if n > 0 {
      PopPushTimesSource(stacks, s, t, n - 1);
    }
  }

  lemma {:induction false} PopPushTimesTarget(stacks: Stacks, s: nat, t: nat, n: nat)
    requires s < |stacks| && t < |stacks| && s != t
    ensures var k := Min(n, |stacks[s]|);
      PopPushTimes(stacks, s, t, n)[s] == stacks[s][..|stacks[s]| - k] &&
      PopPushTimes(stacks, s, t, n)[t] == stacks[t] + Reverse(stacks[s][|stacks[s]| - k..])
  {
    PopPushTimesSource(stacks, s, t, n);
    if n > 0 {
      PopPushTimesTarget(stacks, s, t, n - 1);
      var src := stacks[s];
      var k := Min(n - 1, |src|);
      var r' := PopPushTimes(stacks, s, t, n - 1);
      if k < |src| {
        var c := src[|src| - k - 1];
        assert r'[s][|r'[s]| - 1] == c;
        ReverseCons(c, src[|src| - k..]);
        assert src[|src| - k - 1..] == [c] + src[|src| - k..];
        assert PopPush(r', s, t)[t] == r'[t] + [c];
      }
    }
  }

  /** What one pass does to the source, the target and the other stacks. */
  lemma PopPushEffect(stacks: Stacks, s: nat, t: nat)
    requires s < |stacks| && t < |stacks| && s != t && stacks[s] != []
    ensures var r := PopPush(stacks, s, t); var src := stacks[s];
      r[s] == src[..|src| - 1] && r[t] == stacks[t] + [src[|src| - 1]] &&
      forall i | 0 <= i < |stacks| && i != s && i != t :: r[i] == stacks[i]
  {
  }

  lemma ReverseCons(c: char, s: seq<char>)
    ensures Reverse([c] + s) == Reverse(s) + [c]
  {
  }

  /** With the source as target, the 9000 changes nothing. */
  lemma {:induction false} PopPushTimesSameStack(stacks: Stacks, s: nat, n: nat)
    requires s < |stacks|
    ensures PopPushTimes(stacks, s, s, n) == stacks
  {
    if n > 0 {
      PopPushTimesSameStack(stacks, s, n - 1);
      var src := stacks[s];
      if src != [] {
        assert src[..|src| - 1] + [src[|src| - 1]] == src;
      }
    }
  }

  /**
   * The 9001 moves the top min(q, |source|) crates, or all of them when
   * q = 0, as one block in their order; every other stack is unchanged.
   */
  lemma BlockMovesInOrder(stacks: Stacks, q: nat, s: nat, t: nat)
    requires s < |stacks| && t < |stacks| && s != t
    ensures var k := if q == 0 then |stacks[s]| else Min(q, |stacks[s]|);
      var r := Block(stacks, q, s, t);
      |r| == |stacks| &&
      r[s] == stacks[s][..|stacks[s]| - k] &&
      r[t] == stacks[t] + stacks[s][|stacks[s]| - k..] &&
      forall i | 0 <= i < |stacks| && i != s && i != t :: r[i] == stacks[i]
  {
  }

  /** Every crate of the stacks, with multiplicity. */
  function AllCrates(stacks: Stacks): multiset<char>
  {
    if stacks == [] then multiset{} else AllCrates(stacks[..|stacks| - 1]) + multiset(stacks[|stacks| - 1])
  }

  lemma {:induction false} AllCratesUpdate(stacks: Stacks, i: nat, v: seq<char>)
    requires i < |stacks|
    ensures AllCrates(stacks[i := v]) + multiset(stacks[i]) == AllCrates(stacks) + multiset(v)
  {
    var n := |stacks| - 1;
    var u := stacks[i := v];
    assert AllCrates(u) == AllCrates(u[..n]) + multiset(u[n]);
    assert AllCrates(stacks) == AllCrates(stacks[..n]) + multiset(stacks[n]);
    if i < n {
      AllCratesUpdate(stacks[..n], i, v);
      assert u[..n] == stacks[..n][i := v];
      assert u[n] == stacks[n] && stacks[..n][i] == stacks[i];
      forall x
        ensures (AllCrates(u) + multiset(stacks[i]))[x] == (AllCrates(stacks) + multiset(v))[x]
      {
        assert (AllCrates(u[..n]) + multiset(stacks[i]))[x] == (AllCrates(stacks[..n]) + multiset(v))[x];
      }
    } else {
      assert u[..n] == stacks[..n];
    }
  }

  lemma PopPushKeepsCrates(stacks: Stacks, s: nat, t: nat)
    requires s < |stacks| && t < |stacks|
    ensures AllCrates(PopPush(stacks, s, t)) == AllCrates(stacks)
  {
    var src := stacks[s];
    if src != [] {
      var c := src[|src| - 1];
      MoveKeepsCrates(stacks, s, t, src[..|src| - 1], [c]);
    }
  }

  /**
   * Splitting the source into a part that stays and a part appended to the
   * target keeps every crate.
   */
  lemma MoveKeepsCrates(stacks: Stacks, s: nat, t: nat, keep: seq<char>, moved: seq<char>)
    requires s < |stacks| && t < |stacks| && stacks[s] == keep + moved
    ensures var popped := stacks[s := keep];
      AllCrates(popped[t := popped[t] + moved]) == AllCrates(stacks)
  {
    var popped := stacks[s := keep];
    var r := popped[t := popped[t] + moved];
    AllCratesUpdate(stacks, s, keep);
    AllCratesUpdate(popped, t, popped[t] + moved);
    assert multiset(stacks[s]) == multiset(keep) + multiset(moved);
    assert multiset(popped[t] + moved) == multiset(popped[t]) + multiset(moved);
    MultisetCancel(AllCrates(r), AllCrates(popped) + multiset(moved), multiset(popped[t]));
    MultisetCancel(AllCrates(popped) + multiset(moved), AllCrates(stacks), multiset(keep));
  }

  lemma {:induction false} PopPushTimesKeepsCrates(stacks: Stacks, s: nat, t: nat, n: nat)
    requires s < |stacks| && t < |stacks|
    ensures AllCrates(PopPushTimes(stacks, s, t, n)) == AllCrates(stacks)
  {
    if n > 0 {
      PopPushTimesKeepsCrates(stacks, s, t, n - 1);
      PopPushKeepsCrates(PopPushTimes(stacks, s, t, n - 1), s, t);
    }
  }

  lemma BlockKeepsCrates(stacks: Stacks, q: nat, s: nat, t: nat)
    requires s < |stacks| && t < |stacks|
    ensures AllCrates(Block(stacks, q, s, t)) == AllCrates(stacks)
  {
    var src := stacks[s];
    var keep := if q == 0 || q >= |src| then 0 else |src| - q;
    assert src == src[..keep] + src[keep..];
    MoveKeepsCrates(stacks, s, t, src[..keep], src[keep..]);
  }

  /** Either crane keeps every crate: none is lost or made. */
  lemma ProcessKeepsCrates(stacks: Stacks, instr: Instruction, mover: CrateMover)
    requires Addresses(stacks, instr)
    ensures |Process(stacks, instr, mover)| == |stacks|
    ensures AllCrates(Process(stacks, instr, mover)) == AllCrates(stacks)
  {
    var s, t := instr.source - 1, instr.target - 1;
    match mover
    case Mover9000 =>
      assert Process(stacks, instr, mover) == PopPushTimes(stacks, s, t, instr.quantity);
      PopPushTimesKeepsCrates(stacks, s, t, instr.quantity);
    case Mover9001 =>
      assert Process(stacks, instr, mover) == Block(stacks, instr.quantity, s, t);
      BlockKeepsCrates(stacks, instr.quantity, s, t);
  }

  /** `topCrates`: the last crate of each stack; an empty stack gives `undefined`, which `join` writes as nothing. */
  function TopsOf(stacks: Stacks): (r: string)
    ensures |r| <= |stacks|
    ensures (forall i | 0 <= i < |stacks| :: stacks[i] != []) ==>
      |r| == |stacks| && forall i | 0 <= i < |stacks| :: r[i] == stacks[i][|stacks[i]| - 1]
  {
    if stacks == [] then []
    else
      var top := stacks[|stacks| - 1];
      TopsOf(stacks[..|stacks| - 1]) + (if top == [] then [] else [top[|top| - 1]])
  }

  /** Every instruction in order, each needing its stacks to exist when it runs. */
  function ProcessAll(stacks: Stacks, instrs: seq<Instruction>, mover: CrateMover): Option<Stacks>
    decreases |instrs|
  {
    if instrs == [] then Some(stacks)
    else if !Addresses(stacks, instrs[0]) then None
    else ProcessAll(Process(stacks, instrs[0], mover), instrs[1..], mover)
  }

  /** `Cargo`: the stacks, bottom crate first. */
  class Cargo {
    var stacks: Stacks

    /** The constructor keeps its own copy of every stack. */
    constructor (stacks: Stacks)
      ensures this.stacks == stacks
    {
      this.stacks := stacks;
    }

    /** `processInstruction`. */
    method ProcessInstruction(instr: Instruction, mover: CrateMover)
      requires Addresses(stacks, instr)
      modifies this
      ensures stacks == Process(old(stacks), instr, mover)
      ensures AllCrates(stacks) == AllCrates(old(stacks))
    {
      ProcessKeepsCrates(stacks, instr, mover);
      var s, t := instr.source - 1, instr.target - 1;
      match mover {
        case Mover9000 =>
          ghost var start := stacks;
          for i := 0 to instr.quantity
            invariant stacks == PopPushTimes(start, s, t, i)
          {
            var src := stacks[s];
            if src != [] {
              var crate := src[|src| - 1];
              stacks := stacks[s := src[..|src| - 1]];
              stacks := stacks[t := stacks[t] + [crate]];
            }
          }
        case Mover9001 =>
          var src := stacks[s];
          var keep := if instr.quantity == 0 || instr.quantity >= |src| then 0 else |src| - instr.quantity;
          var crates := src[keep..];
          stacks := stacks[s := src[..keep]];
          stacks := stacks[t := stacks[t] + crates];
      }
    }

    function TopCrates(): string
      reads this
    {
      TopsOf(stacks)
    }
  }

  /** `getTopCratesAfterInstructions`: run every instruction on the cargo, then read the tops. */
  method GetTopCratesAfterInstructions(cargo: Cargo, instrs: seq<Instruction>, mover: CrateMover) returns (tops: string)
    requires ProcessAll(cargo.stacks, instrs, mover).Some?
    modifies cargo
    ensures cargo.stacks == ProcessAll(old(cargo.stacks), instrs, mover).value
    ensures tops == TopsOf(cargo.stacks)
  {
    for k := 0 to |instrs|
      invariant ProcessAll(cargo.stacks, instrs[k..], mover) == ProcessAll(old(cargo.stacks), instrs, mover)
    {
      cargo.ProcessInstruction(instrs[k], mover);
      assert instrs[k..][1..] == instrs[k + 1..];
    }
    tops := cargo.TopCrates();
  }
}
