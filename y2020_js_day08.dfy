/**
 * Handheld Halting (2020, day 8): exactly one nop or jmp of the boot code
 * is corrupted. Swapping nop and jmp at one line at a time, in line order,
 * the first program that runs to the end gives the accumulator.
 */
module HandheldHalting {
  import opened Common
  import opened GlobalUtils

  /** `swap[cmd]`: only nop and jmp have a counterpart. */
  predicate Swappable(ins: Instruction)
  {
    ins.op != Acc
  }

  /** The program with line i switched between nop and jmp, its argument kept. */
  function Swapped(prog: seq<Instruction>, i: nat): (s: seq<Instruction>)
    requires i < |prog| && Swappable(prog[i])
    ensures |s| == |prog| && Swappable(s[i])
  {
    prog[i := Instruction(if prog[i].op == Nop then Jmp else Nop, prog[i].arg)]
  }

  /** Each trial differs from the boot code in line i only, and swapping back restores it. */
  lemma SwappedDiffersOnce(prog: seq<Instruction>, i: nat)
    requires i < |prog| && Swappable(prog[i])
    ensures Swapped(prog, i)[i] != prog[i] && Swapped(prog, i)[i].arg == prog[i].arg
    ensures forall j | 0 <= j < |prog| && j != i :: Swapped(prog, i)[j] == prog[j]
    ensures Swapped(Swapped(prog, i), i) == prog
  {
  }

  /** A trial that runs to the end (maxLoop 1, accumulator from 0). */
  predicate Terminates(prog: seq<Instruction>, i: nat)
    requires i < |prog| && Swappable(prog[i])
  {
    var o := Run(Swapped(prog, i), 0, 1);
    o.Some? && o.value.terminated
  }

  /** A trial that stops at a repeated line. */
  predicate Loops(prog: seq<Instruction>, i: nat)
    requires i < |prog| && Swappable(prog[i])
  {
    var o := Run(Swapped(prog, i), 0, 1);
    o.Some? && !o.value.terminated
  }

  /**
   * The answer from line i on: the accumulator of the first trial that
   * runs to the end, −1 when none does, and None when a trial before that
   * jumps in front of the first line and `cpu` throws.
   */
  function FixFrom(prog: seq<Instruction>, i: nat): Option<int>
    decreases |prog| - i
  {
    if i >= |prog| then Some(-1)
    else if !Swappable(prog[i]) then FixFrom(prog, i + 1)
    else
      match Run(Swapped(prog, i), 0, 1)
      case None => None
      case Some(o) => if o.terminated then Some(o.accumulator) else FixFrom(prog, i + 1)
  }

  /** `fixIncorrectInstruction`: runs the trials in line order and stops at the first that terminates. */
  method FixIncorrectInstruction(instructions: seq<Instruction>) returns (r: Option<int>)
    ensures r == FixFrom(instructions, 0)
  {
    var i := 0;
    while i < |instructions|
      invariant 0 <= i <= |instructions|
      invariant FixFrom(instructions, i) == FixFrom(instructions, 0)
    {
      if Swappable(instructions[i]) {
        var swappedInstructions := Swapped(instructions, i);
        var outcome, _ := Cpu(swappedInstructions, 0, 1);
        if outcome.None? {
          return None;
        }
        if outcome.value.terminated {
          return Some(outcome.value.accumulator);
        }
      }
      i := i + 1;
    }
    return Some(-1);
  }

  /** When trial k terminates and every earlier trial loops, the answer is trial k's accumulator. */
  lemma {:induction false} FirstTerminatingTrial(prog: seq<Instruction>, i: nat, k: nat)
    requires i <= k < |prog| && Swappable(prog[k]) && Terminates(prog, k)
    requires forall j | i <= j < k && Swappable(prog[j]) :: Loops(prog, j)
    ensures FixFrom(prog, i) == Some(Run(Swapped(prog, k), 0, 1).value.accumulator)
    decreases k - i
  {
    if i < k {
      FirstTerminatingTrial(prog, i + 1, k);
    }
  }

  /** When every trial loops, the answer is −1. */
  lemma {:induction false} NoTerminatingTrial(prog: seq<Instruction>, i: nat)
    requires forall j | i <= j < |prog| && Swappable(prog[j]) :: Loops(prog, j)
    ensures FixFrom(prog, i) == Some(-1)
    decreases |prog| - i
  {
    if i < |prog| {
      NoTerminatingTrial(prog, i + 1);
    }
  }

  /**
   * Conversely a value v other than −1 comes from a trial that terminates
   * with accumulator v after every earlier trial looped.
   */
  lemma {:induction false} AnswerIsFirstTerminatingTrial(prog: seq<Instruction>, i: nat, v: int)
    requires FixFrom(prog, i) == Some(v) && v != -1
    ensures exists k | i <= k < |prog| && Swappable(prog[k]) ::
      Terminates(prog, k) && Run(Swapped(prog, k), 0, 1).value.accumulator == v &&
      forall j | i <= j < k && Swappable(prog[j]) :: Loops(prog, j)
    decreases |prog| - i
  {
    if i < |prog| && !(Swappable(prog[i]) && Terminates(prog, i)) {
      AnswerIsFirstTerminatingTrial(prog, i + 1, v);
      var k :| i + 1 <= k < |prog| && Swappable(prog[k]) &&
        Terminates(prog, k) && Run(Swapped(prog, k), 0, 1).value.accumulator == v &&
        forall j | i + 1 <= j < k && Swappable(prog[j]) :: Loops(prog, j);
      assert forall j | i <= j < k && Swappable(prog[j]) :: Loops(prog, j);
    }
  }
}
