/**
 * Dive! (2021, day 2, TypeScript): one Submarine class whose `useAim` flag selects between
 * moving depth directly and steering with an aim.
 */
module Dive {
  import opened Common
  import opened Strings
  import DiveGo

  /** `instruction.split(' ')` destructured into a direction and `parseInt` of the value. */
  function Direction(instruction: string): string
  {
    Split(instruction, ' ')[0]
  }

  /** The parsed value; `None` stands for NaN (no second piece, or no digits in it). */
  function Value(instruction: string): Option<int>
  {
    var parts := Split(instruction, ' ');
    if |parts| < 2 then None else ParseInt(parts[1])
  }

  predicate KnownDirection(dir: string)
  {
    dir == "up" || dir == "down" || dir == "forward"
  }

  /** The move is well defined when the direction is unknown or the value is a number. */
  predicate Readable(instruction: string)
  {
    KnownDirection(Direction(instruction)) ==> Value(instruction).Some?
  }

  class Submarine {
    var position: int
    var depth: int
    var aim: int
    var useAim: bool

    constructor (useAim: bool)
      ensures position == 0 && depth == 0 && aim == 0 && this.useAim == useAim
    {
      position, depth, aim := 0, 0, 0;
      this.useAim := useAim;
    }

    function Snapshot(): DiveGo.State
      reads this
    {
      DiveGo.State(position, depth, aim)
    }

    method Move(instruction: string)
      requires Readable(instruction)
      modifies this
      ensures useAim == old(useAim)
      ensures !KnownDirection(Direction(instruction)) ==> Snapshot() == old(Snapshot())
      ensures KnownDirection(Direction(instruction)) ==>
        var instr := DiveGo.Instruction(Direction(instruction), Value(instruction).value);
        Snapshot() == if useAim then DiveGo.AimStep(old(Snapshot()), instr)
                      else DiveGo.BasicStep(old(Snapshot()), instr)
      ensures !useAim ==> aim == old(aim)
    {
      var direction := Direction(instruction);
      if !KnownDirection(direction) {
        return;
      }
      var intValue := Value(instruction).value;
      match direction
      case "up" =>
        if useAim { aim := aim - intValue; } else { depth := depth - intValue; }
      case "down" =>
        if useAim { aim := aim + intValue; } else { depth := depth + intValue; }
      case "forward" =>
        position := position + intValue;
        if useAim { depth := depth + intValue * aim; }
    }
  }

  /** On well-formed lines the TypeScript parse agrees with the Go one. */
  lemma SameParseAsGo(dir: string, val: nat)
    requires ' ' !in dir
    ensures Direction(DiveGo.Format(dir, val)) == dir
    ensures Value(DiveGo.Format(dir, val)) == Some(val)
  {
    var digits := NatToDecimal(val);
    assert DiveGo.Format(dir, val) == dir + [' '] + digits;
    SplitFirst(dir, ' ', digits);
    assert ' ' !in digits by {
      forall i | 0 <= i < |digits| ensures digits[i] != ' ' { assert IsDigit(digits[i]); }
    }
    SplitNoSeparator(digits, ' ');
    ParseIntOfDecimal(val);
  }
}
