/**
 * Dive! (2021, day 2, Go): two submarines follow the same list of "<direction> <value>"
 * instructions. The basic one moves its depth directly; the other steers with an aim.
 */
module DiveGo {
  import opened Strings

  datatype Instruction = Instruction(dir: string, val: int)

  /** Position, depth and aim of a submarine; the basic submarine keeps aim at 0. */
  datatype State = State(position: int, depth: int, aim: int)

  /**
   * Splits on a space and reads the second piece with `Atoi`, whose error is discarded.
   * A line without a space makes `instructionArray[1]` panic.
   */
  function ParseInstruction(instruction: string): (r: Instruction)
    requires ' ' in instruction
    ensures ' ' !in r.dir
  {
    var parts := Split(instruction, ' ');
    SplitPiecesFree(instruction, ' ');
    Instruction(parts[0], Atoi(parts[1]))
  }

  /** The text a well-formed instruction line holds. */
  function Format(dir: string, val: nat): string
  {
    dir + " " + NatToDecimal(val)
  }

  lemma ParseFormat(dir: string, val: nat)
    requires ' ' !in dir
    ensures ' ' in Format(dir, val)
    ensures ParseInstruction(Format(dir, val)) == Instruction(dir, val)
  {
    var digits := NatToDecimal(val);
    assert Format(dir, val)[|dir|] == ' ';
    SplitFirst(dir, ' ', digits);
    assert ' ' !in digits by {
      forall i | 0 <= i < |digits| ensures digits[i] != ' ' { assert IsDigit(digits[i]); }
    }
    SplitNoSeparator(digits, ' ');
    AtoiOfDecimal(val);
  }

  /** One instruction for the basic submarine; an unknown direction changes nothing. */
  function BasicStep(s: State, instr: Instruction): State
  {
    match instr.dir
    case "up" => s.(depth := s.depth - instr.val)
    case "down" => s.(depth := s.depth + instr.val)
    case "forward" => s.(position := s.position + instr.val)
    case _ => s
  }

  /** One instruction for the aiming submarine; an unknown direction changes nothing. */
  function AimStep(s: State, instr: Instruction): State
  {
    match instr.dir
    case "up" => s.(aim := s.aim - instr.val)
    case "down" => s.(aim := s.aim + instr.val)
    case "forward" => s.(position := s.position + instr.val, depth := s.depth + instr.val * s.aim)
    case _ => s
  }

  function BasicFold(s: State, instrs: seq<Instruction>): State
    decreases |instrs|
  {
    if instrs == [] then s else BasicFold(BasicStep(s, instrs[0]), instrs[1..])
  }

  function AimFold(s: State, instrs: seq<Instruction>): State
    decreases |instrs|
  {
    if instrs == [] then s else AimFold(AimStep(s, instrs[0]), instrs[1..])
  }

  /**
   * Both submarines reach the same position, and the basic submarine's depth is the
   * aiming submarine's aim.
   */
  lemma {:induction false} SamePosition(b: State, a: State, instrs: seq<Instruction>)
    requires b.position == a.position && b.depth == a.aim
    ensures BasicFold(b, instrs).position == AimFold(a, instrs).position
    ensures BasicFold(b, instrs).depth == AimFold(a, instrs).aim
    decreases |instrs|
  {
    if instrs != [] {
      SamePosition(BasicStep(b, instrs[0]), AimStep(a, instrs[0]), instrs[1..]);
    }
  }

  /** Up and down leave the aiming submarine's position and depth alone. */
  lemma VerticalOnlyAims(s: State, instr: Instruction)
    requires instr.dir == "up" || instr.dir == "down"
    ensures AimStep(s, instr).position == s.position && AimStep(s, instr).depth == s.depth
    ensures AimStep(s, instr).aim == s.aim + (if instr.dir == "up" then -instr.val else instr.val)
  {
  }

  class BasicSubmarine {
    var depth: int
    var position: int

    constructor ()
      ensures depth == 0 && position == 0
    {
      depth, position := 0, 0;
    }

    function Snapshot(): State
      reads this
    {
      State(position, depth, 0)
    }

    method Move(instruction: string)
      requires ' ' in instruction
      modifies this
      ensures Snapshot() == BasicStep(old(Snapshot()), ParseInstruction(instruction))
    {
      var instr := ParseInstruction(instruction);
      match instr.dir
      case "up" => depth := depth - instr.val;
      case "down" => depth := depth + instr.val;
      case "forward" => position := position + instr.val;
      case _ =>
    }
  }

  class Submarine {
    var depth: int
    var position: int
    var aim: int

    constructor ()
      ensures depth == 0 && position == 0 && aim == 0
    {
      depth, position, aim := 0, 0, 0;
    }

    function Snapshot(): State
      reads this
    {
      State(position, depth, aim)
    }

    method Move(instruction: string)
      requires ' ' in instruction
      modifies this
      ensures Snapshot() == AimStep(old(Snapshot()), ParseInstruction(instruction))
    {
      var instr := ParseInstruction(instruction);
      match instr.dir
      case "up" => aim := aim - instr.val;
      case "down" => aim := aim + instr.val;
      case "forward" =>
        position := position + instr.val;
        depth := depth + instr.val * aim;
      case _ =>
    }
  }

  function ParseAll(instructions: seq<string>): seq<Instruction>
    requires forall i :: 0 <= i < |instructions| ==> ' ' in instructions[i]
  {
    seq(|instructions|, i requires 0 <= i < |instructions| => ParseInstruction(instructions[i]))
  }

  lemma {:induction false} FoldSnoc(s: State, instrs: seq<Instruction>, last: Instruction)
    ensures BasicFold(s, instrs + [last]) == BasicStep(BasicFold(s, instrs), last)
    ensures AimFold(s, instrs + [last]) == AimStep(AimFold(s, instrs), last)
    decreases |instrs|
  {
    if instrs != [] {
      assert (instrs + [last])[1..] == instrs[1..] + [last];
      FoldSnoc(BasicStep(s, instrs[0]), instrs[1..], last);
      FoldSnoc(AimStep(s, instrs[0]), instrs[1..], last);
    }
  }

  /**
   * The driver loop: both submarines follow every line; the answers are depth × position.
   * Part 1 and part 2 share the final position.
   */
  method Navigate(instructions: seq<string>) returns (part1: int, part2: int)
    requires forall i :: 0 <= i < |instructions| ==> ' ' in instructions[i]
    ensures var b := BasicFold(State(0, 0, 0), ParseAll(instructions));
            part1 == b.depth * b.position
    ensures var a := AimFold(State(0, 0, 0), ParseAll(instructions));
            part2 == a.depth * a.position
  {
    var first := new BasicSubmarine();
    var second := new Submarine();
    var parsed := ParseAll(instructions);
    for k := 0 to |instructions|
      invariant first.Snapshot() == BasicFold(State(0, 0, 0), parsed[..k])
      invariant second.Snapshot() == AimFold(State(0, 0, 0), parsed[..k])
    {
      first.Move(instructions[k]);
      second.Move(instructions[k]);
      assert parsed[..k + 1] == parsed[..k] + [parsed[k]];
      FoldSnoc(State(0, 0, 0), parsed[..k], parsed[k]);
    }
    assert parsed[..|instructions|] == parsed;
    part1 := first.depth * first.position;
    part2 := second.depth * second.position;
  }
}
