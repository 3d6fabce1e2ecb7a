/**
 * Cathode-Ray Tube (2022, day 10): a CPU with one register records the
 * register's value during every cycle; the history gives the signal
 * strengths and drives the pixels of a CRT.
 */
module CathodeRayTube {
  import opened Common

  /** An instruction: `addx v`, or anything else, which behaves as `noop`. */
  datatype Instruction = Noop | Addx(v: int)

  /** The history entries one instruction appends: the register during each of its cycles. */
  function Cycles(register: int, ins: Instruction): seq<Option<int>>
  {
    match ins
    case Noop => [Some(register)]
    case Addx(_) => [Some(register), Some(register)]
  }

  /** The register after one instruction. */
  function After(register: int, ins: Instruction): int
  {
    match ins
    case Noop => register
    case Addx(v) => register + v
  }

  /** The register after a program. */
  function RunProgram(register: int, program: seq<Instruction>): int
  {
    if program == [] then register
    else After(RunProgram(register, program[..|program| - 1]), program[|program| - 1])
  }

  /** The history entries a program appends, one per cycle. */
  function Trace(register: int, program: seq<Instruction>): seq<Option<int>>
  {
    if program == [] then []
    else
      var prefix := program[..|program| - 1];
      Trace(register, prefix) + Cycles(RunProgram(register, prefix), program[|program| - 1])
  }

  function NoopCount(program: seq<Instruction>): nat
  {
    if program == [] then 0
    else NoopCount(program[..|program| - 1]) + (if program[|program| - 1].Noop? then 1 else 0)
  }

  function AddxCount(program: seq<Instruction>): nat
  {
    if program == [] then 0
    else AddxCount(program[..|program| - 1]) + (if program[|program| - 1].Addx? then 1 else 0)
  }

  /** A noop takes one cycle and an addx two, and every recorded value is a number. */
  lemma {:induction false} TraceShape(register: int, program: seq<Instruction>)
    ensures |Trace(register, program)| == NoopCount(program) + 2 * AddxCount(program)
    ensures forall k | 0 <= k < |Trace(register, program)| :: Trace(register, program)[k].Some?
  {
    if program != [] {
      TraceShape(register, program[..|program| - 1]);
    }
  }

  /** The history after a fresh CPU runs a program: NaN, one entry per cycle, then the final register. */
  function History(program: seq<Instruction>): seq<Option<int>>
  {
    [None] + Trace(1, program) + [Some(RunProgram(1, program))]
  }

  /** Its length is 2 + #noop + 2 × #addx, and only entry 0 is NaN. */
  lemma HistoryShape(program: seq<Instruction>)
    ensures |History(program)| == 2 + NoopCount(program) + 2 * AddxCount(program)
    ensures History(program)[0].None?
    ensures forall k | 1 <= k < |History(program)| :: History(program)[k].Some?
  {
    TraceShape(1, program);
  }

  /** Number arithmetic with NaN (`None`) absorbing. */
  function AddOpt(a: Option<int>, b: Option<int>): Option<int>
  {
    if a.Some? && b.Some? then Some(a.value + b.value) else None
  }

  /** `history[i]`: undefined (NaN in arithmetic) outside the array. */
  function At(history: seq<Option<int>>, i: int): Option<int>
  {
    if 0 <= i < |history| then history[i] else None
  }

  /**
   * Σ i × history[i] for i = start, start + freq, … while i ≤ the history's
   * length. One NaN on the way makes the whole sum NaN; with non-negative
   * cycles and register values the sum is not negative.
   */
  function SignalSum(history: seq<Option<int>>, i: int, freq: int): (r: Option<int>)
    requires freq > 0
    ensures i <= |history| && At(history, i).None? ==> r.None?
    ensures r.Some? && i >= 0 && (forall k | 0 <= k < |history| && history[k].Some? :: history[k].value >= 0) ==>
      r.value >= 0
    decreases |history| + 1 - i
  {
    if i > |history| then Some(0)
    else
      var h := At(history, i);
      AddOpt(if h.Some? then Some(i * h.value) else None, SignalSum(history, i + freq, freq))
  }

  /** Stepping a natural number down by the modulus keeps its remainder. */
  lemma ModShift(n: int, m: int)
    requires n >= m > 0
    ensures n % m == (n - m) % m
  {
    DivUnique(n, m, (n - m) / m + 1, (n - m) % m);
  }

  /**
   * With only entry 0 NaN, the sum is a number exactly when no visited cycle is
   * 0 or below, and none is the history's length, where `history[i]` is undefined.
   */
  lemma {:induction false} SignalSumDefined(history: seq<Option<int>>, i: int, freq: int)
    requires freq > 0
    requires |history| >= 1 && history[0].None?
    requires forall k | 1 <= k < |history| :: history[k].Some?
    ensures SignalSum(history, i, freq).Some? <==> i > |history| || (1 <= i && (|history| - i) % freq != 0)
    decreases |history| + 1 - i
  {
    if i <= |history| {
      SignalSumDefined(history, i + freq, freq);
      var n := |history| - i;
      if n >= freq {
        ModShift(n, freq);
      } else {
        DivUnique(n, freq, 0, n);
      }
    }
  }

  /** `CPU`: the register and the history of its values, one per cycle after the initial NaN. */
  class CPU {
    var register: int
    var registerHistory: seq<Option<int>>

    constructor ()
      ensures register == 1 && registerHistory == [None]
    {
      register := 1;
      registerHistory := [None];
    }

    /** `processInstruction`: one entry per cycle of the instruction, then an addx adds its argument. */
    method ProcessInstruction(ins: Instruction)
      modifies this
      ensures registerHistory == old(registerHistory) + Cycles(old(register), ins)
      ensures register == After(old(register), ins)
    {
      registerHistory := registerHistory + [Some(register)];
      if ins.Addx? {
        registerHistory := registerHistory + [Some(register)];
        register := register + ins.v;
      }
    }

    /** `processProgram`: every instruction in order, then the final register is appended. */
    method ProcessProgram(program: seq<Instruction>)
      modifies this
      ensures register == RunProgram(old(register), program)
      ensures registerHistory == old(registerHistory) + Trace(old(register), program) + [Some(register)]
    {
      for k := 0 to |program|
        invariant register == RunProgram(old(register), program[..k])
        invariant registerHistory == old(registerHistory) + Trace(old(register), program[..k])
      {
        ProcessInstruction(program[k]);
        assert program[..k + 1][..k] == program[..k];
      }
      assert program[..|program|] == program;
      registerHistory := registerHistory + [Some(register)];
    }

    /** `getSignalStrengthSum`; a frequency of 0 or less loops forever in the source and is excluded. */
    method GetSignalStrengthSum(startCycle: int, cycleFrequency: int) returns (sum: Option<int>)
      requires cycleFrequency > 0
      ensures sum == SignalSum(registerHistory, startCycle, cycleFrequency)
    {
      sum := Some(0);
      var i := startCycle;
      while i <= |registerHistory|
        invariant AddOpt(sum, SignalSum(registerHistory, i, cycleFrequency)) == SignalSum(registerHistory, startCycle, cycleFrequency)
        decreases |registerHistory| + 1 - i
      {
        var h := At(registerHistory, i);
        sum := AddOpt(sum, if h.Some? then Some(i * h.value) else None);
        i := i + cycleFrequency;
      }
    }
  }

  /** A fresh CPU running a program ends with the history `History(program)`. */
  method RunCPU(program: seq<Instruction>) returns (history: seq<Option<int>>)
    ensures history == History(program)
    ensures |history| == 2 + NoopCount(program) + 2 * AddxCount(program)
  {
    var cpu := new CPU();
    cpu.ProcessProgram(program);
    history := cpu.registerHistory;
    HistoryShape(program);
  }

  const Lit: char := '█'
  const Dark: char := ' '

  /**
   * The pixel drawn at cycle i: lit when the register is within
   * (spriteWidth - 1) / 2 of the column (i - 1) % rowWidth. Past the end of
   * the history the comparison is with NaN and the pixel is dark.
   */
  function Pixel(history: seq<Option<int>>, i: int, spriteWidth: int, rowWidth: int): (c: char)
    requires rowWidth > 0
    ensures c == Lit || c == Dark
    ensures c == Lit ==> 0 <= i < |history| && spriteWidth >= 1
    ensures spriteWidth >= 1 && At(history, i) == Some((i - 1) % rowWidth) ==> c == Lit
  {
    var h := At(history, i);
    if h.Some? && 2 * Abs(h.value - (i - 1) % rowWidth) <= spriteWidth - 1 then Lit else Dark
  }

  /** Screen row r: the pixels of cycles r × rowWidth + 1 .. (r + 1) × rowWidth. */
  function Row(history: seq<Option<int>>, r: nat, spriteWidth: int, rowWidth: int): (line: string)
    requires rowWidth > 0
    ensures |line| == rowWidth
  {
    seq(rowWidth, j requires 0 <= j < rowWidth => Pixel(history, r * rowWidth + j + 1, spriteWidth, rowWidth))
  }

  /**
   * The rows that are pushed: one each time a cycle i > 1 has i % rowWidth = 1.
   * The last, partial row is never pushed, and a row width of 1 pushes nothing.
   */
  function RowCount(n: nat, rowWidth: int): nat
    requires rowWidth > 0
  {
    if rowWidth == 1 || n == 0 then 0 else (n - 1) / rowWidth
  }

  function Screen(history: seq<Option<int>>, spriteWidth: int, rowWidth: int): seq<string>
    requires rowWidth > 0
  {
    seq(RowCount(|history|, rowWidth), r requires 0 <= r < RowCount(|history|, rowWidth) => Row(history, r, spriteWidth, rowWidth))
  }

  /** `screen.join('\n')`. */
  function JoinLines(lines: seq<string>): string
  {
    if lines == [] then ""
    else if |lines| == 1 then lines[0]
    else JoinLines(lines[..|lines| - 1]) + "\n" + lines[|lines| - 1]
  }

  /** A pixel of the screen is lit exactly when the register during its cycle is within reach of its column. */
  lemma ScreenPixel(history: seq<Option<int>>, spriteWidth: int, rowWidth: int, r: nat, j: nat)
    requires rowWidth > 0 && r < RowCount(|history|, rowWidth) && j < rowWidth
    ensures var c := r * rowWidth + j + 1;
      Screen(history, spriteWidth, rowWidth)[r][j] == Lit <==>
      c < |history| && history[c].Some? && 2 * Abs(history[c].value - j) <= spriteWidth - 1
  {
    var c := r * rowWidth + j + 1;
    assert (c - 1) % rowWidth == j by {
      DivUnique(c - 1, rowWidth, r, j);
    }
    assert Screen(history, spriteWidth, rowWidth)[r][j] == Pixel(history, c, spriteWidth, rowWidth) by {
      assert Screen(history, spriteWidth, rowWidth)[r] == Row(history, r, spriteWidth, rowWidth);
    }
  }

  /** Inside the loop of `drawCRT`: with a full row of rowWidth pixels pending, and only then, i % rowWidth = 1. */
  lemma PushWhenFull(i: int, rows: nat, rowWidth: int)
    requires rowWidth > 1
    requires rows * rowWidth + 1 < i <= (rows + 1) * rowWidth + 1
    ensures i % rowWidth == 1 <==> i == (rows + 1) * rowWidth + 1
  {
    var d := i - (rows * rowWidth + 1);
    if d == rowWidth {
      DivUnique(i, rowWidth, rows + 1, 1);
    } else if d + 1 == rowWidth {
      DivUnique(i, rowWidth, rows + 1, 0);
    } else {
      DivUnique(i, rowWidth, rows, d + 1);
    }
  }

  /** The test of one loop pass of `drawCRT`: lit when the register is within the sprite's reach of the column. */
  method DrawPixel(registerHistory: seq<Option<int>>, i: int, spriteWidth: int, rowWidth: int) returns (pixel: char)
    requires rowWidth > 0
    ensures pixel == Pixel(registerHistory, i, spriteWidth, rowWidth)
  {
    var h := At(registerHistory, i);
    if h.Some? && Abs(h.value - (i - 1) % rowWidth) * 2 <= spriteWidth - 1 {
      pixel := Lit;
    } else {
      pixel := Dark;
    }
  }

  /** `drawCRT`: a pixel per cycle 1 .. length, a new row each time i % rowWidth = 1 for i > 1. */
  method DrawCRT(registerHistory: seq<Option<int>>, spriteWidth: int, rowWidth: int) returns (crt: string)
    requires rowWidth > 0
    ensures crt == JoinLines(Screen(registerHistory, spriteWidth, rowWidth))
  {
    var screen: seq<string> := [];
    var row: string := "";
    ghost var rowStart := 1;
    for i := 1 to |registerHistory| + 1
      invariant rowWidth == 1 ==> screen == [] && rowStart == 1
      invariant rowWidth > 1 ==> rowStart == |screen| * rowWidth + 1
      invariant 1 <= rowStart <= i
      invariant i > 1 ==> rowStart < i
      invariant rowWidth > 1 ==> i - rowStart <= rowWidth
      invariant |row| == i - rowStart
      invariant forall j | 0 <= j < |row| :: row[j] == Pixel(registerHistory, rowStart + j, spriteWidth, rowWidth)
      invariant forall r | 0 <= r < |screen| :: screen[r] == Row(registerHistory, r, spriteWidth, rowWidth)
    {
      ghost var full := rowWidth > 1 && i > 1 && i - rowStart == rowWidth;
      assert (i % rowWidth == 1 && i > 1) <==> full by {
        if rowWidth > 1 && i > 1 {
          PushWhenFull(i, |screen|, rowWidth);
        }
      }
      if i % rowWidth == 1 && i > 1 {
        assert row == Row(registerHistory, |screen|, spriteWidth, rowWidth);
        screen := screen + [row];
        row := "";
        rowStart := i;
      }
      var pixel := DrawPixel(registerHistory, i, spriteWidth, rowWidth);
      row := row + [pixel];
    }
    assert |screen| == RowCount(|registerHistory|, rowWidth) by {
      if rowWidth > 1 && |registerHistory| > 0 {
        DivUnique(|registerHistory| - 1, rowWidth, |screen|, |registerHistory| - rowStart);
      }
    }
    assert screen == Screen(registerHistory, spriteWidth, rowWidth);
    crt := JoinLines(screen);
  }
}
