/**
 * Syntax Scoring (2021, day 10): lines of brackets are checked with a stack of expected
 * closers. A corrupted line is scored by its first wrong closer; an incomplete line is
 * completed by the closers still expected, scored as a base-5 number.
 */
module SyntaxScoring {
  import opened Common

  /** The `pairs` table: the closer an opener expects; absent for any other character. */
  function Closer(c: char): Option<char>
  {
    match c
    case '(' => Some(')')
    case '{' => Some('}')
    case '<' => Some('>')
    case '[' => Some(']')
    case _ => None
  }

  predicate IsCloser(c: char)
  {
    c == ')' || c == '}' || c == '>' || c == ']'
  }

  /** State of the scan of findBadChar: still expecting closers, or stopped at a bad character. */
  datatype Scan = Expecting(stack: seq<char>) | Bad(ch: char)

  /** One character: an opener pushes its closer; anything else must equal the popped closer. */
  function ScanStep(stack: seq<char>, c: char): Scan
  {
    match Closer(c)
    case Some(close) => Expecting(stack + [close])
    case None =>
      if stack == [] then Bad(c)   // `pop()` of an empty array is undefined, never equal to c
      else if c != stack[|stack| - 1] then Bad(c)
      else Expecting(stack[..|stack| - 1])
  }

  function ScanLine(line: string): Scan
  {
    if line == [] then Expecting([])
    else
      match ScanLine(line[..|line| - 1])
      case Bad(c) => Bad(c)
      case Expecting(stack) => ScanStep(stack, line[|line| - 1])
  }

  /** findBadChar: the first character that does not close the innermost open bracket, or "". */
  method FindBadChar(line: string) returns (bad: string)
    ensures bad == (if ScanLine(line).Bad? then [ScanLine(line).ch] else "")
  {
    var expected: seq<char> := [];
    for k := 0 to |line|
      invariant ScanLine(line[..k]) == Expecting(expected)
    {
      assert line[..k + 1][..k] == line[..k];
      var c := line[k];
      match Closer(c)
      case Some(close) =>
        expected := expected + [close];
      case None =>
        if expected == [] || c != expected[|expected| - 1] {
          BadStays(line, k + 1);
          assert line[..|line|] == line;
          return [c];
        }
        expected := expected[..|expected| - 1];
    }
    assert line[..|line|] == line;
    bad := "";
  }

  /** Once the scan has stopped, the rest of the line does not change its verdict. */
  lemma {:induction false} BadStays(line: string, k: nat)
    requires k <= |line| && ScanLine(line[..k]).Bad?
    ensures ScanLine(line) == ScanLine(line[..k])
    decreases |line| - k
  {
    if k < |line| {
      assert line[..k + 1][..k] == line[..k];
      BadStays(line, k + 1);
    } else {
      assert line[..k] == line;
    }
  }

  /** The stack only ever holds closers. */
  lemma {:induction false} StackHoldsClosers(line: string)
    ensures ScanLine(line).Expecting? ==> forall i :: 0 <= i < |ScanLine(line).stack| ==> IsCloser(ScanLine(line).stack[i])
  {
    if line != [] {
      StackHoldsClosers(line[..|line| - 1]);
    }
  }

  /** The `scores` table of part 1: 0 for "" and for any character without an entry. */
  function IllegalScore(bad: string): nat
  {
    if bad == ")" then 3
    else if bad == "]" then 57
    else if bad == "}" then 1197
    else if bad == ">" then 25137
    else 0
  }

  function BadOf(line: string): string
  {
    if ScanLine(line).Bad? then [ScanLine(line).ch] else ""
  }

  function TotalIllegal(lines: seq<string>): nat
  {
    if lines == [] then 0 else TotalIllegal(lines[..|lines| - 1]) + IllegalScore(BadOf(lines[|lines| - 1]))
  }

  /** scoreIllegal: adds each line's bad-character score; clean lines add 0. */
  method ScoreIllegal(lines: seq<string>) returns (sum: nat)
    ensures sum == TotalIllegal(lines)
  {
    sum := 0;
    for k := 0 to |lines|
      invariant sum == TotalIllegal(lines[..k])
    {
      assert lines[..k + 1][..k] == lines[..k];
      var bad := FindBadChar(lines[k]);
      sum := sum + IllegalScore(bad);
    }
    assert lines[..|lines|] == lines;
  }

  /** A clean line adds nothing to the part-1 total. */
  lemma {:induction false} CleanLinesScoreZero(lines: seq<string>)
    requires forall i :: 0 <= i < |lines| ==> ScanLine(lines[i]).Expecting?
    ensures TotalIllegal(lines) == 0
  {
    if lines != [] {
      CleanLinesScoreZero(lines[..|lines| - 1]);
    }
  }

  /** The stack of findCompletion, which pops on every non-opener without comparing. */
  function PendingClosers(line: string): seq<char>
  {
    if line == [] then []
    else
      var stack := PendingClosers(line[..|line| - 1]);
      var c := line[|line| - 1];
      match Closer(c)
      case Some(close) => stack + [close]
      case None => if stack == [] then [] else stack[..|stack| - 1]
  }

  function Reverse(s: seq<char>): (r: seq<char>)
    ensures |r| == |s|
  {
    if s == [] then [] else [s[|s| - 1]] + Reverse(s[..|s| - 1])
  }

  /** findCompletion: the closers still expected, innermost first. */
  method FindCompletion(line: string) returns (completion: seq<char>)
    ensures completion == Reverse(PendingClosers(line))
  {
    var expected: seq<char> := [];
    for k := 0 to |line|
      invariant expected == PendingClosers(line[..k])
    {
      assert line[..k + 1][..k] == line[..k];
      match Closer(line[k])
      case Some(close) =>
        expected := expected + [close];
      case None =>
        if expected != [] {
          expected := expected[..|expected| - 1];
        }
    }
    assert line[..|line|] == line;
    completion := [];
    var i := |expected|;
    while i > 0
      invariant 0 <= i <= |expected|
      invariant completion == Reverse(expected[i..])
    {
      assert expected[i - 1..][1..] == expected[i..];
      assert expected[i - 1..][..|expected[i - 1..]| - 1] == expected[i - 1..|expected| - 1];
      ReverseFront(expected[i - 1..]);
      completion := completion + [expected[i - 1]];
      i := i - 1;
    }
  }

  lemma {:induction false} ReverseFront(s: seq<char>)
    requires s != []
    ensures Reverse(s) == Reverse(s[1..]) + [s[0]]
  {
    if |s| > 1 {
      ReverseFront(s[..|s| - 1]);
      assert s[..|s| - 1][1..] == s[1..][..|s[1..]| - 1];
    } else {
      assert s[1..] == [];
    }
  }

  lemma {:induction false} ReverseIndex(s: seq<char>)
    ensures forall i :: 0 <= i < |s| ==> Reverse(s)[i] == s[|s| - 1 - i]
  {
    if s != [] {
      ReverseIndex(s[..|s| - 1]);
    }
  }

  /** Every completion consists of closers only, so scoreCompletion always finds a score. */
  lemma {:induction false} CompletionIsClosers(line: string)
    ensures forall i :: 0 <= i < |PendingClosers(line)| ==> IsCloser(PendingClosers(line)[i])
    ensures forall i :: 0 <= i < |Reverse(PendingClosers(line))| ==> IsCloser(Reverse(PendingClosers(line))[i])
  {
    if line != [] {
      CompletionIsClosers(line[..|line| - 1]);
    }
    ReverseIndex(PendingClosers(line));
  }

  /** On a line that is not corrupted, the completion stack is the checker's stack. */
  lemma {:induction false} CompletionAgreesWithCheck(line: string)
    requires ScanLine(line).Expecting?
    ensures PendingClosers(line) == ScanLine(line).stack
  {
    if line != [] {
      var init := line[..|line| - 1];
      assert ScanLine(init).Expecting?;
      CompletionAgreesWithCheck(init);
    }
  }

  /** Feeding the expected closers innermost first empties the stack. */
  lemma {:induction false} ClosingEmptiesStack(line: string, stack: seq<char>)
    requires ScanLine(line) == Expecting(stack)
    requires forall i :: 0 <= i < |stack| ==> IsCloser(stack[i])
    ensures ScanLine(line + Reverse(stack)) == Expecting([])
    decreases |stack|
  {
    if stack == [] {
      assert line + Reverse(stack) == line;
    } else {
      var top := stack[|stack| - 1];
      var rest := stack[..|stack| - 1];
      var line' := line + [top];
      CloseTop(line, stack);
      assert forall i :: 0 <= i < |rest| ==> IsCloser(rest[i]) by {
        forall i | 0 <= i < |rest| ensures IsCloser(rest[i]) {
          assert rest[i] == stack[i];
        }
      }
      ClosingEmptiesStack(line', rest);
      assert Reverse(stack) == [top] + Reverse(rest);
      AppendAssoc(line, [top], Reverse(rest));
    }
  }

  lemma AppendAssoc(a: string, b: string, c: string)
    ensures (a + b) + c == a + (b + c)
  {
  }

  lemma CloseTop(line: string, stack: seq<char>)
    requires ScanLine(line) == Expecting(stack) && stack != [] && IsCloser(stack[|stack| - 1])
    ensures ScanLine(line + [stack[|stack| - 1]]) == Expecting(stack[..|stack| - 1])
  {
    var line' := line + [stack[|stack| - 1]];
    assert line'[..|line'| - 1] == line;
    assert ScanLine(line') == ScanStep(stack, stack[|stack| - 1]);
  }

  /** A line that is not corrupted, followed by its completion, is balanced. */
  lemma CompletionBalances(line: string)
    requires ScanLine(line).Expecting?
    ensures ScanLine(line + Reverse(PendingClosers(line))) == Expecting([])
  {
    CompletionAgreesWithCheck(line);
    StackHoldsClosers(line);
    ClosingEmptiesStack(line, ScanLine(line).stack);
  }

  /** The `scores` table of part 2. */
  function CloserScore(c: char): nat
    requires IsCloser(c)
  {
    match c
    case ')' => 1
    case ']' => 2
    case '}' => 3
    case '>' => 4
  }

  /** scoreCompletion: acc = 5 × acc + score, from 0. */
  function ScoreCompletion(completion: seq<char>): nat
    requires forall i :: 0 <= i < |completion| ==> IsCloser(completion[i])
  {
    if completion == [] then 0
    else 5 * ScoreCompletion(completion[..|completion| - 1]) + CloserScore(completion[|completion| - 1])
  }

  /** The score is the completion read as a base-5 number with digits 1..4. */
  lemma {:induction false} ScoreCompletionAppend(a: seq<char>, b: seq<char>)
    requires forall i :: 0 <= i < |a| ==> IsCloser(a[i])
    requires forall i :: 0 <= i < |b| ==> IsCloser(b[i])
    ensures ScoreCompletion(a + b) == ScoreCompletion(a) * Pow(5, |b|) + ScoreCompletion(b)
  {
    if b == [] {
      assert a + b == a;
    } else {
      var b' := b[..|b| - 1];
      var last := b[|b| - 1];
      assert (a + b)[..|a + b| - 1] == a + b' && (a + b)[|a + b| - 1] == last;
      assert forall i :: 0 <= i < |b'| ==> IsCloser(b'[i]) by {
        forall i | 0 <= i < |b'| ensures IsCloser(b'[i]) {
          assert b'[i] == b[i];
        }
      }
      ScoreCompletionAppend(a, b');
      var sa, sb, p := ScoreCompletion(a), ScoreCompletion(b'), Pow(5, |b'|);
      assert ScoreCompletion(a + b) == 5 * (sa * p + sb) + CloserScore(last);
      assert ScoreCompletion(b) == 5 * sb + CloserScore(last);
      assert Pow(5, |b|) == 5 * p;
      ScaleSum(sa, p, sb);
    }
  }

  lemma ScaleSum(x: int, p: int, y: int)
    ensures 5 * (x * p + y) == x * (5 * p) + 5 * y
  {
  }

  /** Longer completions score higher: a completion of length n scores in [(5^n − 1)/4, 5^n). */
  lemma {:induction false} ScoreCompletionRange(completion: seq<char>)
    requires forall i :: 0 <= i < |completion| ==> IsCloser(completion[i])
    ensures 4 * ScoreCompletion(completion) >= Pow(5, |completion|) - 1
    ensures ScoreCompletion(completion) < Pow(5, |completion|)
  {
    if completion != [] {
      ScoreCompletionRange(completion[..|completion| - 1]);
    }
  }
}
