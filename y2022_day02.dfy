/**
 * Rock Paper Scissors (2022, day 2): a strategy guide of two-letter games,
 * scored either reading the second letter as our move (part 1) or as the
 * result we must reach (part 2). Shapes are numbered rock 1, paper 2,
 * scissors 3; a game scores our shape plus 0 for a loss, 3 for a draw and
 * 6 for a win.
 */
module RockPaperScissors {
  import opened Common

  /** The `moves` lookup: A/X rock, B/Y paper, C/Z scissors; any other letter is NaN. */
  function MoveValue(letter: char): (v: Option<int>)
    ensures v.Some? ==> 1 <= v.value <= 3
  {
    if letter == 'A' || letter == 'X' then Some(1)
    else if letter == 'B' || letter == 'Y' then Some(2)
    else if letter == 'C' || letter == 'Z' then Some(3)
    else None
  }

  /** The part 2 lookup only knows the opponent's letters. */
  function OpponentValue(letter: char): (v: Option<int>)
    ensures v.Some? ==> 1 <= v.value <= 3
  {
    if letter == 'A' then Some(1)
    else if letter == 'B' then Some(2)
    else if letter == 'C' then Some(3)
    else None
  }

  predicate IsShape(p: int) { 1 <= p <= 3 }

  /** The rules, stated independently of the source's arithmetic: rock beats scissors, paper beats rock, scissors beats paper. */
  predicate Beats(a: int, b: int)
  {
    (a == 1 && b == 3) || (a == 2 && b == 1) || (a == 3 && b == 2)
  }

  datatype Outcome = Loss | Draw | Win

  /** The outcome of the game for the second player. */
  function OutcomeFor(p1: int, p2: int): Outcome
  {
    if p1 == p2 then Draw else if Beats(p2, p1) then Win else Loss
  }

  function OutcomePoints(o: Outcome): int
  {
    match o
    case Loss => 0
    case Draw => 3
    case Win => 6
  }

  /**
   * The score of a game of shapes, as the arithmetic of `scoreAssumingMove`
   * computes it: on shapes, exactly the rules' own shape plus 0, 3 or 6, so
   * every score is in 1..9.
   */
  function MoveScore(p1: int, p2: int): (r: int)
    ensures IsShape(p1) && IsShape(p2) ==> r == p2 + OutcomePoints(OutcomeFor(p1, p2))
    ensures IsShape(p1) && IsShape(p2) ==> 1 <= r <= 9
  {
    if p1 == p2 then p2 + 3
    else if ((p1 + 4) % 3) + 1 == p2 then p2
    else p2 + 6
  }

  /**
   * `scoreAssumingMove`: NaN (None) when our letter is not a move. An unknown
   * opponent letter reads `undefined`, which equals neither our shape nor the
   * NaN of the winning-shape arithmetic, so the game counts as a win.
   */
  function ScoreAssumingMove(opponent: char, own: char): (r: Option<int>)
    ensures r.Some? <==> MoveValue(own).Some?
    ensures r.Some? ==> 1 <= r.value <= 9
    ensures MoveValue(opponent).None? && r.Some? ==> r.value == MoveValue(own).value + OutcomePoints(Win)
  {
    match (MoveValue(opponent), MoveValue(own))
    case (Some(p1), Some(p2)) => Some(MoveScore(p1, p2))
    case (None, Some(p2)) => Some(p2 + 6)
    case _ => None
  }

  /** `scoreAssumingResult`: X asks for a loss, Y for a draw, any other letter for a win. */
  function ScoreAssumingResult(opponent: char, target: char): (r: Option<int>)
    ensures r.Some? <==> OpponentValue(opponent).Some?
  {
    match OpponentValue(opponent)
    case None => None
    case Some(p1) =>
      if target == 'X' then Some(((p1 + 4) % 3) + 1)
      else if target == 'Y' then Some(p1 + 3)
      else Some(((p1 + 3) % 3) + 7)
  }

  function TargetOutcome(target: char): Outcome
  {
    if target == 'X' then Loss else if target == 'Y' then Draw else Win
  }

  /**
   * Part 2 scores as part 1 would with the one shape that reaches the asked
   * outcome: that shape exists, it is unique, and the score is its part 1 score.
   */
  lemma ResultScoreIsMoveScore(p1: int, target: char)
    requires IsShape(p1)
    ensures var o := TargetOutcome(target);
      exists p2 :: IsShape(p2) && OutcomeFor(p1, p2) == o &&
        ScoreAssumingResult(OpponentLetter(p1), target) == Some(MoveScore(p1, p2))
    ensures forall p2, q2 :: IsShape(p2) && IsShape(q2) && OutcomeFor(p1, p2) == OutcomeFor(p1, q2) ==> p2 == q2
  {
    var o := TargetOutcome(target);
    var p2 := if o == Draw then p1 else if o == Win then (p1 % 3) + 1 else ((p1 + 4) % 3) + 1;
    assert OutcomeFor(p1, p2) == o;
    assert ScoreAssumingResult(OpponentLetter(p1), target) == Some(MoveScore(p1, p2));
  }

  /** The opponent letter of a shape. */
  function OpponentLetter(p: int): (c: char)
    requires IsShape(p)
    ensures OpponentValue(c) == Some(p)
  {
    if p == 1 then 'A' else if p == 2 then 'B' else 'C'
  }

  /** The totals: the scores summed; one NaN game makes the total NaN. */
  function Total(scores: seq<Option<int>>): (r: Option<int>)
    ensures r.Some? <==> forall i | 0 <= i < |scores| :: scores[i].Some?
  {
    if scores == [] then Some(0)
    else
      match (Total(scores[..|scores| - 1]), scores[|scores| - 1])
      case (Some(t), Some(s)) => Some(t + s)
      case _ => None
  }
}
