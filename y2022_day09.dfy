/**
 * Rope Bridge (2022, day 9): a rope of knots on a grid; the head follows
 * the moves, every other knot follows the one before it, and the answer is
 * the number of distinct positions the tail visits.
 */
module RopeBridge {
  import opened Common

  type Point = (int, int)

  datatype Direction = U | D | R | L

  /** The `moves` table of the class. */
  function Delta(d: Direction): Point
  {
    match d
    case U => (0, 1)
    case D => (0, -1)
    case R => (1, 0)
    case L => (-1, 0)
  }

  function Sign(x: int): int
  {
    if x > 0 then 1 else if x < 0 then -1 else 0
  }

  /** The two knots are at most one apart on each axis. */
  predicate Touching(a: Point, b: Point)
  {
    Abs(a.0 - b.0) <= 1 && Abs(a.1 - b.1) <= 1
  }

  /** The new position of a knot whose predecessor is at `head`, by the three cases of `updateSegmentPosition`. */
  function Follow(head: Point, tail: Point): Point
  {
    var dx, dy := head.0 - tail.0, head.1 - tail.1;
    if dx == 0 && Abs(dy) > 1 then (tail.0, tail.1 + Sign(dy))
    else if dy == 0 && Abs(dx) > 1 then (tail.0 + Sign(dx), tail.1)
    else if Abs(dx) + Abs(dy) > 2 then (tail.0 + Sign(dx), tail.1 + Sign(dy))
    else tail
  }

  /** A knot touching its predecessor does not move. */
  lemma TouchingStays(head: Point, tail: Point)
    requires Touching(head, tail)
    ensures Follow(head, tail) == tail
  {
  }

  /** A knot moves at most one step on each axis, and never away from its predecessor on either axis. */
  lemma FollowIsOneStepTowards(head: Point, tail: Point)
    ensures var t := Follow(head, tail);
      Abs(t.0 - tail.0) <= 1 && Abs(t.1 - tail.1) <= 1 &&
      Abs(head.0 - t.0) <= Abs(head.0 - tail.0) && Abs(head.1 - t.1) <= Abs(head.1 - tail.1)
  {
  }

  /** A knot at most two away on each axis ends up touching its predecessor. */
  lemma FollowTouches(head: Point, tail: Point)
    requires Abs(head.0 - tail.0) <= 2 && Abs(head.1 - tail.1) <= 2
    ensures Touching(head, Follow(head, tail))
  {
  }

  /** The rope with knot i moved after knot i - 1. */
  function Pull(knots: seq<Point>, i: nat): (r: seq<Point>)
    requires 1 <= i < |knots|
    ensures |r| == |knots|
  {
    knots[i := Follow(knots[i - 1], knots[i])]
  }

  /** Knots i .. end moved in order. */
  function PullFrom(knots: seq<Point>, i: nat): (r: seq<Point>)
    requires 1 <= i
    ensures |r| == |knots|
    decreases |knots| - i
  {
    if i >= |knots| then knots else PullFrom(Pull(knots, i), i + 1)
  }

  /** One unit step: the head moves, then every other knot follows in order. */
  function Step(knots: seq<Point>, d: Direction): (r: seq<Point>)
    requires |knots| >= 2
    ensures |r| == |knots|
  {
    var head := knots[0];
    PullFrom(knots[0 := (head.0 + Delta(d).0, head.1 + Delta(d).1)], 1)
  }

  function Steps(knots: seq<Point>, d: Direction, n: nat): (r: seq<Point>)
    requires |knots| >= 2
    ensures |r| == |knots|
  {
    if n == 0 then knots else Step(Steps(knots, d, n - 1), d)
  }

  /** The tail positions before and after each of the n steps. */
  function Trail(knots: seq<Point>, d: Direction, n: nat): set<Point>
    requires |knots| >= 2
  {
    if n == 0 then {knots[|knots| - 1]}
    else Trail(knots, d, n - 1) + {Steps(knots, d, n)[|knots| - 1]}
  }

  /** Every knot touches the one before it. */
  predicate Connected(knots: seq<Point>)
  {
    forall i | 1 <= i < |knots| :: Touching(knots[i - 1], knots[i])
  }

  /**
   * While the knots from i on still touch their old predecessors and knot
   * i - 1 moved at most one on each axis, pulling them reconnects the rope.
   */
  lemma {:induction false} PullFromConnects(knots: seq<Point>, old_: seq<Point>, i: nat)
    requires 1 <= i <= |knots| == |old_|
    requires forall k | 1 <= k < i :: Touching(knots[k - 1], knots[k])
    requires forall k | i <= k < |knots| :: knots[k] == old_[k]
    requires Connected(old_)
    requires i < |knots| ==> Abs(knots[i - 1].0 - old_[i - 1].0) <= 1 && Abs(knots[i - 1].1 - old_[i - 1].1) <= 1
    ensures Connected(PullFrom(knots, i))
    decreases |knots| - i
  {
    if i < |knots| {
      var k := knots[i - 1];
      assert Touching(old_[i - 1], old_[i]);
      FollowTouches(k, knots[i]);
      FollowIsOneStepTowards(k, knots[i]);
      PullFromConnects(Pull(knots, i), old_, i + 1);
    }
  }

  /** A connected rope stays connected through every step. */
  lemma StepKeepsConnected(knots: seq<Point>, d: Direction)
    requires |knots| >= 2 && Connected(knots)
    ensures Connected(Step(knots, d))
  {
    var head := knots[0];
    PullFromConnects(knots[0 := (head.0 + Delta(d).0, head.1 + Delta(d).1)], knots, 1);
  }

  lemma {:induction false} StepsKeepConnected(knots: seq<Point>, d: Direction, n: nat)
    requires |knots| >= 2 && Connected(knots)
    ensures Connected(Steps(knots, d, n))
  {
    if n > 0 {
      StepsKeepConnected(knots, d, n - 1);
      StepKeepsConnected(Steps(knots, d, n - 1), d);
    }
  }

  /** A `Move`: a direction and a distance. */
  datatype Move = Move(direction: Direction, distance: nat)

  /** The rope after every move. */
  function RunMoves(knots: seq<Point>, moves: seq<Move>): (r: seq<Point>)
    requires |knots| >= 2
    ensures |r| == |knots|
  {
    if moves == [] then knots
    else
      var m := moves[|moves| - 1];
      Steps(RunMoves(knots, moves[..|moves| - 1]), m.direction, m.distance)
  }

  /** Every position the tail takes during the moves. */
  function Visited(knots: seq<Point>, moves: seq<Move>): set<Point>
    requires |knots| >= 2
  {
    if moves == [] then {}
    else
      var m := moves[|moves| - 1];
      Visited(knots, moves[..|moves| - 1]) + Trail(RunMoves(knots, moves[..|moves| - 1]), m.direction, m.distance)
  }

  lemma {:induction false} RunMovesKeepsConnected(knots: seq<Point>, moves: seq<Move>)
    requires |knots| >= 2 && Connected(knots)
    ensures Connected(RunMoves(knots, moves))
  {
    if moves != [] {
      var m := moves[|moves| - 1];
      RunMovesKeepsConnected(knots, moves[..|moves| - 1]);
      StepsKeepConnected(RunMoves(knots, moves[..|moves| - 1]), m.direction, m.distance);
    }
  }

  /** The start of a rope: `length` knots at the origin. */
  function Origin(length: nat): (r: seq<Point>)
    ensures |r| == length && Connected(r)
  {
    seq(length, _ => (0, 0))
  }

  /** `Rope`: the knots, head first, and the set of points the tail has visited. */
  class Rope {
    var segments: seq<Point>
    var visitedByTail: set<Point>

    /** The constructor: the knots at the origin, then every move applied. */
    constructor (length: nat, moves: seq<Move>)
      requires length >= 2
      ensures segments == RunMoves(Origin(length), moves)
      ensures visitedByTail == Visited(Origin(length), moves)
      ensures Connected(segments)
    {
      segments := Origin(length);
      visitedByTail := {};
      new;
      for k := 0 to |moves|
        invariant |segments| == length
        invariant segments == RunMoves(Origin(length), moves[..k])
        invariant visitedByTail == Visited(Origin(length), moves[..k])
      {
        ApplyMove(moves[k]);
        assert moves[..k + 1][..k] == moves[..k];
      }
      assert moves[..|moves|] == moves;
      RunMovesKeepsConnected(Origin(length), moves);
    }

    /** `updateSegmentPosition`: an index below 1 throws (`ok` false) and changes nothing. */
    method UpdateSegmentPosition(i: int) returns (ok: bool)
      requires i < |segments|
      modifies this
      ensures ok <==> i >= 1
      ensures ok ==> segments == Pull(old(segments), i)
      ensures !ok ==> segments == old(segments)
      ensures visitedByTail == old(visitedByTail)
    {
      if i < 1 {
        return false;
      }
      var (headX, headY) := segments[i - 1];
      var (tailX, tailY) := segments[i];
      var dx, dy := headX - tailX, headY - tailY;
      if dx == 0 && Abs(dy) > 1 {
        segments := segments[i := (tailX, tailY + Sign(dy))];
      } else if dy == 0 && Abs(dx) > 1 {
        segments := segments[i := (tailX + Sign(dx), tailY)];
      } else if Abs(dx) + Abs(dy) > 2 {
        segments := segments[i := (tailX + Sign(dx), tailY + Sign(dy))];
      }
      return true;
    }

    /** `applyMove`: records the tail, then takes `distance` unit steps, recording the tail after each. */
    method ApplyMove(move: Move)
      requires |segments| >= 2
      modifies this
      ensures segments == Steps(old(segments), move.direction, move.distance)
      ensures visitedByTail == old(visitedByTail) + Trail(old(segments), move.direction, move.distance)
    {
      ghost var start := segments;
      visitedByTail := visitedByTail + {segments[|segments| - 1]};
      for n := 0 to move.distance
        invariant |segments| == |start|
        invariant segments == Steps(start, move.direction, n)
        invariant visitedByTail == old(visitedByTail) + Trail(start, move.direction, n)
      {
        var (dx, dy) := Delta(move.direction);
        ghost var before := segments;
        segments := segments[0 := (segments[0].0 + dx, segments[0].1 + dy)];
        for i := 1 to |segments|
          invariant |segments| == |start|
          invariant PullFrom(segments, i) == Step(before, move.direction)
          invariant visitedByTail == old(visitedByTail) + Trail(start, move.direction, n)
        {
          var _ := UpdateSegmentPosition(i);
        }
        assert segments == Steps(start, move.direction, n + 1);
        visitedByTail := visitedByTail + {segments[|segments| - 1]};
      }
    }

    /** `numberVisitedByTail`: the number of distinct points the tail has been at. */
    function NumberVisitedByTail(): nat
      reads this
    {
      |visitedByTail|
    }
  }

  /** The constructor's guard: a length below 2 throws, otherwise a rope is made. */
  method MakeRope(length: int, moves: seq<Move>) returns (rope: Option<Rope>)
    ensures rope.None? <==> length < 2
    ensures rope.Some? ==> fresh(rope.value)
    ensures rope.Some? ==> rope.value.segments == RunMoves(Origin(length), moves)
    ensures rope.Some? ==> rope.value.visitedByTail == Visited(Origin(length), moves)
  {
    if length < 2 {
      return None;
    }
    var r := new Rope(length, moves);
    return Some(r);
  }
}
