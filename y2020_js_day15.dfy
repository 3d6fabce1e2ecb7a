/**
 * Rambunctious Recitation (2020, day 15): the elves say the starting
 * numbers in turn; after that each turn says 0 when the previous number was
 * new, and otherwise how many turns ago it had been said before.
 */
module RambunctiousRecitation {
  import opened Common

  /** What `elfGame` keeps after a turn: the latest turn of every number said, and the number it computed. */
  datatype State = State(memory: map<int, nat>, curr: int)

  /**
   * `prevNumber` at turn t ≥ 1: a starting number while they last, after
   * that the number computed in the turn before.
   */
  function Said(input: seq<int>, t: nat): int
    requires |input| >= 1 && t >= 1
    decreases t, 0
  {
    if t <= |input| then input[t - 1] else Game(input, t - 1).curr
  }

  /**
   * The state after turns 1..t of `elfGame`'s loop: turn t computes the age
   * of the number said at turn t (0 when it is new) and records turn t as
   * that number's latest.
   */
  function Game(input: seq<int>, t: nat): State
    requires |input| >= 1
    decreases t, 1
  {
    if t == 0 then State(map[], 0)
    else
      var before := Game(input, t - 1);
      var prev := Said(input, t);
      var curr := if prev in before.memory then t - before.memory[prev] else 0;
      State(before.memory[prev := t], curr)
  }

  /** `elfGame(start, endTurn)`: the number computed in turn endTurn − 1; undefined when the loop never runs. */
  function ElfGameSpec(input: seq<int>, endTurn: int): Option<int>
    requires |input| >= 1
  {
    if endTurn <= 1 then None else Some(Game(input, endTurn - 1).curr)
  }

  /** `elfGame`: one `Map` from number to latest turn, updated once per turn. */
  method ElfGame(input: seq<int>, endTurn: int) returns (r: Option<int>)
    requires |input| >= 1
    ensures r == ElfGameSpec(input, endTurn)
  {
    var memory: map<int, nat> := map[];
    var currNumber: Option<int> := None;
    var turn := 1;
    while turn < endTurn
      invariant 1 <= turn <= Max(endTurn, 1)
      invariant memory == Game(input, turn - 1).memory
      invariant turn > 1 ==> currNumber == Some(Game(input, turn - 1).curr)
      invariant turn == 1 ==> currNumber == None
    {
      var prevNumber := if turn <= |input| then input[turn - 1] else currNumber.value;
      currNumber := Some(if prevNumber in memory then turn - memory[prevNumber] else 0);
      memory := memory[prevNumber := turn];
      turn := turn + 1;
    }
    return currNumber;
  }

  /**
   * The memory after t turns holds exactly the numbers said so far, each
   * mapped to the latest turn it was said in.
   */
  lemma {:induction false} MemoryIsLatest(input: seq<int>, t: nat, x: int)
    requires |input| >= 1
    ensures x in Game(input, t).memory <==> exists s :: 1 <= s <= t && Said(input, s) == x
    ensures x in Game(input, t).memory ==>
      var last := Game(input, t).memory[x];
      1 <= last <= t && Said(input, last) == x && forall s | last < s <= t :: Said(input, s) != x
  {
    if t > 0 {
      MemoryIsLatest(input, t - 1, x);
      if x == Said(input, t) {
        assert 1 <= t <= t && Said(input, t) == x;
      } else if exists s :: 1 <= s <= t && Said(input, s) == x {
        var s :| 1 <= s <= t && Said(input, s) == x;
        assert 1 <= s <= t - 1 && Said(input, s) == x;
      }
    }
  }

  /**
   * The number computed in turn t is 0 exactly when the number said in turn
   * t was never said before; otherwise it is d > 0, the number was said d
   * turns earlier and in no turn since.
   */
  lemma AgeMeaning(input: seq<int>, t: nat)
    requires |input| >= 1 && t >= 1
    ensures var d := Game(input, t).curr; var x := Said(input, t);
      (d == 0 <==> forall s | 1 <= s < t :: Said(input, s) != x) &&
      (d != 0 ==> 0 < d < t && Said(input, t - d) == x && forall s | t - d < s < t :: Said(input, s) != x)
  {
    var x := Said(input, t);
    MemoryIsLatest(input, t - 1, x);
    if x !in Game(input, t - 1).memory {
      assert forall s | 1 <= s < t :: Said(input, s) != x;
    }
  }

  /** Every computed number is smaller than its turn, so a defined answer is below endTurn. */
  lemma ElfGameBelowEndTurn(input: seq<int>, endTurn: int)
    requires |input| >= 1
    ensures endTurn >= 2 <==> ElfGameSpec(input, endTurn).Some?
    ensures endTurn >= 2 ==> 0 <= ElfGameSpec(input, endTurn).value < endTurn - 1
  {
    if endTurn >= 2 {
      AgeMeaning(input, endTurn - 1);
    }
  }

  /** Once the starting numbers are used up, the answer is the number said at turn endTurn. */
  lemma ElfGameSaysTurn(input: seq<int>, endTurn: int)
    requires |input| >= 1 && endTurn > |input|
    ensures ElfGameSpec(input, endTurn) == Some(Said(input, endTurn))
  {
  }

  /** The first six turns of the puzzle's example 0, 3, 6. */
  lemma ExampleOpening()
    ensures Game([0, 3, 6], 6) == State(map[0 := 4, 3 := 6, 6 := 3], 1)
  {
    var input := [0, 3, 6];
    assert Game(input, 3) == State(map[0 := 1, 3 := 2, 6 := 3], 0);
    assert Game(input, 4) == State(map[0 := 4, 3 := 2, 6 := 3], 3);
    assert Game(input, 5) == State(map[0 := 4, 3 := 5, 6 := 3], 3);
  }

  /** The puzzle's example: 0, 3, 6, 0, 3, 3, 1, 0, 4, 0, so turn 10 says 0. */
  lemma ExampleGame()
    ensures ElfGameSpec([0, 3, 6], 10) == Some(0)
  {
    var input := [0, 3, 6];
    ExampleOpening();
    assert Game(input, 7) == State(map[0 := 4, 3 := 6, 6 := 3, 1 := 7], 0);
    assert Game(input, 8) == State(map[0 := 8, 3 := 6, 6 := 3, 1 := 7], 4);
  }

  /**
   * With fewer turns than starting numbers the answer is not the starting
   * number of turn endTurn: for [1, 2, 3] and endTurn 2 it is 0, not 2.
   */
  lemma ShortGameAnswer()
    ensures Said([1, 2, 3], 2) == 2
    ensures ElfGameSpec([1, 2, 3], 2) == Some(0)
  {
  }
}
