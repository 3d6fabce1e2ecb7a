/**
 * Scratchcards (2023, day 4): a card scores by how many of its drawn numbers
 * are winning numbers, and in the second part each match wins copies of the
 * cards that follow it.
 */
module Scratchcards {
  import opened Common
  import opened Bits

  /**
   * `intersection`: walks the smaller set and keeps the elements the bigger
   * one has, so the result is exactly the common elements.
   */
  method Intersection<T>(setA: set<T>, setB: set<T>) returns (result: set<T>)
    ensures result == setA * setB
  {
    var pair := if |setA| < |setB| then (setA, setB) else (setB, setA);
    var smaller, bigger := pair.0, pair.1;
    result := {};
    var rest := smaller;
    while rest != {}
      invariant rest <= smaller
      invariant result == (smaller - rest) * bigger
      decreases |rest|
    {
      var item :| item in rest;
      if item in bigger {
        result := result + {item};
      }
      rest := rest - {item};
    }
  }

  /** The points of a card: 0 or 1 for fewer than two matches, otherwise 2^(matches − 1). */
  function Points(matches: nat): nat
  {
    if matches < 2 then matches else Pow2(matches - 1)
  }

  /** Every match after the first doubles the points. */
  lemma PointsDouble(matches: nat)
    requires matches >= 1
    ensures Points(matches + 1) == 2 * Points(matches)
  {
  }

  datatype Card = Card(winningNumbers: set<int>, drawnNumbers: set<int>, matches: nat, points: nat)

  /** `parseCard` after splitting the line: the numbers become sets and the card's matches and points are derived from them. */
  method ParseCard(winning: seq<int>, drawn: seq<int>) returns (card: Card)
    ensures card.winningNumbers == set x | x in winning
    ensures card.drawnNumbers == set x | x in drawn
    ensures card.matches == |card.winningNumbers * card.drawnNumbers|
    ensures card.points == Points(card.matches)
  {
    var winningNumbers := set x | x in winning;
    var drawnNumbers := set x | x in drawn;
    var common := Intersection(winningNumbers, drawnNumbers);
    var matches := |common|;
    card := Card(winningNumbers, drawnNumbers, matches, if matches < 2 then matches else Pow2(matches - 1));
  }

  /**
   * The extra copies of card t won from earlier cards: each card k < t with
   * t − k ≤ matches[k] gives one copy for itself and one for each copy of it.
   * Indices past the last card are reached too when a card near the end has
   * many matches.
   */
  function WonCopies(matches: seq<nat>, t: nat): nat
    decreases t, 1
  {
    Contributions(matches, t, t)
  }

  /** The copies of card t won from cards 0 .. i − 1. */
  function Contributions(matches: seq<nat>, t: nat, i: nat): nat
    decreases i, 0
  {
    if i == 0 then 0
    else
      var k := i - 1;
      Contributions(matches, t, k) + (if k < |matches| && k < t && t - k <= matches[k] then WonCopies(matches, k) + 1 else 0)
  }

  lemma {:induction false} ContributionsSettled(matches: seq<nat>, t: nat, i: nat)
    requires i >= t
    ensures Contributions(matches, t, i) == WonCopies(matches, t)
  {
    if i > t {
      ContributionsSettled(matches, t, i - 1);
    }
  }

  /** One past the furthest card index any card reaches, and at least the number of cards. */
  function Reach(matches: seq<nat>): (n: nat)
    ensures n >= |matches|
    ensures forall k | 0 <= k < |matches| :: k + matches[k] < n
  {
    if matches == [] then 0
    else
      var r := Reach(matches[..|matches| - 1]);
      var last := |matches| - 1 + matches[|matches| - 1] + 1;
      if r < last then last else r
  }

  /** No copies are won beyond the reach of the cards. */
  lemma {:induction false} NothingBeyondReach(matches: seq<nat>, t: nat, i: nat)
    requires t >= Reach(matches)
    ensures Contributions(matches, t, i) == 0
  {
    if i > 0 {
      NothingBeyondReach(matches, t, i - 1);
    }
  }

  /** The copies won for indices 0 .. n − 1. */
  function WonUpTo(matches: seq<nat>, n: nat): nat
  {
    if n == 0 then 0 else WonUpTo(matches, n - 1) + WonCopies(matches, n - 1)
  }

  lemma {:induction false} SumOfWon(matches: seq<nat>, s: seq<nat>)
    requires forall t | 0 <= t < |s| :: s[t] == WonCopies(matches, t)
    ensures Sum(s) == WonUpTo(matches, |s|)
  {
    if s != [] {
      SumOfWon(matches, s[..|s| - 1]);
    }
  }

  /**
   * `processCards`: for each card in order, the card's won copies plus one are
   * added to each of the next `matches` cards' counters; the answer is the sum
   * of the counters plus the number of original cards.
   */
  method ProcessCards(matches: seq<nat>) returns (total: nat)
    ensures total == WonUpTo(matches, Reach(matches)) + |matches|
    ensures total >= |matches|
  {
    var n := Reach(matches);
    var winCounts := new nat[n](_ => 0);
    for i := 0 to |matches|
      invariant forall t | 0 <= t < n :: winCounts[t] == Contributions(matches, t, i)
    {
      ContributionsSettled(matches, i, i);
      var own := winCounts[i];
      for j := 1 to matches[i] + 1
        invariant forall t | 0 <= t < n ::
          winCounts[t] == if i < t < i + j then Contributions(matches, t, i + 1) else Contributions(matches, t, i)
      {
        winCounts[i + j] := winCounts[i + j] + own + 1;
      }
    }
    forall t | 0 <= t < n
      ensures winCounts[t] == WonCopies(matches, t)
    {
      if t <= |matches| {
        ContributionsSettled(matches, t, |matches|);
      } else {
        assert Contributions(matches, t, |matches|) == Contributions(matches, t, t) by {
          ContributionsFlat(matches, t, |matches|, t);
        }
      }
    }
    SumOfWon(matches, winCounts[..]);
    total := Sum(winCounts[..]) + |matches|;
  }

  /** Past the last card no further contribution is added. */
  lemma {:induction false} ContributionsFlat(matches: seq<nat>, t: nat, i: nat, j: nat)
    requires |matches| <= i <= j
    ensures Contributions(matches, t, j) == Contributions(matches, t, i)
  {
    if j > i {
      ContributionsFlat(matches, t, i, j - 1);
    }
  }

  /** When no card reaches past the last one, the answer is the number of copies of each card, the original included. */
  lemma TotalWithinDeck(matches: seq<nat>)
    requires forall k | 0 <= k < |matches| :: k + matches[k] < |matches|
    ensures WonUpTo(matches, Reach(matches)) == WonUpTo(matches, |matches|)
  {
    ReachAtMost(matches, |matches|);
  }

  lemma {:induction false} ReachAtMost(matches: seq<nat>, bound: nat)
    requires |matches| <= bound
    requires forall k | 0 <= k < |matches| :: k + matches[k] < bound
    ensures Reach(matches) <= bound
  {
    if matches != [] {
      var p := matches[..|matches| - 1];
      assert forall k | 0 <= k < |p| :: p[k] == matches[k];
      ReachAtMost(p, bound);
    }
  }
}
