/**
 * Crab Combat (2020, day 22): two players draw their top cards; the higher
 * card wins the round and its owner puts both cards at the bottom of their
 * deck, their own card first. In the recursive variant a round can be
 * decided by a sub-game on copies of the next cards, and an arrangement
 * seen before in the same game ends that game in player 1's favour.
 */
module CrabCombat {
  import opened Common

  /** A deck as a JavaScript array, changed in place by `shift` and `push`. */
  class Deck {
    var cards: seq<int>

    constructor (cards: seq<int>)
      ensures this.cards == cards
    {
      this.cards := cards;
    }

    /** `deck.shift()`: removes and returns the top card. */
    method Shift() returns (card: int)
      requires cards != []
      modifies this
      ensures card == old(cards)[0] && cards == old(cards)[1..]
    {
      card := cards[0];
      cards := cards[1..];
    }

    /** `deck.push(a, b)`: puts two cards at the bottom, a first. */
    method Push(a: int, b: int)
      modifies this
      ensures cards == old(cards) + [a, b]
    {
      cards := cards + [a, b];
    }
  }

  /**
   * The decks after a round whose top cards c1 and c2 are already drawn:
   * the winner puts their own card, then the other, at the bottom.
   */
  function Award(rest1: seq<int>, rest2: seq<int>, c1: int, c2: int, p1Wins: bool): (seq<int>, seq<int>)
  {
    if p1Wins then (rest1 + [c1, c2], rest2) else (rest1, rest2 + [c2, c1])
  }

  /** A round keeps every card: the two drawn cards go back, into one deck. */
  lemma AwardConserves(d1: seq<int>, d2: seq<int>, p1Wins: bool)
    requires d1 != [] && d2 != []
    ensures var next := Award(d1[1..], d2[1..], d1[0], d2[0], p1Wins);
      multiset(next.0) + multiset(next.1) == multiset(d1) + multiset(d2) &&
      |next.0| + |next.1| == |d1| + |d2|
  {
    assert d1 == [d1[0]] + d1[1..] && d2 == [d2[0]] + d2[1..];
    assert multiset(d1) == multiset{d1[0]} + multiset(d1[1..]);
    assert multiset(d2) == multiset{d2[0]} + multiset(d2[1..]);
    if p1Wins {
      assert multiset(d1[1..] + [d1[0], d2[0]]) == multiset(d1[1..]) + multiset{d1[0], d2[0]};
    } else {
      assert multiset(d2[1..] + [d2[0], d1[0]]) == multiset(d2[1..]) + multiset{d2[0], d1[0]};
    }
  }

  /**
   * `combat` with at most `fuel` rounds: the final decks once one is empty,
   * None when the rounds run out first. Ties go to player 2.
   */
  function CombatSpec(d1: seq<int>, d2: seq<int>, fuel: nat): Option<(seq<int>, seq<int>)>
    decreases fuel
  {
    if d1 == [] || d2 == [] then Some((d1, d2))
    else if fuel == 0 then None
    else
      var next := Award(d1[1..], d2[1..], d1[0], d2[0], d1[0] > d2[0]);
      CombatSpec(next.0, next.1, fuel - 1)
  }

  /** `combat`: plays rounds on the two decks in place and returns the one that is not empty. */
  method Combat(deck1: Deck, deck2: Deck, fuel: nat) returns (winner: Option<Deck>)
    requires deck1 != deck2
    modifies deck1, deck2
    ensures var g := CombatSpec(old(deck1.cards), old(deck2.cards), fuel);
      (g.None? <==> winner.None?) &&
      (g.Some? ==>
        deck1.cards == g.value.0 && deck2.cards == g.value.1 &&
        winner.Some? && winner.value == (if deck1.cards != [] then deck1 else deck2))
  {
    var f: nat := fuel;
    while deck1.cards != [] && deck2.cards != []
      invariant CombatSpec(deck1.cards, deck2.cards, f) == CombatSpec(old(deck1.cards), old(deck2.cards), fuel)
      decreases f
    {
      if f == 0 {
        return None;
      }
      var card1 := deck1.Shift();
      var card2 := deck2.Shift();
      if card1 > card2 {
        deck1.Push(card1, card2);
      } else {
        deck2.Push(card2, card1);
      }
      f := f - 1;
    }
    return Some(if deck1.cards != [] then deck1 else deck2);
  }

  /** A finished game of Combat leaves one deck empty and every card with the winner. */
  lemma {:induction false} CombatEnds(d1: seq<int>, d2: seq<int>, fuel: nat)
    requires CombatSpec(d1, d2, fuel).Some?
    ensures var r := CombatSpec(d1, d2, fuel).value;
      (r.0 == [] || r.1 == []) && multiset(r.0) + multiset(r.1) == multiset(d1) + multiset(d2)
    decreases fuel
  {
    if d1 != [] && d2 != [] {
      var next := Award(d1[1..], d2[1..], d1[0], d2[0], d1[0] > d2[0]);
      CombatEnds(next.0, next.1, fuel - 1);
      AwardConserves(d1, d2, d1[0] > d2[0]);
    }
  }

  /** The six arrangements plain Combat cycles through from 43, 19 against 2, 29, 14; the seventh is the first again. */
  function LoopState(k: nat): (seq<int>, seq<int>)
    requires k <= 6
  {
    match k
    case 0 => ([43, 19], [2, 29, 14])
    case 1 => ([19, 43, 2], [29, 14])
    case 2 => ([43, 2], [14, 29, 19])
    case 3 => ([2, 43, 14], [29, 19])
    case 4 => ([43, 14], [19, 29, 2])
    case 5 => ([14, 43, 19], [29, 2])
    case _ => ([43, 19], [2, 29, 14])
  }

  /** One round leads from each arrangement of the cycle to the next. */
  lemma LoopStep(k: nat, fuel: nat)
    requires k < 6
    ensures CombatSpec(LoopState(k).0, LoopState(k).1, fuel + 1) ==
      CombatSpec(LoopState(k + 1).0, LoopState(k + 1).1, fuel)
  {
  }

  /** From any arrangement of the cycle no round bound is enough. */
  lemma {:induction false} LoopForever(k: nat, fuel: nat)
    requires k <= 6
    ensures CombatSpec(LoopState(k).0, LoopState(k).1, fuel).None?
    decreases fuel
  {
    if fuel > 0 {
      var j := if k == 6 then 0 else k;
      assert LoopState(j) == LoopState(k);
      LoopStep(j, fuel - 1);
      LoopForever(j + 1, fuel - 1);
    }
  }

  /**
   * Plain Combat need not end: from 43, 19 against 2, 29, 14 six rounds
   * lead back to the same decks, so `combat` never returns.
   */
  lemma PlainCombatLoops(fuel: nat)
    ensures CombatSpec([43, 19], [2, 29, 14], fuel).None?
  {
    LoopForever(0, fuel);
  }

  /** How a recursive game ends: who won and the two decks as they are then. */
  datatype Outcome = Outcome(p1Wins: bool, deck1: seq<int>, deck2: seq<int>)

  /** `deck.slice(0, n)`: a negative n counts from the end. */
  function SliceTo(s: seq<int>, n: int): (t: seq<int>)
    ensures |t| <= |s| && t == s[..|t|]
    ensures 0 <= n <= |s| ==> |t| == n
  {
    if n >= 0 then s[..Min(n, |s|)] else s[..Max(|s| + n, 0)]
  }

  /**
   * `playGame` with at most `fuel` rounds in this game and in every
   * sub-game: both decks non-empty, an arrangement already in `seen` wins
   * for player 1, otherwise a round is played.
   */
  function Game(d1: seq<int>, d2: seq<int>, seen: set<(seq<int>, seq<int>)>, fuel: nat): Option<Outcome>
    decreases fuel, 1
  {
    if d1 == [] || d2 == [] then Some(Outcome(d1 != [], d1, d2))
    else if (d1, d2) in seen then Some(Outcome(true, d1, d2))
    else if fuel == 0 then None
    else
      match RoundWinner(d1, d2, fuel)
      case None => None
      case Some(p1Wins) =>
        var next := Award(d1[1..], d2[1..], d1[0], d2[0], p1Wins);
        Game(next.0, next.1, seen + {(d1, d2)}, fuel - 1)
  }

  /**
   * Whether player 1 wins the round: when both drawn cards are no larger
   * than the cards left, a sub-game on copies of that many cards decides;
   * otherwise the higher card.
   */
  function RoundWinner(d1: seq<int>, d2: seq<int>, fuel: nat): Option<bool>
    requires d1 != [] && d2 != [] && fuel > 0
    decreases fuel, 0
  {
    var c1, c2 := d1[0], d2[0];
    if c1 <= |d1| - 1 && c2 <= |d2| - 1 then
      match Game(SliceTo(d1[1..], c1), SliceTo(d2[1..], c2), {}, fuel - 1)
      case None => None
      case Some(sub) => Some(sub.p1Wins)
    else Some(c1 > c2)
  }

  /**
   * `playGame`: plays on the two decks in place, remembering every
   * arrangement; each sub-game gets fresh decks, so it cannot touch these.
   */
  method PlayGame(deck1: Deck, deck2: Deck, fuel: nat) returns (p1Wins: Option<bool>)
    requires deck1 != deck2
    modifies deck1, deck2
    ensures var g := Game(old(deck1.cards), old(deck2.cards), {}, fuel);
      (g.None? <==> p1Wins.None?) &&
      (g.Some? ==> p1Wins == Some(g.value.p1Wins) && deck1.cards == g.value.deck1 && deck2.cards == g.value.deck2)
    decreases fuel
  {
    var seenDecks: set<(seq<int>, seq<int>)> := {};
    var f: nat := fuel;
    while deck1.cards != [] && deck2.cards != []
      invariant f <= fuel
      invariant Game(deck1.cards, deck2.cards, seenDecks, f) == Game(old(deck1.cards), old(deck2.cards), {}, fuel)
      decreases f
    {
      if (deck1.cards, deck2.cards) in seenDecks {
        return Some(true);
      }
      if f == 0 {
        return None;
      }
      seenDecks := seenDecks + {(deck1.cards, deck2.cards)};
      var card1 := deck1.Shift();
      var card2 := deck2.Shift();
      var roundWinner: bool;
      if card1 <= |deck1.cards| && card2 <= |deck2.cards| {
        var sub1 := new Deck(SliceTo(deck1.cards, card1));
        var sub2 := new Deck(SliceTo(deck2.cards, card2));
        var sub := PlayGame(sub1, sub2, f - 1);
        if sub.None? {
          return None;
        }
        roundWinner := sub.value;
      } else {
        roundWinner := card1 > card2;
      }
      if roundWinner {
        deck1.Push(card1, card2);
      } else {
        deck2.Push(card2, card1);
      }
      f := f - 1;
    }
    return Some(deck1.cards != []);
  }

  /** `recursiveCombat`: the starting deck of the game's winner, as changed by the game. */
  method RecursiveCombat(startDeck1: Deck, startDeck2: Deck, fuel: nat) returns (winner: Option<Deck>)
    requires startDeck1 != startDeck2
    modifies startDeck1, startDeck2
    ensures var g := Game(old(startDeck1.cards), old(startDeck2.cards), {}, fuel);
      (g.None? <==> winner.None?) &&
      (g.Some? ==>
        startDeck1.cards == g.value.deck1 && startDeck2.cards == g.value.deck2 &&
        winner.Some? && winner.value == (if g.value.p1Wins then startDeck1 else startDeck2))
  {
    var p1Wins := PlayGame(startDeck1, startDeck2, fuel);
    if p1Wins.None? {
      return None;
    }
    return Some(if p1Wins.value then startDeck1 else startDeck2);
  }

  /**
   * A finished recursive game keeps every card, and player 1 wins exactly
   * when it still holds cards: either player 2 ran out or an arrangement
   * repeated.
   */
  lemma {:induction false} GameEnds(d1: seq<int>, d2: seq<int>, seen: set<(seq<int>, seq<int>)>, fuel: nat)
    requires Game(d1, d2, seen, fuel).Some?
    ensures var o := Game(d1, d2, seen, fuel).value;
      multiset(o.deck1) + multiset(o.deck2) == multiset(d1) + multiset(d2) &&
      (o.p1Wins <==> o.deck1 != []) &&
      (o.deck1 != [] && o.deck2 != [] ==> o.p1Wins)
    decreases fuel
  {
    if d1 != [] && d2 != [] && (d1, d2) !in seen {
      var next := Award(d1[1..], d2[1..], d1[0], d2[0], RoundWinner(d1, d2, fuel).value);
      GameEnds(next.0, next.1, seen + {(d1, d2)}, fuel - 1);
      AwardConserves(d1, d2, RoundWinner(d1, d2, fuel).value);
    }
  }

  /** The arrangements of the cycle before the k-th, as `seenDecks` holds them after k rounds. */
  function SeenUpTo(k: nat): set<(seq<int>, seq<int>)>
    requires k <= 6
  {
    if k == 0 then {} else SeenUpTo(k - 1) + {LoopState(k - 1)}
  }

  /** The cycle's arrangements are all different, so none is seen before its own round. */
  lemma {:induction false} NotSeenYet(k: nat, j: nat)
    requires j <= k < 6
    ensures LoopState(k) !in SeenUpTo(j)
  {
    if j > 0 {
      NotSeenYet(k, j - 1);
      assert LoopState(k).0[0] != LoopState(j - 1).0[0] || LoopState(k).1[0] != LoopState(j - 1).1[0];
    }
  }

  /** In every arrangement of the cycle some drawn card exceeds the cards left behind it. */
  lemma LoopRoundsHaveNoSubGame(k: nat, fuel: nat)
    requires k < 6 && fuel > 0
    ensures LoopState(k).0 != [] && LoopState(k).1 != []
    ensures RoundWinner(LoopState(k).0, LoopState(k).1, fuel) == Some(LoopState(k).0[0] > LoopState(k).1[0])
  {
  }

  /** No round of the cycle needs a sub-game, so the recursive game takes the same steps as plain Combat. */
  lemma RecursiveLoopStep(k: nat, fuel: nat)
    requires k < 6
    ensures Game(LoopState(k).0, LoopState(k).1, SeenUpTo(k), fuel + 1) ==
      Game(LoopState(k + 1).0, LoopState(k + 1).1, SeenUpTo(k + 1), fuel)
  {
    NotSeenYet(k, k);
    var st, nx := LoopState(k), LoopState(k + 1);
    LoopRoundsHaveNoSubGame(k, fuel + 1);
    if k == 0 {
      assert [19] + [43, 2] == [19, 43, 2] && st.1[1..] == [29, 14];
    } else if k == 1 {
      assert [14] + [29, 19] == [14, 29, 19] && st.0[1..] == [43, 2];
    } else if k == 2 {
      assert [2] + [43, 14] == [2, 43, 14] && st.1[1..] == [29, 19];
    } else if k == 3 {
      assert [19] + [29, 2] == [19, 29, 2] && st.0[1..] == [43, 14];
    } else if k == 4 {
      assert [14] + [43, 19] == [14, 43, 19] && st.1[1..] == [29, 2];
    } else {
      assert [2] + [29, 14] == [2, 29, 14] && st.0[1..] == [43, 19];
    }
  }

  /**
   * The looping decks of plain Combat end in the recursive game: given six
   * rounds, the seventh finds the starting arrangement again and player 1
   * wins.
   */
  lemma RecursiveGameStopsRepeat(fuel: nat)
    requires fuel >= 6
    ensures Game([43, 19], [2, 29, 14], {}, fuel) == Some(Outcome(true, [43, 19], [2, 29, 14]))
  {
    assert LoopState(0) == ([43, 19], [2, 29, 14]) && SeenUpTo(0) == {};
    CycleFrom(0, fuel);
  }

  /** After six rounds the starting arrangement is in the seen set, and player 1 wins. */
  lemma CycleClosed(fuel: nat)
    ensures Game(LoopState(6).0, LoopState(6).1, SeenUpTo(6), fuel) == Some(Outcome(true, [43, 19], [2, 29, 14]))
  {
    var start := LoopState(6);
    assert start == LoopState(0) == ([43, 19], [2, 29, 14]);
    assert start in SeenUpTo(1);
    assert SeenUpTo(1) <= SeenUpTo(6);
  }

  /** From the k-th arrangement of the cycle, with the earlier ones seen, the game ends once the cycle closes. */
  lemma {:induction false} CycleFrom(k: nat, fuel: nat)
    requires k <= 6 && fuel >= 6 - k
    ensures Game(LoopState(k).0, LoopState(k).1, SeenUpTo(k), fuel) == Some(Outcome(true, [43, 19], [2, 29, 14]))
    decreases 6 - k
  {
    if k == 6 {
      CycleClosed(fuel);
    } else {
      RecursiveLoopStep(k, fuel - 1);
      CycleFrom(k + 1, fuel - 1);
    }
  }

  /** The reduce of `findWinnerScore`: each card times its position counted from the bottom. */
  function Score(deck: seq<int>): int
  {
    if deck == [] then 0 else deck[0] * |deck| + Score(deck[1..])
  }

  /** A card put at the bottom raises the weight of every card above it by one: the score is the sum of the prefix sums. */
  lemma {:induction false} ScoreAppend(deck: seq<int>, card: int)
    ensures Score(deck + [card]) == Score(deck) + Sum(deck + [card])
  {
    if deck == [] {
      assert [] + [card] == [card];
      assert Sum([card]) == Sum([card][..0]) + card;
    } else {
      var top, rest := deck[0], deck[1..];
      ScoreAppend(rest, card);
      assert (deck + [card])[0] == top && (deck + [card])[1..] == rest + [card];
      assert Score(deck + [card]) == top * (|deck| + 1) + Score(rest + [card]);
      assert Score(deck) == top * |deck| + Score(rest);
      assert top * (|deck| + 1) == top * |deck| + top;
      assert [top] + (rest + [card]) == deck + [card];
      SumAppend([top], rest + [card]);
      assert Sum([top]) == Sum([top][..0]) + top;
    }
  }

  /** The puzzle's winning deck scores 3·10 + 2·9 + 10·8 + … + 1·1 = 306. */
  lemma ScoreExample()
    ensures Score([3, 2, 10, 6, 8, 5, 9, 4, 7, 1]) == 306
  {
  }

  /** The winner's score, None when the round bound runs out. */
  function WinnerScore(d1: seq<int>, d2: seq<int>, recursive: bool, fuel: nat): Option<int>
  {
    if recursive then
      match Game(d1, d2, {}, fuel)
      case None => None
      case Some(o) => Some(Score(if o.p1Wins then o.deck1 else o.deck2))
    else
      match CombatSpec(d1, d2, fuel)
      case None => None
      case Some(r) => Some(Score(if r.0 != [] then r.0 else r.1))
  }

  /**
   * `findWinnerScore`: plays on copies, so the caller's decks are not in its
   * frame and stay as they were.
   */
  method FindWinnerScore(deck1: Deck, deck2: Deck, recursive: bool, fuel: nat) returns (score: Option<int>)
    ensures score == WinnerScore(deck1.cards, deck2.cards, recursive, fuel)
  {
    var copy1 := new Deck(deck1.cards);
    var copy2 := new Deck(deck2.cards);
    var winnerDeck: Option<Deck>;
    if recursive {
      winnerDeck := RecursiveCombat(copy1, copy2, fuel);
    } else {
      winnerDeck := Combat(copy1, copy2, fuel);
    }
    if winnerDeck.None? {
      return None;
    }
    return Some(Score(winnerDeck.value.cards));
  }

  /** A plain game that ends gives the score of a deck holding every card. */
  lemma CombatScoreOfAllCards(d1: seq<int>, d2: seq<int>, fuel: nat)
    requires CombatSpec(d1, d2, fuel).Some?
    ensures var r := CombatSpec(d1, d2, fuel).value; var w := if r.0 != [] then r.0 else r.1;
      WinnerScore(d1, d2, false, fuel) == Some(Score(w)) && multiset(w) == multiset(d1) + multiset(d2)
  {
    CombatEnds(d1, d2, fuel);
  }
}
