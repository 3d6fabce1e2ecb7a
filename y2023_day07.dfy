/**
 * Camel Cards (2023, day 7): hands of five cards are ranked by type, then
 * card by card; in the second part J is a joker that joins the largest group.
 */
module CamelCards {
  import opened Common

  /** `HandType`, from high card (0) to five of a kind (6). */
  const HighCard: nat := 0
  const OnePair: nat := 1
  const TwoPairs: nat := 2
  const ThreeOfAKind: nat := 3
  const FullHouse: nat := 4
  const FourOfAKind: nat := 5
  const FiveOfAKind: nat := 6

  /** `CardType`: joker 0, two 1, …, ten 9, jack 10, queen 11, king 12, ace 13. */
  const Joker: nat := 0
  const Jack: nat := 10

  const Labels: string := "23456789TJQKA"

  predicate IsLabel(c: char) { c in Labels }

  /** `cardLookup(useJokers)[c]`: '2'..'9' are 1..8, T, Q, K, A are 9, 11, 12, 13; J is the joker or the jack. */
  function CardLookup(useJokers: bool, c: char): (v: nat)
    requires IsLabel(c)
    ensures v <= 13
    ensures c == 'J' ==> v == (if useJokers then Joker else Jack)
    ensures v == Joker <==> c == 'J' && useJokers
  {
    match c
    case '2' => 1 case '3' => 2 case '4' => 3 case '5' => 4 case '6' => 5
    case '7' => 6 case '8' => 7 case '9' => 8 case 'T' => 9
    case 'J' => if useJokers then Joker else Jack
    case 'Q' => 11 case 'K' => 12 case 'A' => 13
  }

  /** Distinct labels have distinct values, except that nothing else is a joker. */
  lemma LookupInjective(useJokers: bool, c: char, d: char)
    requires IsLabel(c) && IsLabel(d) && c != d
    ensures CardLookup(useJokers, c) != CardLookup(useJokers, d)
  {
  }

  /** The larger and the smaller of the two largest entries, as sorting the counts in descending order puts them first. */
  function TopTwo(s: seq<nat>): (r: (nat, nat))
    ensures |s| >= 2 ==> exists i, j | 0 <= i < |s| && 0 <= j < |s| && i != j ::
      s[i] == r.0 && s[j] == r.1 && forall k | 0 <= k < |s| && k != i :: s[k] <= r.1 <= r.0
    ensures |s| == 1 ==> r == (s[0], 0)
    ensures |s| == 0 ==> r == (0, 0)
  {
    if |s| == 0 then (0, 0)
    else if |s| == 1 then (s[0], 0)
    else if |s| == 2 then (if s[0] >= s[1] then (s[0], s[1]) else (s[1], s[0]))
    else
      var p := s[..|s| - 1];
      var (a, b) := TopTwo(p);
      var x := s[|s| - 1];
      assert forall k | 0 <= k < |p| :: p[k] == s[k];
      if x > a then (x, a) else if x > b then (a, x) else (a, b)
  }

  /** How many of the cards have value v. */
  function Count(cards: seq<nat>, v: nat): (n: nat)
    ensures n <= |cards|
  {
    if cards == [] then 0 else Count(cards[..|cards| - 1], v) + (if cards[|cards| - 1] == v then 1 else 0)
  }

  /** How many cards of each value 0 .. 13 the hand holds: the `_cardCounts` map, absent values counting 0. */
  function CardCounts(cards: seq<nat>): (counts: seq<nat>)
    ensures |counts| == 14
    ensures forall v | 0 <= v < 14 :: counts[v] == Count(cards, v)
  {
    seq(14, v requires 0 <= v => Count(cards, v))
  }

  /** The type ladder on the top count (jokers included) and the second count. */
  function TypeOf(topCount: nat, secondCount: nat): (t: nat)
    ensures t <= FiveOfAKind
  {
    if topCount == 5 then FiveOfAKind
    else if topCount == 4 then FourOfAKind
    else if topCount == 3 && secondCount == 2 then FullHouse
    else if topCount == 3 then ThreeOfAKind
    else if topCount == 2 && secondCount == 2 then TwoPairs
    else if topCount == 2 then OnePair
    else HighCard
  }

  /**
   * `_getHandType`: the jokers are counted, removed from the counts when they
   * are in use, and added to the largest remaining count.
   */
  function HandType(cards: seq<nat>, useJokers: bool): (t: nat)
    ensures t <= FiveOfAKind
  {
    var counts := CardCounts(cards);
    var jokerCount := counts[Joker];
    var kept := if useJokers then counts[Joker := 0] else counts;
    var (top, second) := TopTwo(kept);
    TypeOf(top + jokerCount, second)
  }

  /** The cards of a hand string. */
  function Cards(hand: string, useJokers: bool): (cards: seq<nat>)
    requires forall i | 0 <= i < |hand| :: IsLabel(hand[i])
    ensures |cards| == |hand|
  {
    seq(|hand|, i requires 0 <= i < |hand| => CardLookup(useJokers, hand[i]))
  }

  /** A hand of one repeated value counts all its cards for that value and none for the others. */
  lemma {:induction false} CountAllSame(cards: seq<nat>, v: nat, w: nat)
    requires forall i | 0 <= i < |cards| :: cards[i] == v
    ensures Count(cards, w) == if w == v then |cards| else 0
  {
    if cards != [] {
      CountAllSame(cards[..|cards| - 1], v, w);
    }
  }

  lemma {:induction false} CountAbsent(cards: seq<nat>, w: nat)
    requires forall i | 0 <= i < |cards| :: cards[i] != w
    ensures Count(cards, w) == 0
  {
    if cards != [] {
      CountAbsent(cards[..|cards| - 1], w);
    }
  }

  /** Five jokers make five of a kind. */
  lemma FiveJokers()
    ensures HandType(Cards("JJJJJ", true), true) == FiveOfAKind
  {
    var cards := Cards("JJJJJ", true);
    assert cards == [Joker, Joker, Joker, Joker, Joker];
    forall w: nat
      ensures Count(cards, w) == if w == Joker then 5 else 0
    {
      CountAllSame(cards, Joker, w);
    }
    var counts := CardCounts(cards);
    var (top, second) := TopTwo(counts[Joker := 0]);
    assert top == 0;
  }

  /** Without jokers, a hand of one repeated label is five of a kind and five distinct labels are a high card. */
  lemma TypeExtremes(c: char, hand: string)
    requires IsLabel(c) && |hand| == 5 && forall i | 0 <= i < 5 :: IsLabel(hand[i])
    requires forall i, j | 0 <= i < j < 5 :: hand[i] != hand[j]
    ensures HandType(Cards([c, c, c, c, c], false), false) == FiveOfAKind
    ensures HandType(Cards(hand, false), false) == HighCard
  {
    var same := Cards([c, c, c, c, c], false);
    var v := CardLookup(false, c);
    assert same == [v, v, v, v, v];
    forall w: nat
      ensures Count(same, w) == if w == v then 5 else 0
    {
      CountAllSame(same, v, w);
    }
    var counts := CardCounts(same);
    assert counts[v] == 5;
    var cards := Cards(hand, false);
    forall i, j | 0 <= i < j < 5
      ensures cards[i] != cards[j]
    {
      LookupInjective(false, hand[i], hand[j]);
    }
    var counts2 := CardCounts(cards);
    forall v | 0 <= v < 14
      ensures counts2[v] <= 1
    {
      AtMostOnce(cards, v);
    }
    CountAbsent(cards, Joker);
    var (top, second) := TopTwo(counts2);
    assert top <= 1;
  }

  /** With pairwise distinct cards no value is counted twice. */
  lemma {:induction false} AtMostOnce(cards: seq<nat>, v: nat)
    requires forall i, j | 0 <= i < j < |cards| :: cards[i] != cards[j]
    ensures Count(cards, v) <= 1
    ensures Count(cards, v) == 1 ==> exists k | 0 <= k < |cards| :: cards[k] == v
  {
    if cards != [] {
      var p := cards[..|cards| - 1];
      AtMostOnce(p, v);
      if Count(p, v) == 1 {
        var k :| 0 <= k < |p| && p[k] == v;
        assert cards[k] != cards[|cards| - 1];
      }
    }
  }

  /** A hand: its cards, bet and type. */
  datatype Hand = Hand(cards: seq<nat>, bet: int, handType: nat)

  function NewHand(hand: string, bet: int, useJokers: bool): (h: Hand)
    requires forall i | 0 <= i < |hand| :: IsLabel(hand[i])
    ensures |h.cards| == |hand| && h.bet == bet && h.handType <= FiveOfAKind
    ensures forall i | 0 <= i < |hand| :: h.cards[i] <= 13 && (h.cards[i] == 0 <==> useJokers && hand[i] == 'J')
  {
    var cards := Cards(hand, useJokers);
    Hand(cards, bet, HandType(cards, useJokers))
  }

  /** `b.cards[i]`: undefined past the end, where both `>` and `<` are false. */
  function CardAt(cards: seq<nat>, i: nat): Option<nat>
  {
    if i < |cards| then Some(cards[i]) else None
  }

  /** The comparison from card i on: the first card that differs decides. */
  function CompareFrom(a: seq<nat>, b: seq<nat>, i: nat): (r: int)
    requires i <= |a|
    ensures r == 0 || r == 1 || r == -1
    decreases |a| - i
  {
    if i == |a| then 0
    else
      var bi := CardAt(b, i);
      if bi.Some? && a[i] > bi.value then 1
      else if bi.Some? && a[i] < bi.value then -1
      else CompareFrom(a, b, i + 1)
  }

  /** `compareCards`: the hand type decides, then the first differing card. */
  method CompareCards(a: Hand, b: Hand) returns (r: int)
    ensures r == 0 || r == 1 || r == -1
    ensures a.handType != b.handType ==> (r == 1 <==> a.handType > b.handType)
    ensures a.handType == b.handType ==> r == CompareFrom(a.cards, b.cards, 0)
  {
    if a.handType > b.handType { return 1; }
    if a.handType < b.handType { return -1; }
    for i := 0 to |a.cards|
      invariant CompareFrom(a.cards, b.cards, i) == CompareFrom(a.cards, b.cards, 0)
    {
      if i < |b.cards| && a.cards[i] > b.cards[i] { return 1; }
      if i < |b.cards| && a.cards[i] < b.cards[i] { return -1; }
    }
    return 0;
  }

  /** The comparator as a function, for the lemmas about the order. */
  function Compare(a: Hand, b: Hand): int
  {
    if a.handType > b.handType then 1
    else if a.handType < b.handType then -1
    else CompareFrom(a.cards, b.cards, 0)
  }

  lemma {:induction false} CompareFromAntisymmetric(a: seq<nat>, b: seq<nat>, i: nat)
    requires i <= |a| && i <= |b|
    ensures CompareFrom(a, b, i) == -CompareFrom(b, a, i)
    decreases |a| - i
  {
    if i < |a| && i < |b| {
      CompareFromAntisymmetric(a, b, i + 1);
    } else if i < |a| {
      CompareFromPastB(a, b, i);
    } else if i < |b| {
      CompareFromPastB(b, a, i);
    }
  }

  /** Past the end of b nothing decides. */
  lemma {:induction false} CompareFromPastB(a: seq<nat>, b: seq<nat>, i: nat)
    requires |b| <= i <= |a|
    ensures CompareFrom(a, b, i) == 0
    decreases |a| - i
  {
    if i < |a| {
      CompareFromPastB(a, b, i + 1);
    }
  }

  /** The comparator is antisymmetric, so sorting with it is well defined up to ties. */
  lemma CompareAntisymmetric(a: Hand, b: Hand)
    ensures Compare(a, b) == -Compare(b, a)
  {
    CompareFromAntisymmetric(a.cards, b.cards, 0);
  }

  /** A hand ties only with itself among hands of five cards: 0 means the same type and the same cards. */
  lemma {:induction false} CompareFromZero(a: seq<nat>, b: seq<nat>, i: nat)
    requires |a| == |b| && i <= |a|
    ensures CompareFrom(a, b, i) == 0 <==> a[i..] == b[i..]
    decreases |a| - i
  {
    if i < |a| {
      CompareFromZero(a, b, i + 1);
      if a[i] == b[i] && a[i + 1..] == b[i + 1..] {
        assert a[i..] == [a[i]] + a[i + 1..];
        assert b[i..] == [b[i]] + b[i + 1..];
      }
      if a[i..] == b[i..] {
        assert a[i] == a[i..][0] && a[i + 1..] == a[i..][1..];
        assert b[i + 1..] == b[i..][1..];
      }
    }
  }

  /** `map((card, i) => card.bet * (i + 1))` summed over the sorted hands. */
  function Winnings(sorted: seq<Hand>): (w: int)
    ensures (forall i | 0 <= i < |sorted| :: sorted[i].bet >= 0) ==> w >= 0
  {
    if sorted == [] then 0 else Winnings(sorted[..|sorted| - 1]) + sorted[|sorted| - 1].bet * |sorted|
  }

  /** With non-negative bets, each hand earns between its bet and its bet times the number of hands. */
  lemma {:induction false} WinningsBounds(sorted: seq<Hand>)
    requires forall i | 0 <= i < |sorted| :: sorted[i].bet >= 0
    ensures BetSum(sorted) <= Winnings(sorted) <= |sorted| * BetSum(sorted)
  {
    if sorted != [] {
      var p := sorted[..|sorted| - 1];
      WinningsBounds(p);
      BetSumNonNegative(p);
      var b := sorted[|sorted| - 1].bet;
      assert b * |sorted| >= b;
      assert |sorted| * BetSum(sorted) == |p| * BetSum(p) + BetSum(p) + |sorted| * b;
    }
  }

  function BetSum(hands: seq<Hand>): int
  {
    if hands == [] then 0 else BetSum(hands[..|hands| - 1]) + hands[|hands| - 1].bet
  }

  lemma {:induction false} BetSumNonNegative(hands: seq<Hand>)
    requires forall i | 0 <= i < |hands| :: hands[i].bet >= 0
    ensures BetSum(hands) >= 0
  {
    if hands != [] {
      BetSumNonNegative(hands[..|hands| - 1]);
    }
  }
}
