/**
 * Distress Signal (2022, day 13): packets are nested lists of integers,
 * compared element by element, with an integer facing a list wrapped into a
 * one-element list.
 */
module DistressSignal {
  import opened Common

  /** `number | Packet`: an integer or a list of packets. */
  datatype Packet = Num(n: int) | List(items: seq<Packet>)

  /** The size of a packet, at least 1, decreasing towards its parts. */
  function Size(p: Packet): (k: nat)
    ensures k >= 1
  {
    match p
    case Num(_) => 1
    case List(items) => 1 + SizeAll(items)
  }

  function SizeAll(ps: seq<Packet>): nat
  {
    if ps == [] then 0 else Size(ps[0]) + SizeAll(ps[1..])
  }

  /** `toArrayIfNeeded`: an integer becomes a one-element list; a list is kept. */
  function ToArrayIfNeeded(e: Packet): (r: seq<Packet>)
    ensures if e.Num? then SizeAll(r) == Size(e) else SizeAll(r) < Size(e)
  {
    assert SizeAll([e]) == Size(e) by { assert [e][1..] == []; }
    match e
    case Num(_) => [e]
    case List(items) => items
  }

  /**
   * `compareElements`: two integers give null when equal and `a < b`
   * otherwise; anything else compares the two as lists. A list comparison
   * always answers true or false, never null, and an element never comes
   * before itself.
   */
  function CompareElements(a: Packet, b: Packet): (r: Option<bool>)
    ensures r.None? <==> a.Num? && b.Num? && a.n == b.n
    ensures a == b ==> r != Some(true)
    decreases Size(a) + Size(b), 0
  {
    if a.Num? && b.Num? then
      if a.n == b.n then None else Some(a.n < b.n)
    else
      Some(IsInRightOrder(ToArrayIfNeeded(a), ToArrayIfNeeded(b)))
  }

  /**
   * `isInRightOrder`: the first element pair whose comparison is not null
   * decides; when one list runs out first, the answer is whether the first
   * list is the shorter one. A list is never in the right order against
   * itself.
   */
  function IsInRightOrder(first: seq<Packet>, second: seq<Packet>): (r: bool)
    ensures first == second ==> !r
    decreases SizeAll(first) + SizeAll(second), 1
  {
    if first == [] || second == [] then |first| < |second|
    else
      match CompareElements(first[0], second[0])
      case None => IsInRightOrder(first[1..], second[1..])
      case Some(r) => r
  }

  /** If the first pair is in the right order, the swapped pair is not. */
  lemma {:induction false} InOrderAsymmetric(first: seq<Packet>, second: seq<Packet>)
    requires IsInRightOrder(first, second)
    ensures !IsInRightOrder(second, first)
    decreases SizeAll(first) + SizeAll(second), 1
  {
    if first != [] && second != [] {
      var a, b := first[0], second[0];
      match CompareElements(a, b)
      case None =>
        InOrderAsymmetric(first[1..], second[1..]);
      case Some(r) =>
        ElementsAsymmetric(a, b);
    }
  }

  lemma {:induction false} ElementsAsymmetric(a: Packet, b: Packet)
    requires CompareElements(a, b) == Some(true)
    ensures CompareElements(b, a) == Some(false)
    decreases Size(a) + Size(b), 0
  {
    if !(a.Num? && b.Num?) {
      InOrderAsymmetric(ToArrayIfNeeded(a), ToArrayIfNeeded(b));
    }
  }

  /**
   * The comparison the puzzle describes: a list comparison that runs out on
   * both sides at once is undecided (null) too, so the outer comparison goes
   * on to the next element.
   */
  function Compare(a: Packet, b: Packet): Option<bool>
    decreases Size(a) + Size(b), 0
  {
    if a.Num? && b.Num? then
      if a.n == b.n then None else Some(a.n < b.n)
    else
      CompareLists(ToArrayIfNeeded(a), ToArrayIfNeeded(b))
  }

  function CompareLists(first: seq<Packet>, second: seq<Packet>): Option<bool>
    decreases SizeAll(first) + SizeAll(second), 1
  {
    if first == [] || second == [] then
      if |first| == |second| then None else Some(|first| < |second|)
    else
      match Compare(first[0], second[0])
      case None => CompareLists(first[1..], second[1..])
      case Some(r) => Some(r)
  }

  /** The corrected comparison leaves a list undecided against itself. */
  lemma {:induction false} CompareListsReflexive(first: seq<Packet>)
    ensures CompareLists(first, first) == None
    decreases SizeAll(first)
  {
    if first != [] {
      var a := first[0];
      if a.List? {
        assert SizeAll(a.items) < Size(a) <= SizeAll(first);
        CompareListsReflexive(a.items);
      }
      CompareListsReflexive(first[1..]);
    }
  }

  /** Swapping the lists negates a decided comparison and keeps an undecided one undecided. */
  lemma {:induction false} CompareListsAntisymmetric(first: seq<Packet>, second: seq<Packet>)
    ensures CompareLists(second, first) ==
      match CompareLists(first, second) case None => None case Some(r) => Some(!r)
    decreases SizeAll(first) + SizeAll(second), 1
  {
    if first != [] && second != [] {
      CompareAntisymmetric(first[0], second[0]);
      CompareListsAntisymmetric(first[1..], second[1..]);
    }
  }

  lemma {:induction false} CompareAntisymmetric(a: Packet, b: Packet)
    ensures Compare(b, a) == match Compare(a, b) case None => None case Some(r) => Some(!r)
    decreases Size(a) + Size(b), 0
  {
    if !(a.Num? && b.Num?) {
      CompareListsAntisymmetric(ToArrayIfNeeded(a), ToArrayIfNeeded(b));
    }
  }

  /**
   * As written, `[[1],2]` and `[[1],3]` are judged out of order: the equal
   * inner lists `[1]` and `[1]` give false instead of null, which stops the
   * scan before 2 and 3 are compared. The corrected comparison decides on 2 < 3.
   */
  lemma EqualSublistCounterexample()
    ensures !IsInRightOrder([List([Num(1)]), Num(2)], [List([Num(1)]), Num(3)])
    ensures CompareLists([List([Num(1)]), Num(2)], [List([Num(1)]), Num(3)]) == Some(true)
  {
    var one := [Num(1)];
    assert IsInRightOrder(one, one) == false;
    assert CompareLists(one, one) == None by { CompareListsReflexive(one); }
    var tail2, tail3 := [Num(2)], [Num(3)];
    assert [List(one), Num(2)][1..] == tail2;
    assert [List(one), Num(3)][1..] == tail3;
    assert CompareLists(tail2, tail3) == Some(true) by {
      assert tail2[1..] == [] && tail3[1..] == [];
    }
  }

  predicate Flat(ps: seq<Packet>) { forall i | 0 <= i < |ps| :: ps[i].Num? }

  /** On lists of integers only, the written comparison answers true exactly when the corrected one does. */
  lemma {:induction false} FlatListsAgree(first: seq<Packet>, second: seq<Packet>)
    requires Flat(first) && Flat(second)
    ensures IsInRightOrder(first, second) <==> CompareLists(first, second) == Some(true)
    decreases |first|
  {
    if first != [] && second != [] {
      assert Flat(first[1..]) && Flat(second[1..]);
      FlatListsAgree(first[1..], second[1..]);
    }
  }
}
