/**
 * Monkey in the Middle (2022, day 11): monkeys take turns inspecting the items
 * they hold, raising the worry level of each and throwing it to one of two
 * other monkeys according to a divisibility test.
 */
module MonkeyMiddle {
  import opened Common

  /** The inspection operations the puzzle's monkeys use: `worry + k`, `worry * k`, `worry * worry`. */
  datatype Operation = AddConst(k: nat) | MulConst(k: nat) | Square

  function Apply(op: Operation, worry: nat): nat
  {
    match op
    case AddConst(k) => worry + k
    case MulConst(k) => worry * k
    case Square => worry * worry
  }

  /** `TestDefinition`: throw to trueIndex when the worry is divisible by mod, else to falseIndex. */
  datatype TestDefinition = TestDefinition(mod: nat, trueIndex: nat, falseIndex: nat)

  datatype MonkeyDefinition = MonkeyDefinition(startingItems: seq<nat>, operation: Operation, testDef: TestDefinition)

  /**
   * The function `parseTest` builds: `worry % def.mod === 0`. A modulus of 0
   * gives NaN, which is never `=== 0`, so the item goes to falseIndex.
   */
  function Target(def: TestDefinition, worry: nat): nat
  {
    if def.mod != 0 && worry % def.mod == 0 then def.trueIndex else def.falseIndex
  }

  /** The new worry level: divided by 3 (rounded down) without a modulus, reduced by it with one. */
  function NewWorry(op: Operation, modulus: nat, worry: nat): nat
  {
    if modulus == 0 then Apply(op, worry) / 3 else Apply(op, worry) % modulus
  }

  /** The monkeys' definitions are usable: every throw goes to another monkey of the pack. */
  predicate WellFormed(defs: seq<MonkeyDefinition>)
  {
    forall m | 0 <= m < |defs| ::
      defs[m].testDef.trueIndex < |defs| && defs[m].testDef.falseIndex < |defs| &&
      defs[m].testDef.trueIndex != m && defs[m].testDef.falseIndex != m
  }

  /** Monkey m inspects the given items in order, each thrown to the back of its target's queue. */
  function ThrowAll(defs: seq<MonkeyDefinition>, modulus: nat, m: nat, queues: seq<seq<nat>>, items: seq<nat>): seq<seq<nat>>
    requires m < |defs| == |queues| && WellFormed(defs)
    decreases |items|
  {
    if items == [] then queues
    else
      var w := NewWorry(defs[m].operation, modulus, items[0]);
      var t := Target(defs[m].testDef, w);
      ThrowAll(defs, modulus, m, queues[t := queues[t] + [w]], items[1..])
  }

  /** The queues after monkey m's turn: its own queue emptied, its items thrown in order. */
  function Turn(defs: seq<MonkeyDefinition>, modulus: nat, m: nat, queues: seq<seq<nat>>): seq<seq<nat>>
    requires m < |defs| == |queues| && WellFormed(defs)
  {
    ThrowAll(defs, modulus, m, queues[m := []], queues[m])
  }

  /** The number of items held by all monkeys together. */
  function TotalItems(queues: seq<seq<nat>>): nat
  {
    if queues == [] then 0 else TotalItems(queues[..|queues| - 1]) + |queues[|queues| - 1]|
  }

  lemma {:induction false} TotalItemsUpdate(queues: seq<seq<nat>>, i: nat, s: seq<nat>)
    requires i < |queues|
    ensures TotalItems(queues[i := s]) + |queues[i]| == TotalItems(queues) + |s|
  {
    var n := |queues|;
    if i < n - 1 {
      assert queues[i := s][..n - 1] == queues[..n - 1][i := s];
      TotalItemsUpdate(queues[..n - 1], i, s);
    } else {
      assert queues[i := s][..n - 1] == queues[..n - 1];
    }
  }

  /** Throwing items keeps the queue lengths of every monkey but the targets, and the thrower's own queue. */
  lemma {:induction false} ThrowAllShape(defs: seq<MonkeyDefinition>, modulus: nat, m: nat, queues: seq<seq<nat>>, items: seq<nat>)
    requires m < |defs| == |queues| && WellFormed(defs)
    ensures |ThrowAll(defs, modulus, m, queues, items)| == |queues|
    ensures ThrowAll(defs, modulus, m, queues, items)[m] == queues[m]
    ensures TotalItems(ThrowAll(defs, modulus, m, queues, items)) == TotalItems(queues) + |items|
    decreases |items|
  {
    if items != [] {
      var w := NewWorry(defs[m].operation, modulus, items[0]);
      var t := Target(defs[m].testDef, w);
      TotalItemsUpdate(queues, t, queues[t] + [w]);
      ThrowAllShape(defs, modulus, m, queues[t := queues[t] + [w]], items[1..]);
    }
  }

  /** `processItems` leaves the monkey's own queue empty and moves every item it held to other queues. */
  lemma TurnConserves(defs: seq<MonkeyDefinition>, modulus: nat, m: nat, queues: seq<seq<nat>>)
    requires m < |defs| == |queues| && WellFormed(defs)
    ensures |Turn(defs, modulus, m, queues)| == |queues|
    ensures Turn(defs, modulus, m, queues)[m] == []
    ensures TotalItems(Turn(defs, modulus, m, queues)) == TotalItems(queues)
  {
    TotalItemsUpdate(queues, m, []);
    ThrowAllShape(defs, modulus, m, queues[m := []], queues[m]);
  }

  /** Monkeys 0 .. k - 1 take their turns, in order. */
  function Turns(defs: seq<MonkeyDefinition>, modulus: nat, queues: seq<seq<nat>>, k: nat): (r: seq<seq<nat>>)
    requires |defs| == |queues| && WellFormed(defs) && k <= |defs|
    ensures |r| == |queues|
  {
    if k == 0 then queues
    else
      var before := Turns(defs, modulus, queues, k - 1);
      TurnConserves(defs, modulus, k - 1, before);
      Turn(defs, modulus, k - 1, before)
  }

  /** The items each monkey inspects during a round: its queue when its turn comes. */
  function Inspections(defs: seq<MonkeyDefinition>, modulus: nat, queues: seq<seq<nat>>, k: nat): (counts: seq<nat>)
    requires |defs| == |queues| && WellFormed(defs) && k <= |defs|
    ensures |counts| == k
  {
    if k == 0 then []
    else Inspections(defs, modulus, queues, k - 1) + [|Turns(defs, modulus, queues, k - 1)[k - 1]|]
  }

  lemma {:induction false} TurnsConserve(defs: seq<MonkeyDefinition>, modulus: nat, queues: seq<seq<nat>>, k: nat)
    requires |defs| == |queues| && WellFormed(defs) && k <= |defs|
    ensures TotalItems(Turns(defs, modulus, queues, k)) == TotalItems(queues)
  {
    if k > 0 {
      TurnsConserve(defs, modulus, queues, k - 1);
      TurnConserves(defs, modulus, k - 1, Turns(defs, modulus, queues, k - 1));
    }
  }

  /** The queues after a number of full rounds. */
  function Rounds(defs: seq<MonkeyDefinition>, modulus: nat, queues: seq<seq<nat>>, count: nat): (r: seq<seq<nat>>)
    requires |defs| == |queues| && WellFormed(defs)
    ensures |r| == |queues|
  {
    if count == 0 then queues else Turns(defs, modulus, Rounds(defs, modulus, queues, count - 1), |defs|)
  }

  /** The total item count across monkeys is the same after any number of rounds. */
  lemma {:induction false} RoundsConserve(defs: seq<MonkeyDefinition>, modulus: nat, queues: seq<seq<nat>>, count: nat)
    requires |defs| == |queues| && WellFormed(defs)
    ensures TotalItems(Rounds(defs, modulus, queues, count)) == TotalItems(queues)
  {
    if count > 0 {
      RoundsConserve(defs, modulus, queues, count - 1);
      TurnsConserve(defs, modulus, Rounds(defs, modulus, queues, count - 1), |defs|);
    }
  }

  /** Element-wise sum of two count vectors of the same length. */
  function AddCounts(a: seq<nat>, b: seq<nat>): (r: seq<nat>)
    requires |a| == |b|
    ensures |r| == |a| && forall i | 0 <= i < |a| :: r[i] == a[i] + b[i]
  {
    seq(|a|, i requires 0 <= i < |a| => a[i] + b[i])
  }

  /** Inspection counts accumulated over a number of rounds. */
  function RoundCounts(defs: seq<MonkeyDefinition>, modulus: nat, queues: seq<seq<nat>>, count: nat): (r: seq<nat>)
    requires |defs| == |queues| && WellFormed(defs)
    ensures |r| == |defs|
  {
    if count == 0 then seq(|defs|, _ => 0)
    else AddCounts(RoundCounts(defs, modulus, queues, count - 1), Inspections(defs, modulus, Rounds(defs, modulus, queues, count - 1), |defs|))
  }

  /** The product of the test moduli, which the pack uses instead of dividing by 3. */
  function ProductOfMods(defs: seq<MonkeyDefinition>): nat
  {
    if defs == [] then 1 else ProductOfMods(defs[..|defs| - 1]) * defs[|defs| - 1].testDef.mod
  }

  /** Every test modulus divides the product of all of them. */
  lemma {:induction false} ModDividesProduct(defs: seq<MonkeyDefinition>, i: nat)
    requires i < |defs|
    ensures exists k: nat :: ProductOfMods(defs) == k * defs[i].testDef.mod
  {
    var n := |defs|;
    if i == n - 1 {
      assert ProductOfMods(defs) == ProductOfMods(defs[..n - 1]) * defs[i].testDef.mod;
    } else {
      assert defs[..n - 1][i] == defs[i];
      ModDividesProduct(defs[..n - 1], i);
      var k: nat :| ProductOfMods(defs[..n - 1]) == k * defs[i].testDef.mod;
      assert ProductOfMods(defs) == (k * defs[n - 1].testDef.mod) * defs[i].testDef.mod;
    }
  }

  /** The identity the comment relies on: a mod n = (a mod k·n) mod n. */
  lemma ModOfMultiple(a: nat, n: nat, k: nat)
    requires n > 0 && k > 0
    ensures (a % (k * n)) % n == a % n
  {
    var q := a / (k * n);
    var r := a % (k * n);
    assert a == (q * k) * n + r;
    DivUnique(a, n, q * k + r / n, r % n);
  }

  /**
   * With the product of the moduli as modulus, the reduced worry is sent to the
   * same monkey as the unreduced `operation(old)` would be.
   */
  lemma ReducedWorrySameTarget(defs: seq<MonkeyDefinition>, m: nat, i: nat, worry: nat)
    requires m < |defs| && i < |defs|
    requires forall j | 0 <= j < |defs| :: defs[j].testDef.mod > 0
    ensures ProductOfMods(defs) > 0
    ensures Target(defs[i].testDef, NewWorry(defs[m].operation, ProductOfMods(defs), worry))
         == Target(defs[i].testDef, Apply(defs[m].operation, worry))
  {
    ModDividesProduct(defs, i);
    var k: nat :| ProductOfMods(defs) == k * defs[i].testDef.mod;
    ProductOfModsPositive(defs);
    ModOfMultiple(Apply(defs[m].operation, worry), defs[i].testDef.mod, k);
  }

  lemma {:induction false} ProductOfModsPositive(defs: seq<MonkeyDefinition>)
    requires forall j | 0 <= j < |defs| :: defs[j].testDef.mod > 0
    ensures ProductOfMods(defs) > 0
  {
    if defs != [] {
      ProductOfModsPositive(defs[..|defs| - 1]);
      assert defs[|defs| - 1].testDef.mod > 0;
    }
  }

  /**
   * The positions of the largest and second-largest counts, as a descending
   * sort puts them first: two different positions, and no other count
   * exceeds either of them.
   */
  function TopTwo(s: seq<nat>): (r: (nat, nat))
    requires |s| >= 2
    ensures r.0 < |s| && r.1 < |s| && r.0 != r.1
    ensures forall k | 0 <= k < |s| && k != r.0 :: s[k] <= s[r.1] <= s[r.0]
  {
    if |s| == 2 then (if s[0] >= s[1] then (0, 1) else (1, 0))
    else
      var (a, b) := TopTwo(s[..|s| - 1]);
      var n := |s| - 1;
      assert forall k | 0 <= k < n :: s[..n][k] == s[k];
      if s[n] > s[a] then (n, a) else if s[n] > s[b] then (a, n) else (a, b)
  }

  /** `monkeyBusiness`: the product of at most the two largest counts (1 for no monkey). */
  function MonkeyBusiness(counts: seq<nat>): (r: nat)
    ensures |counts| >= 2 ==> exists i, j | 0 <= i < |counts| && 0 <= j < |counts| && i != j ::
      r == counts[i] * counts[j] &&
      forall k | 0 <= k < |counts| && k != i :: counts[k] <= counts[j] <= counts[i]
    ensures |counts| == 1 ==> r == counts[0]
    ensures |counts| == 0 ==> r == 1
  {
    if |counts| == 0 then 1
    else if |counts| == 1 then counts[0]
    else
      var (i, j) := TopTwo(counts);
      counts[i] * counts[j]
  }

  /** A pack of monkeys: each one's queue of item worry levels and number of inspections. */
  class Pack {
    const monkeys: seq<MonkeyDefinition>
    const modulus: nat
    var items: seq<seq<nat>>
    var inspectedItems: seq<nat>

    ghost predicate Valid()
      reads this
    {
      WellFormed(monkeys) && |items| == |monkeys| && |inspectedItems| == |monkeys|
    }

    /**
     * Each monkey starts with its own copy of its starting items and no
     * inspections; without division by 3 the modulus is the product of the
     * tests' moduli, otherwise 0.
     */
    constructor (defs: seq<MonkeyDefinition>, divideBy3: bool)
      requires WellFormed(defs)
      ensures Valid() && monkeys == defs
      ensures modulus == if divideBy3 then 0 else ProductOfMods(defs)
      ensures items == seq(|defs|, i requires 0 <= i < |defs| => defs[i].startingItems)
      ensures inspectedItems == seq(|defs|, _ => 0)
    {
      monkeys := defs;
      modulus := if divideBy3 then 0 else ProductOfMods(defs);
      var qs: seq<seq<nat>> := [];
      var counts: seq<nat> := [];
      for i := 0 to |defs|
        invariant qs == seq(i, k requires 0 <= k < i => defs[k].startingItems)
        invariant counts == seq(i, _ => 0)
      {
        qs := qs + [defs[i].startingItems];
        counts := counts + [0];
      }
      items := qs;
      inspectedItems := counts;
    }

    /** `processItems`: monkey m inspects and throws every item it holds, oldest first. */
    method ProcessItems(m: nat)
      requires Valid() && m < |monkeys|
      modifies this
      ensures Valid()
      ensures items == Turn(monkeys, modulus, m, old(items))
      ensures inspectedItems == old(inspectedItems)[m := old(inspectedItems[m]) + |old(items[m])|]
    {
      ghost var held := items[m];
      ghost var k := 0;
      while |items[m]| > 0
        invariant Valid()
        invariant 0 <= k <= |held| && items[m] == held[k..]
        invariant Turn(monkeys, modulus, m, items) == Turn(monkeys, modulus, m, old(items))
        invariant inspectedItems == old(inspectedItems)[m := old(inspectedItems[m]) + k]
        decreases |items[m]|
      {
        var oldWorry := items[m][0];
        var before := items;
        items := items[m := items[m][1..]];
        var newWorry := NewWorry(monkeys[m].operation, modulus, oldWorry);
        var target := Target(monkeys[m].testDef, newWorry);
        items := items[target := items[target] + [newWorry]];
        inspectedItems := inspectedItems[m := inspectedItems[m] + 1];
        k := k + 1;
        assert items[m := []] == before[m := []][target := before[target] + [newWorry]];
        assert before[m][1..] == items[m];
      }
      assert items[m := []] == items;
    }

    /** `playRounds`: every monkey in order takes its turn, `count` times over. */
    method PlayRounds(count: nat)
      requires Valid()
      modifies this
      ensures Valid()
      ensures items == Rounds(monkeys, modulus, old(items), count)
      ensures inspectedItems == AddCounts(old(inspectedItems), RoundCounts(monkeys, modulus, old(items), count))
    {
      for n := 0 to count
        invariant Valid()
        invariant items == Rounds(monkeys, modulus, old(items), n)
        invariant forall k | 0 <= k < |monkeys| ::
          inspectedItems[k] == old(inspectedItems)[k] + RoundCounts(monkeys, modulus, old(items), n)[k]
      {
        PlayRound();
      }
    }

    /** One round of `playRounds`: every monkey in order processes its items. */
    method PlayRound()
      requires Valid()
      modifies this
      ensures Valid()
      ensures items == Turns(monkeys, modulus, old(items), |monkeys|)
      ensures forall k | 0 <= k < |monkeys| ::
        inspectedItems[k] == old(inspectedItems)[k] + Inspections(monkeys, modulus, old(items), |monkeys|)[k]
    {
      ghost var start := items;
      ghost var counts := inspectedItems;
      for m := 0 to |monkeys|
        invariant Valid()
        invariant items == Turns(monkeys, modulus, start, m)
        invariant forall k | 0 <= k < m :: inspectedItems[k] == counts[k] + Inspections(monkeys, modulus, start, m)[k]
        invariant forall k | m <= k < |monkeys| :: inspectedItems[k] == counts[k]
      {
        ProcessItems(m);
        assert forall k | 0 <= k < m :: Inspections(monkeys, modulus, start, m + 1)[k] == Inspections(monkeys, modulus, start, m)[k];
      }
    }

    /** `monkeyBusiness`: the product of the two busiest monkeys' inspection counts. */
    function GetMonkeyBusiness(): nat
      reads this
    {
      MonkeyBusiness(inspectedItems)
    }
  }
}
