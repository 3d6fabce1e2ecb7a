/**
 * Shuttle Search: buses with id n leave at every multiple of n. Part one
 * finds the first bus after a timestamp; part two finds the earliest time
 * t at which the bus at position i of the schedule leaves at t + i, by
 * sieving one bus at a time (the Chinese remainder theorem).
 */
module ShuttleSearch {
  import opened Common

  /** A schedule entry after `split(',')`: a bus id, or the 'x' that `Number` turns into NaN. */
  datatype Entry = Bus(id: nat) | Out

  /** `bus − (ts % bus)`: at least 1, so a bus leaving exactly at ts is a full cycle away. */
  function Wait(ts: nat, bus: nat): nat
    requires bus > 0
  {
    bus - ts % bus
  }

  /** Bus `bus` leaves w minutes after ts. */
  predicate Leaves(ts: nat, bus: nat, w: nat)
    requires bus > 0
  {
    (ts + w) % bus == 0
  }

  /** The wait is the first positive delay after which the bus leaves. */
  lemma WaitMeaning(ts: nat, bus: nat)
    requires bus > 0
    ensures 1 <= Wait(ts, bus) <= bus
    ensures Leaves(ts, bus, Wait(ts, bus))
    ensures forall w: nat | 0 < w < Wait(ts, bus) :: !Leaves(ts, bus, w)
  {
    var q, r := ts / bus, ts % bus;
    assert ts == q * bus + r;
    assert ts + Wait(ts, bus) == q * bus + bus;
    ModExact(ts + Wait(ts, bus), bus, q + 1, 0);
    forall w: nat | 0 < w < Wait(ts, bus) ensures !Leaves(ts, bus, w) {
      ModExact(ts + w, bus, q, r + w);
    }
  }

  /** The remainder of q · size + rem for a remainder in range. */
  lemma ModExact(a: int, size: int, q: int, rem: int)
    requires size > 0 && 0 <= rem < size && a == q * size + rem
    ensures a % size == rem
  {
    DivUnique(a, size, q, rem);
  }

  /** The reduce's accumulator: `{ wait: Infinity }` until a bus is taken. */
  datatype NextBus = NoBus | NextBus(wait: nat, bus: nat)

  /**
   * `findNextBus`: a bus replaces the current choice only with a strictly
   * smaller wait. 'x' and a bus 0 give a NaN wait, which never compares
   * smaller.
   */
  function FindNextBus(ts: nat, schedule: seq<Entry>): NextBus
  {
    if schedule == [] then NoBus
    else
      var acc := FindNextBus(ts, schedule[..|schedule| - 1]);
      match schedule[|schedule| - 1]
      case Out => acc
      case Bus(id) =>
        if id == 0 then acc
        else if acc.NoBus? || Wait(ts, id) < acc.wait then NextBus(Wait(ts, id), id)
        else acc
  }

  predicate Runs(e: Entry)
  {
    e.Bus? && e.id > 0
  }

  /** No bus is found exactly when no entry is a running bus. */
  lemma {:induction false} NoBusMeaning(ts: nat, schedule: seq<Entry>)
    ensures FindNextBus(ts, schedule).NoBus? <==> forall j | 0 <= j < |schedule| :: !Runs(schedule[j])
  {
    if schedule != [] {
      var init := schedule[..|schedule| - 1];
      NoBusMeaning(ts, init);
      assert forall j | 0 <= j < |init| :: schedule[j] == init[j];
    }
  }

  /** Entry k is bus r.bus, and r.wait is its wait. */
  predicate ChosenAt(ts: nat, schedule: seq<Entry>, k: int, r: NextBus)
  {
    r.NextBus? && 0 <= k < |schedule| && schedule[k] == Bus(r.bus) && r.bus > 0 && r.wait == Wait(ts, r.bus)
  }

  /** Every running bus before k waits strictly longer, every one from k on at least as long. */
  predicate FirstSmallest(ts: nat, schedule: seq<Entry>, k: int, w: nat)
  {
    (forall j | 0 <= j < k && j < |schedule| && Runs(schedule[j]) :: Wait(ts, schedule[j].id) > w) &&
    (forall j | 0 <= k <= j < |schedule| && Runs(schedule[j]) :: Wait(ts, schedule[j].id) >= w)
  }

  /** The bus chosen is the first entry with the smallest wait. */
  lemma {:induction false} FindNextBusMeaning(ts: nat, schedule: seq<Entry>) returns (k: int)
    requires FindNextBus(ts, schedule).NextBus?
    ensures ChosenAt(ts, schedule, k, FindNextBus(ts, schedule))
    ensures FirstSmallest(ts, schedule, k, FindNextBus(ts, schedule).wait)
  {
    var init := schedule[..|schedule| - 1];
    var last := schedule[|schedule| - 1];
    var acc := FindNextBus(ts, init);
    var r := FindNextBus(ts, schedule);
    assert forall j | 0 <= j < |init| :: schedule[j] == init[j];
    if r == acc {
      k := FindNextBusMeaning(ts, init);
      assert schedule[k] == init[k];
    } else {
      k := |schedule| - 1;
      if acc.NextBus? {
        var k' := FindNextBusMeaning(ts, init);
        assert schedule[k'] == init[k'];
      } else {
        NoBusMeaning(ts, init);
      }
    }
  }

  /** The example schedule at 939: bus 59 in 5 minutes. */
  lemma ExampleNextBus()
    ensures FindNextBus(939, [Bus(7), Bus(13), Out, Out, Bus(59), Out, Bus(31), Bus(19)]) == NextBus(5, 59)
  {
    var s := [Bus(7), Bus(13), Out, Out, Bus(59), Out, Bus(31), Bus(19)];
    assert s[..1] == [Bus(7)] && s[..2] == s[..1] + [Bus(13)];
    assert FindNextBus(939, s[..1]) == NextBus(6, 7) by { assert s[..1][..0] == []; }
    assert FindNextBus(939, s[..2]) == NextBus(6, 7) by { assert s[..2][..1] == s[..1]; }
    assert FindNextBus(939, s[..4]) == NextBus(6, 7) by {
      assert s[..4][..3] == s[..3] && s[..3][..2] == s[..2];
    }
    assert FindNextBus(939, s[..5]) == NextBus(5, 59) by { assert s[..5][..4] == s[..4]; }
    assert FindNextBus(939, s[..7]) == NextBus(5, 59) by {
      assert s[..7][..6] == s[..6] && s[..6][..5] == s[..5];
    }
    assert s[..8][..7] == s[..7] && s[..8] == s;
  }

  /** A bus of part two: its id and its position in the schedule. */
  datatype Offset = Offset(n: nat, i: nat)

  /** The first reduce of `findSubsequentTime`: the buses with their positions, 'x' dropped. */
  function Offsets(schedule: seq<Entry>): (cs: seq<Offset>)
    ensures |cs| <= |schedule|
  {
    if schedule == [] then []
    else
      var init := Offsets(schedule[..|schedule| - 1]);
      match schedule[|schedule| - 1]
      case Out => init
      case Bus(id) => init + [Offset(id, |schedule| - 1)]
  }

  /**
   * t fits the buses: t is a multiple of the first bus (whose own position
   * is not used) and every later bus n at position i leaves at t + i.
   */
  predicate Fits(cs: seq<Offset>, t: int)
  {
    |cs| > 0 && cs[0].n > 0 && t % cs[0].n == 0 &&
    forall j | 1 <= j < |cs| :: cs[j].n > 0 && (t + cs[j].i) % cs[j].n == 0
  }

  function IdProduct(cs: seq<Offset>): nat
  {
    if cs == [] then 1 else IdProduct(cs[..|cs| - 1]) * cs[|cs| - 1].n
  }

  /** The `while` condition holds k steps of `increment` after t. */
  predicate Aligned(t: nat, inc: nat, n: nat, i: nat, k: nat)
    requires n > 0
  {
    (t + k * inc + i) % n == 0
  }

  /**
   * The `while` loop of one bus: t advances by `increment` until bus n
   * leaves at t + i. The loop never ends for bus 0 (the remainder is NaN)
   * or when no step aligns; `fuel` bounds its steps, and None is a loop
   * that has not ended within them.
   */
  method AlignBus(t: nat, inc: nat, n: nat, i: nat, fuel: nat) returns (r: Option<nat>)
    ensures r.Some? ==> n > 0 && exists k: nat | k <= fuel ::
      r.value == t + k * inc && Aligned(t, inc, n, i, k) && forall k': nat | k' < k :: !Aligned(t, inc, n, i, k')
    ensures r.None? ==> n == 0 || forall k: nat | k <= fuel :: !Aligned(t, inc, n, i, k)
  {
    if n == 0 {
      return None;
    }
    var cur := t;
    var k: nat := 0;
    while (cur + i) % n != 0
      invariant k <= fuel && cur == t + k * inc
      invariant forall k': nat | k' < k :: !Aligned(t, inc, n, i, k')
      decreases fuel - k
    {
      if k == fuel {
        return None;
      }
      assert !Aligned(t, inc, n, i, k);
      MulSucc(k, inc);
      cur := cur + inc;
      k := k + 1;
    }
    assert Aligned(t, inc, n, i, k);
    return Some(cur);
  }

  /**
   * Every later bus n at position i already leaves at time 0 + i. With a
   * first bus of id 0 both t and the increment are 0, so each `while` loop
   * either ends at once or never.
   */
  predicate AlignedAtZero(cs: seq<Offset>)
  {
    forall j | 1 <= j < |cs| :: cs[j].n > 0 && cs[j].i % cs[j].n == 0
  }

  /**
   * `findSubsequentTime`: None when the schedule has no bus (`firstBus`
   * is undefined and the destructuring throws) or when a `while` loop does
   * not end within `fuel` steps. A first bus of id 0 gives 0 when every
   * later bus is aligned at 0, and otherwise a loop that never ends.
   */
  method FindSubsequentTime(schedule: seq<Entry>, fuel: nat) returns (r: Option<nat>)
    ensures r.Some? ==> Offsets(schedule) != []
    ensures r.Some? && Offsets(schedule)[0].n > 0 ==> Fits(Offsets(schedule), r.value) && r.value > 0
    ensures r.Some? && CoprimeIds(Offsets(schedule)) ==>
      forall t' | 0 < t' < r.value :: !Fits(Offsets(schedule), t')
    ensures CoprimeIds(Offsets(schedule)) && Offsets(schedule) != [] && AllBelow(Offsets(schedule), fuel) ==> r.Some?
    ensures Offsets(schedule) != [] && Offsets(schedule)[0].n == 0 ==>
      (r.Some? <==> AlignedAtZero(Offsets(schedule))) && (r.Some? ==> r.value == 0)
  {
    var cs := Offsets(schedule);
    if |cs| == 0 {
      return None;
    }
    if cs[0].n == 0 {
      var j := 1;
      while j < |cs|
        invariant 1 <= j <= |cs|
        invariant forall j' | 1 <= j' < j :: cs[j'].n > 0 && cs[j'].i % cs[j'].n == 0
      {
        if cs[j].n == 0 || cs[j].i % cs[j].n != 0 {
          return None;
        }
        j := j + 1;
      }
      return Some(0);
    }
    var t: nat := cs[0].n;
    var increment: nat := cs[0].n;
    var j := 1;
    ModOfMultiple(cs[0].n, 1);
    FirstFits(cs);
    while j < |cs|
      invariant 1 <= j <= |cs|
      invariant Fits(cs[..j], t) && t > 0
      invariant increment == IdProduct(cs[..j]) && increment > 0
      invariant CoprimeIds(cs) ==> Least(cs[..j], t, increment)
      invariant CoprimeIds(cs) ==> forall j' | j <= j' < |cs| :: Coprime(increment, cs[j'].n)
    {
      var n, i := cs[j].n, cs[j].i;
      var next := AlignBus(t, increment, n, i, fuel);
      if next.None? {
        if CoprimeIds(cs) && AllBelow(cs, fuel) {
          var k := AlignmentExists(t, increment, n, i);
        }
        return None;
      }
      ghost var k: nat :| k <= fuel && next.value == t + k * increment && Aligned(t, increment, n, i, k) &&
        forall k': nat | k' < k :: !Aligned(t, increment, n, i, k');
      SieveStep(cs, j, t, increment, k);
      t := next.value;
      increment := increment * n;
      j := j + 1;
    }
    assert cs[..j] == cs;
    return Some(t);
  }

  /** The loop invariants of `findSubsequentTime` carry over to one more bus. */
  lemma SieveStep(cs: seq<Offset>, j: nat, t: nat, inc: nat, k: nat)
    requires 1 <= j < |cs| && cs[j].n > 0
    requires Fits(cs[..j], t) && t > 0
    requires inc == IdProduct(cs[..j]) && inc > 0
    requires CoprimeIds(cs) ==> Least(cs[..j], t, inc)
    requires CoprimeIds(cs) ==> forall j' | j <= j' < |cs| :: Coprime(inc, cs[j'].n)
    requires Aligned(t, inc, cs[j].n, cs[j].i, k)
    requires forall k': nat | k' < k :: !Aligned(t, inc, cs[j].n, cs[j].i, k')
    ensures Fits(cs[..j + 1], t + k * inc) && t + k * inc > 0
    ensures inc * cs[j].n == IdProduct(cs[..j + 1]) && inc * cs[j].n > 0
    ensures CoprimeIds(cs) ==> Least(cs[..j + 1], t + k * inc, inc * cs[j].n)
    ensures CoprimeIds(cs) ==> forall j' | j + 1 <= j' < |cs| :: Coprime(inc * cs[j].n, cs[j'].n)
  {
    SieveFits(cs, j, t, inc, k);
    if CoprimeIds(cs) {
      SieveLeast(cs, j, t, inc, k);
    }
  }

  /** One more bus: the time still fits and the increment is the id product so far. */
  lemma SieveFits(cs: seq<Offset>, j: nat, t: nat, inc: nat, k: nat)
    requires 1 <= j < |cs| && cs[j].n > 0
    requires Fits(cs[..j], t) && t > 0
    requires inc == IdProduct(cs[..j]) && inc > 0
    requires Aligned(t, inc, cs[j].n, cs[j].i, k)
    ensures Fits(cs[..j + 1], t + k * inc) && t + k * inc > 0
    ensures inc * cs[j].n == IdProduct(cs[..j + 1]) && inc * cs[j].n > 0
  {
    StepFits(cs, j, t, inc, k);
    assert cs[..j + 1][..j] == cs[..j];
    PositiveProduct(inc, cs[j].n);
  }

  /** One more bus with coprime ids: the time is still the least, and the increment stays coprime to later ids. */
  lemma SieveLeast(cs: seq<Offset>, j: nat, t: nat, inc: nat, k: nat)
    requires 1 <= j < |cs| && cs[j].n > 0 && CoprimeIds(cs)
    requires t > 0 && inc > 0 && Least(cs[..j], t, inc)
    requires forall j' | j <= j' < |cs| :: Coprime(inc, cs[j'].n)
    requires Aligned(t, inc, cs[j].n, cs[j].i, k)
    requires forall k': nat | k' < k :: !Aligned(t, inc, cs[j].n, cs[j].i, k')
    ensures inc * cs[j].n > 0
    ensures Least(cs[..j + 1], t + k * inc, inc * cs[j].n)
    ensures forall j' | j + 1 <= j' < |cs| :: Coprime(inc * cs[j].n, cs[j'].n)
  {
    var n := cs[j].n;
    PositiveProduct(inc, n);
    StepLeast(cs, j, t, inc, k);
    forall j' | j + 1 <= j' < |cs| ensures Coprime(inc * n, cs[j'].n) {
      CoprimeProduct(inc, n, cs[j'].n);
    }
  }

  lemma ExampleOffsets()
    ensures Offsets([Bus(17), Out, Bus(13), Bus(19)]) == [Offset(17, 0), Offset(13, 2), Offset(19, 3)]
  {
    var s := [Bus(17), Out, Bus(13), Bus(19)];
    assert Offsets(s[..1]) == [Offset(17, 0)] by { assert s[..1][..0] == []; }
    assert Offsets(s[..2]) == [Offset(17, 0)] by { assert s[..2][..1] == s[..1]; }
    assert Offsets(s[..3]) == [Offset(17, 0), Offset(13, 2)] by { assert s[..3][..2] == s[..2]; }
    assert s[..4][..3] == s[..3] && s[..4] == s;
  }

  /** The schedule 17,x,13,19: 3417 fits it, and its ids are coprime, so it is the earliest. */
  lemma ExampleSubsequentTime()
    ensures Fits(Offsets([Bus(17), Out, Bus(13), Bus(19)]), 3417)
    ensures CoprimeIds(Offsets([Bus(17), Out, Bus(13), Bus(19)]))
  {
    ExampleOffsets();
    ModExact(3417, 17, 201, 0);
    ModExact(3419, 13, 263, 0);
    ModExact(3420, 19, 180, 0);
    assert Gcd(17, 13) == 1 by { assert Gcd(4, 1) == 1; assert Gcd(13, 4) == 1; }
    assert Gcd(17, 19) == 1 by { assert Gcd(2, 1) == 1; assert Gcd(17, 2) == 1; assert Gcd(19, 17) == 1; }
    assert Gcd(13, 19) == 1 by { assert Gcd(6, 1) == 1; assert Gcd(13, 6) == 1; assert Gcd(19, 13) == 1; }
  }

  /** Ids are positive and pairwise coprime: no two share a factor greater than 1. */
  predicate CoprimeIds(cs: seq<Offset>)
  {
    (forall j | 0 <= j < |cs| :: cs[j].n > 0) &&
    forall a, b | 0 <= a < b < |cs| :: Coprime(cs[a].n, cs[b].n)
  }

  /** Every id is below the step bound. */
  predicate AllBelow(cs: seq<Offset>, fuel: nat)
  {
    forall j | 0 <= j < |cs| :: cs[j].n <= fuel
  }

  /**
   * t is the least positive time fitting the buses, and every positive
   * time fitting them differs from t by a multiple of the increment.
   */
  ghost predicate Least(cs: seq<Offset>, t: nat, inc: nat)
    requires inc > 0
  {
    (forall t' | 0 < t' < t :: !Fits(cs, t')) &&
    (forall t' | t' > 0 && Fits(cs, t') :: (t' - t) % inc == 0)
  }

  lemma FirstFits(cs: seq<Offset>)
    requires |cs| > 0 && cs[0].n > 0
    ensures Fits(cs[..1], cs[0].n)
    ensures IdProduct(cs[..1]) == cs[0].n
    ensures CoprimeIds(cs) ==> Least(cs[..1], cs[0].n, cs[0].n)
    ensures CoprimeIds(cs) ==> forall j' | 1 <= j' < |cs| :: Coprime(cs[0].n, cs[j'].n)
  {
    var n := cs[0].n;
    ModOfMultiple(n, 1);
    assert cs[..1][..0] == [];
    forall t' | 0 < t' < n ensures !Fits(cs[..1], t') {
      DivUnique(t', n, 0, t');
    }
    forall t' | t' > 0 && Fits(cs[..1], t') ensures (t' - n) % n == 0 {
      MultipleOfMod(n, t');
      ModOfMultiple(n, t' / n - 1);
      assert t' - n == n * (t' / n - 1);
    }
  }

  /** One more bus: the time found fits it as well as the earlier ones. */
  lemma StepFits(cs: seq<Offset>, j: nat, t: nat, inc: nat, k: nat)
    requires 1 <= j < |cs| && cs[j].n > 0
    requires Fits(cs[..j], t) && inc == IdProduct(cs[..j]) && inc > 0
    requires Aligned(t, inc, cs[j].n, cs[j].i, k)
    ensures Fits(cs[..j + 1], t + k * inc)
  {
    var t' := t + k * inc;
    var c := cs[..j + 1];
    assert cs[..j + 1][..j] == cs[..j];
    ProductMultiple(cs[..j], 0);
    forall a | 0 <= a < j ensures a > 0 ==> (t' + c[a].i) % c[a].n == 0 {
      if a > 0 {
        ProductMultiple(cs[..j], a);
        ShiftByMultiple(t + c[a].i, c[a].n, k, inc);
        assert t' + c[a].i == t + c[a].i + k * inc;
      }
    }
    ShiftByMultiple(t, c[0].n, k, inc);
  }

  /**
   * With pairwise coprime ids, the first aligned step gives the least
   * positive time fitting one more bus, unique up to the new increment.
   */
  lemma StepLeast(cs: seq<Offset>, j: nat, t: nat, inc: nat, k: nat)
    requires 1 <= j < |cs| && cs[j].n > 0
    requires inc > 0 && t > 0
    requires Least(cs[..j], t, inc) && Coprime(inc, cs[j].n)
    requires Aligned(t, inc, cs[j].n, cs[j].i, k)
    requires forall k': nat | k' < k :: !Aligned(t, inc, cs[j].n, cs[j].i, k')
    ensures Least(cs[..j + 1], t + k * inc, inc * cs[j].n)
  {
    var c := cs[..j + 1];
    PositiveProduct(inc, cs[j].n);
    forall t' | t' > 0 && Fits(c, t') ensures t + k * inc <= t' && (t' - (t + k * inc)) % (inc * cs[j].n) == 0 {
      StepLeastOne(cs, j, t, inc, k, t');
    }
  }

  /** One positive time fitting one more bus is no earlier than the step found, and congruent to it. */
  lemma StepLeastOne(cs: seq<Offset>, j: nat, t: nat, inc: nat, k: nat, t': int)
    requires 1 <= j < |cs| && cs[j].n > 0
    requires inc > 0 && t > 0
    requires Least(cs[..j], t, inc) && Coprime(inc, cs[j].n)
    requires Aligned(t, inc, cs[j].n, cs[j].i, k)
    requires forall k': nat | k' < k :: !Aligned(t, inc, cs[j].n, cs[j].i, k')
    requires t' > 0 && Fits(cs[..j + 1], t')
    ensures t + k * inc <= t' && (t' - (t + k * inc)) % (inc * cs[j].n) == 0
  {
    var n, i := cs[j].n, cs[j].i;
    var c := cs[..j + 1];
    assert c[..j] == cs[..j] && c[j] == cs[j];
    FitsPrefix(c, j, t');
    var m := OnProgression(t, inc, t');
    assert Aligned(t, inc, n, i, m);
    assert m >= k;
    MulMonotone(m, k, inc);
    Congruent(t, inc, n, i, k, m);
  }

  /** A time at or after t that is congruent to t lies m increments after it. */
  lemma OnProgression(t: nat, inc: nat, t': int) returns (m: nat)
    requires inc > 0 && t' >= t && (t' - t) % inc == 0
    ensures t' == t + m * inc
  {
    MultipleOfMod(inc, t' - t);
    m := (t' - t) / inc;
  }

  /** Two aligned steps k and m differ by a multiple of n, so the times differ by a multiple of inc · n. */
  lemma Congruent(t: nat, inc: nat, n: nat, i: nat, k: nat, m: nat)
    requires n > 0 && inc > 0 && Coprime(inc, n) && k <= m
    requires Aligned(t, inc, n, i, k) && Aligned(t, inc, n, i, m)
    ensures inc * n > 0 && ((t + m * inc) - (t + k * inc)) % (inc * n) == 0
  {
    var d := m - k;
    MulSub(m, k, inc);
    DifferenceOfMultiples(t + m * inc + i, t + k * inc + i, n);
    CoprimeFactor(inc, n, d);
    var q := DividedBy(n, d);
    PositiveProduct(inc, n);
    ScaledMultiple(n, q, inc);
    ModOfMultiple(inc * n, q);
  }

  lemma MulSub(m: int, k: int, inc: int)
    ensures m * inc - k * inc == (m - k) * inc
  {
  }

  /** A multiple of n, written as n · q. */
  lemma DividedBy(n: nat, d: int) returns (q: int)
    requires n > 0 && d % n == 0
    ensures d == n * q
  {
    q := d / n;
  }

  lemma ScaledMultiple(n: int, q: int, inc: int)
    ensures (n * q) * inc == (inc * n) * q
  {
  }

  lemma FitsPrefix(cs: seq<Offset>, j: nat, t: int)
    requires 1 <= j <= |cs| && Fits(cs, t)
    ensures Fits(cs[..j], t)
  {
  }

  /** Every id processed divides the increment. */
  lemma {:induction false} ProductMultiple(cs: seq<Offset>, a: nat)
    requires a < |cs| && cs[a].n > 0
    ensures IdProduct(cs) % cs[a].n == 0
  {
    var init := cs[..|cs| - 1];
    var last := cs[|cs| - 1];
    if a == |cs| - 1 {
      ModOfMultiple(last.n, IdProduct(init));
      assert IdProduct(cs) == last.n * IdProduct(init);
    } else {
      assert init[a] == cs[a];
      ProductMultiple(init, a);
      MultipleOfMod(cs[a].n, IdProduct(init));
      var q := IdProduct(init) / cs[a].n;
      MulAssoc(cs[a].n, q, last.n);
      ModOfMultiple(cs[a].n, q * last.n);
    }
  }

  /** Adding k times a multiple of n does not change divisibility by n. */
  lemma ShiftByMultiple(x: int, n: nat, k: nat, inc: int)
    requires n > 0 && x % n == 0 && inc % n == 0
    ensures (x + k * inc) % n == 0
  {
    MultipleOfMod(n, x);
    MultipleOfMod(n, inc);
    var a, b := x / n, inc / n;
    MulAssoc(n, b, k);
    assert x + k * inc == n * (a + b * k);
    ModOfMultiple(n, a + b * k);
  }

  lemma DifferenceOfMultiples(x: int, y: int, n: nat)
    requires n > 0 && x % n == 0 && y % n == 0
    ensures (x - y) % n == 0
  {
    MultipleOfMod(n, x);
    MultipleOfMod(n, y);
    assert x - y == n * (x / n - y / n);
    ModOfMultiple(n, x / n - y / n);
  }

  lemma ModOfMultiple(d: nat, k: int)
    requires d > 0
    ensures (d * k) % d == 0 && (d * k) / d == k
  {
    DivUnique(d * k, d, k, 0);
  }

  lemma MultipleOfMod(d: nat, x: int)
    requires d > 0 && x % d == 0
    ensures x == d * (x / d)
  {
  }

  lemma MulAssoc(a: int, b: int, c: int)
    ensures a * b * c == a * (b * c) && a * b * c == c * (a * b) && (a * b) * c == (a * c) * b
  {
  }

  lemma MulSucc(k: int, inc: int)
    ensures k * inc + inc == (k + 1) * inc
  {
  }

  lemma PositiveProduct(a: nat, b: nat)
    requires a > 0 && b > 0
    ensures a * b > 0
  {
  }

  /** Euclid's algorithm. */
  function Gcd(a: nat, b: nat): nat
    decreases b
  {
    if b == 0 then a else Gcd(b, a % b)
  }

  predicate Coprime(a: nat, b: nat)
  {
    Gcd(a, b) == 1
  }

  /** The greatest common divisor divides both numbers. */
  lemma {:induction false} GcdDivides(a: nat, b: nat) returns (ka: int, kb: int)
    ensures a == Gcd(a, b) * ka && b == Gcd(a, b) * kb
    decreases b
  {
    if b == 0 {
      ka, kb := 1, 0;
    } else {
      var g := Gcd(a, b);
      var k1, k2 := GcdDivides(b, a % b);
      kb := k1;
      ka := (a / b) * k1 + k2;
      assert a == (a / b) * b + a % b;
      QuotientStep(a, b, a / b, a % b, g, k1, k2);
    }
  }

  lemma QuotientStep(a: int, b: int, q: int, r: int, g: int, k1: int, k2: int)
    requires a == q * b + r && b == g * k1 && r == g * k2
    ensures a == g * (q * k1 + k2)
  {
    MulAssoc(q, g, k1);
    MulAssoc(g, q, k1);
  }

  /** Bézout's identity: the extended Euclid algorithm. */
  lemma {:induction false} Bezout(a: nat, b: nat) returns (x: int, y: int)
    ensures a * x + b * y == Gcd(a, b)
    decreases b
  {
    if b == 0 {
      x, y := 1, 0;
    } else {
      var q, r := a / b, a % b;
      var x', y' := Bezout(b, r);
      x, y := y', x' - q * y';
      assert a == q * b + r;
      BezoutStep(a, b, q, r, x', y');
    }
  }

  lemma BezoutStep(a: int, b: int, q: int, r: int, x': int, y': int)
    requires a == q * b + r
    ensures a * y' + b * (x' - q * y') == b * x' + r * y'
  {
    assert a * y' == q * b * y' + r * y';
    assert b * (x' - q * y') == b * x' - b * (q * y');
    MulAssoc(q, b, y');
    MulAssoc(b, q, y');
  }

  /** A number whose multiple is 1 is 1. */
  lemma UnitFactor(g: nat, m: int)
    requires g * m == 1
    ensures g == 1
  {
    assert g != 0;
    assert m > 0;
    MulMonotone(m, 1, g);
  }

  /** A combination equal to 1 makes two numbers coprime. */
  lemma CoprimeOfCombination(a: nat, b: nat, x: int, y: int)
    requires a * x + b * y == 1
    ensures Coprime(a, b)
  {
    var ka, kb := GcdDivides(a, b);
    var g := Gcd(a, b);
    assert g * ka * x + g * kb * y == 1;
    MulAssoc(g, ka, x);
    MulAssoc(g, kb, y);
    assert g * (ka * x + kb * y) == 1;
    UnitFactor(g, ka * x + kb * y);
  }

  /** A product of two numbers coprime to n is coprime to n. */
  lemma CoprimeProduct(p: nat, m: nat, n: nat)
    requires Coprime(p, n) && Coprime(m, n)
    ensures Coprime(p * m, n)
  {
    var x1, y1 := Bezout(p, n);
    var x2, y2 := Bezout(m, n);
    ProductOfCombinations(p, m, n, x1, y1, x2, y2);
    CoprimeOfCombination(p * m, n, x1 * x2, y1 + y2 - n * y1 * y2);
  }

  lemma ProductOfCombinations(p: int, m: int, n: int, x1: int, y1: int, x2: int, y2: int)
    requires p * x1 + n * y1 == 1 && m * x2 + n * y2 == 1
    ensures (p * m) * (x1 * x2) + n * (y1 + y2 - n * y1 * y2) == 1
  {
    var u, v := p * x1, m * x2;
    assert u == 1 - n * y1 && v == 1 - n * y2;
    assert u * v == (1 - n * y1) * (1 - n * y2);
    assert (1 - n * y1) * (1 - n * y2) == 1 - n * y1 - n * y2 + (n * y1) * (n * y2);
    assert (n * y1) * (n * y2) == n * (n * y1 * y2);
    assert (p * m) * (x1 * x2) == u * v;
  }

  /** Euclid's lemma: if n divides inc · d and is coprime to inc, it divides d. */
  lemma CoprimeFactor(inc: nat, n: nat, d: int)
    requires n > 0 && Coprime(inc, n) && (d * inc) % n == 0
    ensures d % n == 0
  {
    var x, y := Bezout(inc, n);
    MultipleOfMod(n, d * inc);
    var q := (d * inc) / n;
    assert d == d * (inc * x + n * y);
    assert d * (inc * x + n * y) == (d * inc) * x + n * (d * y);
    assert (d * inc) * x == n * (q * x) by { MulAssoc(n, q, x); }
    assert d == n * (q * x + d * y);
    ModOfMultiple(n, q * x + d * y);
  }

  /** With inc coprime to n some step below n aligns: the `while` loop ends within n steps. */
  lemma AlignmentExists(t: nat, inc: nat, n: nat, i: nat) returns (k: nat)
    requires n > 0 && Coprime(inc, n)
    ensures k < n && Aligned(t, inc, n, i, k)
  {
    var x, y := Bezout(inc, n);
    var s := t + i;
    var a := -(s * x);
    k := a % n;
    var q := a / n;
    assert a == n * q + k;
    AlignmentAlgebra(s, inc, n, x, y, q, k);
    assert t + k * inc + i == s + k * inc;
    ModOfMultiple(n, s * y - q * inc);
  }

  /** k = −s·x mod n, where inc·x ≡ 1 (mod n), makes s + k·inc a multiple of n. */
  lemma AlignmentAlgebra(s: int, inc: int, n: int, x: int, y: int, q: int, k: int)
    requires inc * x + n * y == 1 && -(s * x) == n * q + k
    ensures s + k * inc == n * (s * y - q * inc)
  {
    assert k == -(s * x) - n * q;
    assert k * inc == -((s * x) * inc) - (n * q) * inc;
    assert (s * x) * inc == s * (inc * x);
    assert (n * q) * inc == n * (q * inc);
    assert s * (inc * x) == s - s * (n * y);
    assert s * (n * y) == n * (s * y);
  }
}
