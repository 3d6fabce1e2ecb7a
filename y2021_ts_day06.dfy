/**
 * Lanternfish (2021, day 6): fish are counted in nine buckets by timer value. Each day the
 * bucket of fish at 0 is shifted off, added to bucket 6 (they reset) and pushed as bucket 8
 * (their newborns).
 */
module Lanternfish {
  import opened Common

  type Age = x: int | 0 <= x <= 8

  /** Number of fish with timer v. */
  function CountAge(fish: seq<Age>, v: Age): (c: nat)
    ensures c <= |fish|
  {
    if fish == [] then 0 else CountAge(fish[..|fish| - 1], v) + (if fish[|fish| - 1] == v then 1 else 0)
  }

  /** The initial reduce: `acc[age] += 1` over nine zeroed buckets. */
  function Buckets(fish: seq<Age>): (b: seq<int>)
    ensures |b| == 9
  {
    if fish == [] then seq(9, _ => 0)
    else
      var b := Buckets(fish[..|fish| - 1]);
      var age := fish[|fish| - 1];
      b[age := b[age] + 1]
  }

  /** One day: shift bucket 0 off, add it to bucket 6, push it as bucket 8. */
  function Day(b: seq<int>): (next: seq<int>)
    requires |b| == 9
    ensures |next| == 9
  {
    var zeroCount := b[0];
    var shifted := b[1..];
    shifted[6 := shifted[6] + zeroCount] + [zeroCount]
  }

  function Simulate(b: seq<int>, days: nat): (r: seq<int>)
    requires |b| == 9
    ensures |r| == 9
    decreases days
  {
    if days == 0 then b else Simulate(Day(b), days - 1)
  }

  function Total(b: seq<int>): int
  {
    Sum(b)
  }

  method CountFish(startFish: seq<Age>, days: nat) returns (count: int)
    ensures count == Total(Simulate(Buckets(startFish), days))
  {
    var fish := seq(9, _ => 0);
    for k := 0 to |startFish|
      invariant fish == Buckets(startFish[..k])
    {
      assert startFish[..k + 1][..k] == startFish[..k];
      var age := startFish[k];
      fish := fish[age := fish[age] + 1];
    }
    assert startFish[..|startFish|] == startFish;
    for i := 0 to days
      invariant |fish| == 9
      invariant Simulate(fish, days - i) == Simulate(Buckets(startFish), days)
    {
      var zeroCount := fish[0];
      fish := fish[1..];
      fish := fish[6 := fish[6] + zeroCount];
      fish := fish + [zeroCount];
    }
    count := 0;
    for k := 0 to 9
      invariant count == Sum(fish[..k])
    {
      assert fish[..k + 1][..k] == fish[..k];
      count := count + fish[k];
    }
    assert fish[..9] == fish;
  }

  function Sum9(b: seq<int>): int
    requires |b| == 9
  {
    b[0] + b[1] + b[2] + b[3] + b[4] + b[5] + b[6] + b[7] + b[8]
  }

  lemma SumIsSum9(b: seq<int>)
    requires |b| == 9
    ensures Sum(b) == Sum9(b)
  {
    forall k | 0 <= k < 9
      ensures Sum(b[..k + 1]) == Sum(b[..k]) + b[k]
    {
      assert b[..k + 1][..k] == b[..k];
    }
    assert b[..9] == b;
  }

  /** The bucket totals count every fish: the reduce loses none. */
  lemma {:induction false} BucketsCountFish(fish: seq<Age>)
    ensures Total(Buckets(fish)) == |fish|
    ensures forall v: Age :: Buckets(fish)[v] == CountAge(fish, v)
  {
    if fish == [] {
      SumIsSum9(seq(9, _ => 0));
    } else {
      var init := fish[..|fish| - 1];
      BucketsCountFish(init);
      SumIsSum9(Buckets(init));
      SumIsSum9(Buckets(fish));
    }
  }

  /** Each day adds exactly the previous day's bucket-0 count to the total. */
  lemma DayTotal(b: seq<int>)
    requires |b| == 9
    ensures Total(Day(b)) == Total(b) + b[0]
  {
    SumIsSum9(b);
    SumIsSum9(Day(b));
  }

  /** days = 0 returns the number of starting fish. */
  lemma NoDaysCountsStart(startFish: seq<Age>)
    ensures Total(Simulate(Buckets(startFish), 0)) == |startFish|
  {
    BucketsCountFish(startFish);
  }

  /** The population never shrinks when the buckets start non-negative. */
  lemma {:induction false} NeverShrinks(b: seq<int>, days: nat)
    requires |b| == 9 && forall i :: 0 <= i < 9 ==> b[i] >= 0
    ensures Total(Simulate(b, days)) >= Total(b)
    ensures forall i :: 0 <= i < 9 ==> Simulate(b, days)[i] >= 0
    decreases days
  {
    if days > 0 {
      DayTotal(b);
      NeverShrinks(Day(b), days - 1);
    }
  }

  // ---- a reference model: one timer per fish ----

  /** Decrement every timer; a fish at 0 resets to 6. */
  function Age1(fish: seq<Age>): (r: seq<Age>)
    ensures |r| == |fish|
  {
    if fish == [] then []
    else Age1(fish[..|fish| - 1]) + [if fish[|fish| - 1] == 0 then 6 else fish[|fish| - 1] - 1]
  }

  function Newborns(n: nat): (r: seq<Age>)
    ensures |r| == n
  {
    if n == 0 then [] else Newborns(n - 1) + [8]
  }

  /** The individual-fish day: timers tick, and each fish at 0 spawns one fish at 8. */
  function FishDay(fish: seq<Age>): seq<Age>
  {
    Age1(fish) + Newborns(CountAge(fish, 0))
  }

  lemma {:induction false} CountAppend(s: seq<Age>, t: seq<Age>, v: Age)
    ensures CountAge(s + t, v) == CountAge(s, v) + CountAge(t, v)
  {
    if t == [] {
      assert s + t == s;
    } else {
      assert (s + t)[..|s + t| - 1] == s + t[..|t| - 1];
      CountAppend(s, t[..|t| - 1], v);
    }
  }

  lemma {:induction false} CountAge1(fish: seq<Age>, v: Age)
    ensures CountAge(Age1(fish), v) ==
      if v == 8 then 0
      else if v == 6 then CountAge(fish, 7) + CountAge(fish, 0)
      else CountAge(fish, v + 1)
  {
    if fish != [] {
      var init := fish[..|fish| - 1];
      CountAge1(init, v);
      var last: Age := if fish[|fish| - 1] == 0 then 6 else fish[|fish| - 1] - 1;
      CountAppend(Age1(init), [last], v);
      assert CountAge([last], v) == (if last == v then 1 else 0) by { assert [last][..0] == []; }
    }
  }

  lemma {:induction false} CountNewborns(n: nat, v: Age)
    ensures CountAge(Newborns(n), v) == if v == 8 then n else 0
  {
    if n > 0 {
      CountNewborns(n - 1, v);
      assert Newborns(n)[..n - 1] == Newborns(n - 1);
    }
  }

  /** The buckets step exactly as the individual fish do. */
  lemma DayMatchesFish(fish: seq<Age>)
    ensures Day(Buckets(fish)) == Buckets(FishDay(fish))
  {
    BucketsCountFish(fish);
    BucketsCountFish(FishDay(fish));
    forall v: Age
      ensures Day(Buckets(fish))[v] == Buckets(FishDay(fish))[v]
    {
      CountAppend(Age1(fish), Newborns(CountAge(fish, 0)), v);
      CountAge1(fish, v);
      CountNewborns(CountAge(fish, 0), v);
    }
  }
}
