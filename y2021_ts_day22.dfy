/**
 * Reactor reboot (2021, day 22): cuboids of cubes are switched on or off
 * in turn; the answer is the number of cubes left on. The steps are
 * processed last to first, and an "on" step adds only the part of its
 * cuboid that no later step covers; that part is found by
 * inclusion-exclusion over the overlaps.
 */
module ReactorReboot {
  import opened Common

  datatype Range = Range(min: int, max: int)
  datatype Cuboid = Cuboid(x: Range, y: Range, z: Range)
  /** One reboot step: `on` is true for the operation "on". */
  datatype Step = Step(on: bool, cuboid: Cuboid)

  type Point = (int, int, int)

  /** The cuboid volume as the source computes it: the product of the three side lengths. */
  function Volume(c: Cuboid): int
  {
    (c.x.max - c.x.min + 1) * (c.y.max - c.y.min + 1) * (c.z.max - c.z.min + 1)
  }

  predicate NonEmpty(c: Cuboid)
  {
    c.x.min <= c.x.max && c.y.min <= c.y.max && c.z.min <= c.z.max
  }

  /** The cubes a cuboid holds, both ends included on every axis. */
  ghost function Points(c: Cuboid): set<Point>
  {
    set x, y, z | c.x.min <= x <= c.x.max && c.y.min <= y <= c.y.max && c.z.min <= z <= c.z.max :: (x, y, z)
  }

  /** `Cuboid.overlap`: per axis the larger minimum and the smaller maximum; None if any axis is empty. */
  function Overlap(a: Cuboid, b: Cuboid): (r: Option<Cuboid>)
    ensures r.Some? ==> NonEmpty(r.value)
  {
    var o := Cuboid(Range(Max(a.x.min, b.x.min), Min(a.x.max, b.x.max)),
                    Range(Max(a.y.min, b.y.min), Min(a.y.max, b.y.max)),
                    Range(Max(a.z.min, b.z.min), Min(a.z.max, b.z.max)));
    if o.x.max < o.x.min || o.y.max < o.y.min || o.z.max < o.z.min then None else Some(o)
  }

  /** The overlap is None exactly when the cuboids share no cube, and otherwise holds exactly the shared cubes. */
  lemma OverlapIsIntersection(a: Cuboid, b: Cuboid)
    ensures Overlap(a, b).None? <==> Points(a) * Points(b) == {}
    ensures Overlap(a, b).Some? ==> Points(Overlap(a, b).value) == Points(a) * Points(b)
  {
    match Overlap(a, b)
    case None =>
      forall p | p in Points(a) * Points(b)
        ensures false
      {
      }
    case Some(o) =>
      var corner := (o.x.min, o.y.min, o.z.min);
      assert a.x.min <= corner.0 <= a.x.max && a.y.min <= corner.1 <= a.y.max && a.z.min <= corner.2 <= a.z.max;
      assert b.x.min <= corner.0 <= b.x.max && b.y.min <= corner.1 <= b.y.max && b.z.min <= corner.2 <= b.z.max;
      assert corner in Points(a) * Points(b);
      forall p: Point
        ensures p in Points(o) <==> p in Points(a) && p in Points(b)
      {
        if p in Points(a) && p in Points(b) {
          assert o.x.min <= p.0 <= o.x.max && o.y.min <= p.1 <= o.y.max && o.z.min <= p.2 <= o.z.max;
        }
      }
  }

  /** The cubes of a cuboid at one x and one y. */
  ghost function Line(x: int, y: int, zl: int, zh: int): set<Point>
  {
    set z | zl <= z <= zh :: (x, y, z)
  }

  /** The cubes of a cuboid at one x. */
  ghost function Slice(x: int, yl: int, yh: int, zl: int, zh: int): set<Point>
  {
    set y, z | yl <= y <= yh && zl <= z <= zh :: (x, y, z)
  }

  lemma {:induction false} LineSize(x: int, y: int, zl: int, zh: int)
    requires zl <= zh + 1
    ensures |Line(x, y, zl, zh)| == zh - zl + 1
    decreases zh - zl
  {
    if zl <= zh {
      LineSize(x, y, zl, zh - 1);
      assert Line(x, y, zl, zh) == Line(x, y, zl, zh - 1) + {(x, y, zh)};
    } else {
      assert Line(x, y, zl, zh) == {};
    }
  }

  lemma MulSuccessor(n: int, w: int, total: int)
    requires total == n * w + w
    ensures total == (n + 1) * w
  {
  }

  /** A slice is the slice one row shorter and, apart from it, the last row. */
  lemma SliceSplit(x: int, yl: int, yh: int, zl: int, zh: int)
    requires yl <= yh
    ensures Slice(x, yl, yh, zl, zh) == Slice(x, yl, yh - 1, zl, zh) + Line(x, yh, zl, zh)
    ensures Slice(x, yl, yh - 1, zl, zh) * Line(x, yh, zl, zh) == {}
  {
    var rest, line := Slice(x, yl, yh - 1, zl, zh), Line(x, yh, zl, zh);
    forall p | p in Slice(x, yl, yh, zl, zh)
      ensures p in rest || p in line
    {
      if p.1 < yh {
        assert p in rest;
      } else {
        assert p in line;
      }
    }
  }

  lemma {:induction false} SliceSize(x: int, yl: int, yh: int, zl: int, zh: int)
    requires yl <= yh + 1 && zl <= zh + 1
    ensures |Slice(x, yl, yh, zl, zh)| == (yh - yl + 1) * (zh - zl + 1)
    decreases yh - yl
  {
    if yl <= yh {
      SliceSize(x, yl, yh - 1, zl, zh);
      LineSize(x, yh, zl, zh);
      SliceSplit(x, yl, yh, zl, zh);
      assert |Slice(x, yl, yh, zl, zh)| == |Slice(x, yl, yh - 1, zl, zh)| + |Line(x, yh, zl, zh)|;
      MulSuccessor(yh - yl, zh - zl + 1, |Slice(x, yl, yh, zl, zh)|);
    } else {
      assert Slice(x, yl, yh, zl, zh) == {};
    }
  }

  /** A cuboid is the cuboid one slice thinner and, apart from it, its last slice. */
  lemma PointsSplit(c: Cuboid)
    requires c.x.min <= c.x.max
    ensures Points(c) == Points(c.(x := Range(c.x.min, c.x.max - 1))) + Slice(c.x.max, c.y.min, c.y.max, c.z.min, c.z.max)
    ensures Points(c.(x := Range(c.x.min, c.x.max - 1))) * Slice(c.x.max, c.y.min, c.y.max, c.z.min, c.z.max) == {}
  {
    var rest, slice := Points(c.(x := Range(c.x.min, c.x.max - 1))), Slice(c.x.max, c.y.min, c.y.max, c.z.min, c.z.max);
    forall p | p in Points(c)
      ensures p in rest || p in slice
    {
      if p.0 < c.x.max {
        assert p in rest;
      } else {
        assert p in slice;
      }
    }
  }

  lemma {:induction false} BoxSize(c: Cuboid)
    requires c.x.min <= c.x.max + 1 && c.y.min <= c.y.max + 1 && c.z.min <= c.z.max + 1
    ensures |Points(c)| == (c.x.max - c.x.min + 1) * ((c.y.max - c.y.min + 1) * (c.z.max - c.z.min + 1))
    decreases c.x.max - c.x.min
  {
    if c.x.min <= c.x.max {
      var c' := c.(x := Range(c.x.min, c.x.max - 1));
      BoxSize(c');
      SliceSize(c.x.max, c.y.min, c.y.max, c.z.min, c.z.max);
      PointsSplit(c);
      var slice := Slice(c.x.max, c.y.min, c.y.max, c.z.min, c.z.max);
      var w := (c.y.max - c.y.min + 1) * (c.z.max - c.z.min + 1);
      assert |Points(c)| == |Points(c')| + |slice|;
      MulSuccessor(c.x.max - c.x.min, w, |Points(c)|);
    } else {
      assert Points(c) == {};
    }
  }

  /** The volume of a non-empty cuboid is the number of cubes it holds. */
  lemma VolumeCountsPoints(c: Cuboid)
    requires NonEmpty(c)
    ensures |Points(c)| == Volume(c)
  {
    BoxSize(c);
  }

  /** The cubes covered by at least one of the cuboids. */
  ghost function Covered(cs: seq<Cuboid>): set<Point>
    decreases |cs|
  {
    if cs == [] then {} else Points(cs[0]) + Covered(cs[1..])
  }

  /**
   * `findOverlapsVolume`: for every compared cuboid i that meets the target,
   * the volume of the overlap less what of it the cuboids after i already
   * cover; the terms are summed.
   */
  function OverlapsVolume(target: Cuboid, compared: seq<Cuboid>): int
    decreases |compared|, 1, 0
  {
    OverlapsFrom(target, compared, 0)
  }

  /** The sum of the terms of `findOverlapsVolume` from index i on. */
  function OverlapsFrom(target: Cuboid, compared: seq<Cuboid>, i: nat): int
    requires i <= |compared|
    decreases |compared|, 0, |compared| - i
  {
    if i == |compared| then 0 else OverlapTerm(target, compared, i) + OverlapsFrom(target, compared, i + 1)
  }

  /** The term that compared cuboid i contributes. */
  function OverlapTerm(target: Cuboid, compared: seq<Cuboid>, i: nat): int
    requires i < |compared|
    decreases |compared|, 0, 0
  {
    match Overlap(target, compared[i])
    case Some(o) => Volume(o) - OverlapsVolume(o, compared[i + 1..])
    case None => 0
  }

  lemma CardUnion<T>(a: set<T>, b: set<T>)
    ensures |a + b| == |a| + |b| - |a * b|
  {
    assert a + b == a + (b - a);
    assert b == (b - a) + a * b;
    assert (b - a) * (a * b) == {};
  }

  /** findOverlapsVolume counts the cubes of the target that some compared cuboid covers. */
  lemma {:induction false} OverlapsVolumeCounts(target: Cuboid, compared: seq<Cuboid>)
    ensures OverlapsVolume(target, compared) == |Points(target) * Covered(compared)|
    decreases |compared|, 1
  {
    OverlapsFromCounts(target, compared, 0);
    assert compared[0..] == compared;
  }

  lemma {:induction false} OverlapsFromCounts(target: Cuboid, compared: seq<Cuboid>, i: nat)
    requires i <= |compared|
    ensures OverlapsFrom(target, compared, i) == |Points(target) * Covered(compared[i..])|
    decreases |compared|, 0, |compared| - i
  {
    if i == |compared| {
      assert Covered(compared[i..]) == {};
    } else {
      OverlapsFromCounts(target, compared, i + 1);
      var t, c, rest := Points(target), Points(compared[i]), Covered(compared[i + 1..]);
      assert compared[i..][1..] == compared[i + 1..];
      assert Covered(compared[i..]) == c + rest;
      IntersectUnion(t, c, rest);
      OverlapIsIntersection(target, compared[i]);
      match Overlap(target, compared[i])
      case None =>
      case Some(o) =>
        OverlapsVolumeCounts(o, compared[i + 1..]);
        VolumeCountsPoints(o);
    }
  }

  /** Counting the part of t inside c ∪ rest by inclusion-exclusion. */
  lemma IntersectUnion<T>(t: set<T>, c: set<T>, rest: set<T>)
    ensures |t * (c + rest)| == |t * c| + |t * rest| - |(t * c) * rest|
  {
    assert t * (c + rest) == t * c + t * rest;
    assert (t * c) * (t * rest) == (t * c) * rest;
    CardUnion(t * c, t * rest);
  }

  /** The cubes that are on after the steps are applied in order from the start, all cubes being off first. */
  ghost function Lit(steps: seq<Step>): set<Point>
    decreases |steps|
  {
    if steps == [] then {}
    else
      var last := steps[|steps| - 1];
      var before := Lit(steps[..|steps| - 1]);
      if last.on then before + Points(last.cuboid) else before - Points(last.cuboid)
  }

  /** The cubes whose first covering step, reading from the front, is "on". */
  ghost function FirstWins(instructions: seq<Step>): set<Point>
    decreases |instructions|
  {
    if instructions == [] then {}
    else
      var first := instructions[0];
      (if first.on then Points(first.cuboid) else {}) + (FirstWins(instructions[1..]) - Points(first.cuboid))
  }

  function Reverse<T>(s: seq<T>): (r: seq<T>)
    ensures |r| == |s|
    decreases |s|
  {
    if s == [] then [] else [s[|s| - 1]] + Reverse(s[..|s| - 1])
  }

  function Cuboids(steps: seq<Step>): (r: seq<Cuboid>)
    ensures |r| == |steps|
    decreases |steps|
  {
    if steps == [] then [] else Cuboids(steps[..|steps| - 1]) + [steps[|steps| - 1].cuboid]
  }

  /** Reading the reversed steps from the front, the first covering step decides: the last step wins. */
  lemma {:induction false} LastStepWins(steps: seq<Step>)
    ensures Lit(steps) == FirstWins(Reverse(steps))
    decreases |steps|
  {
    if steps != [] {
      var init, last := steps[..|steps| - 1], steps[|steps| - 1];
      LastStepWins(init);
      assert Reverse(steps)[1..] == Reverse(init);
    }
  }

  lemma {:induction false} CoveredAppend(cs: seq<Cuboid>, c: Cuboid)
    ensures Covered(cs + [c]) == Covered(cs) + Points(c)
    decreases |cs|
  {
    if cs != [] {
      assert (cs + [c])[1..] == cs[1..] + [c];
      CoveredAppend(cs[1..], c);
    } else {
      assert Covered([c]) == Points(c) + Covered([]);
    }
  }

  lemma {:induction false} CuboidsFront(steps: seq<Step>)
    requires steps != []
    ensures Cuboids(steps) == [steps[0].cuboid] + Cuboids(steps[1..])
    decreases |steps|
  {
    if |steps| > 1 {
      CuboidsFront(steps[..|steps| - 1]);
      assert steps[..|steps| - 1][1..] == steps[1..][..|steps| - 2];
    } else {
      assert steps[..0] == [];
    }
  }

  lemma {:induction false} FirstWinsCovered(instructions: seq<Step>)
    ensures FirstWins(instructions) <= Covered(Cuboids(instructions))
    decreases |instructions|
  {
    if instructions != [] {
      FirstWinsCovered(instructions[1..]);
      CuboidsFront(instructions);
      assert Cuboids(instructions)[1..] == Cuboids(instructions[1..]);
    }
  }

  /** An appended step adds its own cubes not covered by any earlier step, if it is "on"; nothing else changes. */
  lemma {:induction false} FirstWinsAppend(instructions: seq<Step>, s: Step)
    ensures FirstWins(instructions + [s])
         == FirstWins(instructions) + (if s.on then Points(s.cuboid) - Covered(Cuboids(instructions)) else {})
    decreases |instructions|
  {
    var added := if s.on then Points(s.cuboid) - Covered(Cuboids(instructions)) else {};
    if instructions == [] {
      assert FirstWins([s]) == (if s.on then Points(s.cuboid) else {}) + (FirstWins([]) - Points(s.cuboid));
    } else {
      var first, rest := instructions[0], instructions[1..];
      assert (instructions + [s])[1..] == rest + [s];
      FirstWinsAppend(rest, s);
      CuboidsFront(instructions);
      assert Cuboids(instructions)[1..] == Cuboids(rest);
      assert Covered(Cuboids(instructions)) == Points(first.cuboid) + Covered(Cuboids(rest));
    }
  }

  lemma AddUncovered<T>(lit: set<T>, p: set<T>, cov: set<T>)
    requires lit <= cov
    ensures |lit + (p - cov)| == |lit| + |p| - |p * cov|
  {
    assert lit * (p - cov) == {};
    CardUnion(lit, p - cov);
    assert p == (p - cov) + p * cov;
    CardUnion(p - cov, p * cov);
  }

  /** One step of the counting loop: the count grows by exactly the cubes the new "on" step adds. */
  lemma CountStep(instructions: seq<Step>, s: Step)
    requires NonEmpty(s.cuboid)
    ensures |FirstWins(instructions + [s])|
         == |FirstWins(instructions)| + (if s.on then Volume(s.cuboid) - OverlapsVolume(s.cuboid, Cuboids(instructions)) else 0)
  {
    FirstWinsAppend(instructions, s);
    if s.on {
      FirstWinsCovered(instructions);
      AddUncovered(FirstWins(instructions), Points(s.cuboid), Covered(Cuboids(instructions)));
      VolumeCountsPoints(s.cuboid);
      OverlapsVolumeCounts(s.cuboid, Cuboids(instructions));
    }
  }

  /** Part 2: the number of cubes that are on after all steps. */
  method Reboot(steps: seq<Step>) returns (on: int)
    requires forall s <- steps :: NonEmpty(s.cuboid)
    ensures on == |Lit(steps)|
  {
    var instructions := Reverse(steps);
    ReverseKeeps(steps);
    forall k | 0 <= k < |instructions|
      ensures NonEmpty(instructions[k].cuboid)
    {
      assert instructions[k] in Reverse(steps);
    }
    on := CountOn(instructions);
    LastStepWins(steps);
  }

  /** The loop of part 2 over the reversed steps: each "on" step adds its volume less what later steps cover. */
  method CountOn(instructions: seq<Step>) returns (on: int)
    requires forall k | 0 <= k < |instructions| :: NonEmpty(instructions[k].cuboid)
    ensures on == |FirstWins(instructions)|
  {
    on := 0;
    var cubes: seq<Cuboid> := [];
    for k := 0 to |instructions|
      invariant CountedUpTo(instructions, k, on, cubes)
    {
      var cuboid := instructions[k].cuboid;
      ghost var prefix := instructions[..k];
      assert instructions[..k + 1] == prefix + [instructions[k]];
      CountStep(prefix, instructions[k]);
      if instructions[k].on {
        on := on + (Volume(cuboid) - OverlapsVolume(cuboid, cubes));
      }
      cubes := cubes + [cuboid];
    }
    assert instructions[..|instructions|] == instructions;
  }

  /** The state of the counting loop after k steps: the cuboids seen, and the cubes their "on" steps decide. */
  ghost predicate CountedUpTo(instructions: seq<Step>, k: nat, on: int, cubes: seq<Cuboid>)
  {
    k <= |instructions| && cubes == Cuboids(instructions[..k]) && on == |FirstWins(instructions[..k])|
  }

  lemma {:induction false} ReverseKeeps<T>(s: seq<T>)
    ensures forall x <- Reverse(s) :: x in s
    decreases |s|
  {
    if s != [] {
      ReverseKeeps(s[..|s| - 1]);
    }
  }

  /** The initialization region: every bound within -50..50. */
  predicate InRegion(c: Cuboid)
  {
    c.x.min >= -50 && c.x.max <= 50 && c.y.min >= -50 && c.y.max <= 50 && c.z.min >= -50 && c.z.max <= 50
  }

  /** The steps part 1 considers: those whose cuboid lies wholly inside the region, in order. */
  function Initialization(steps: seq<Step>): (r: seq<Step>)
    ensures forall s <- r :: s in steps && InRegion(s.cuboid)
    decreases |steps|
  {
    if steps == [] then []
    else
      var last := steps[|steps| - 1];
      Initialization(steps[..|steps| - 1]) + (if InRegion(last.cuboid) then [last] else [])
  }

  lemma {:induction false} InitializationFront(steps: seq<Step>)
    requires steps != []
    ensures Initialization(steps) == (if InRegion(steps[0].cuboid) then [steps[0]] else []) + Initialization(steps[1..])
    decreases |steps|
  {
    if |steps| > 1 {
      InitializationFront(steps[..|steps| - 1]);
      assert steps[..|steps| - 1][1..] == steps[1..][..|steps| - 2];
    } else {
      assert steps[..0] == [];
      assert steps[1..] == [];
    }
  }

  lemma {:induction false} ReverseAppend<T>(a: seq<T>, b: seq<T>)
    ensures Reverse(a + b) == Reverse(b) + Reverse(a)
    decreases |b|
  {
    if b == [] {
      assert a + b == a;
    } else {
      assert (a + b)[..|a + b| - 1] == a + b[..|b| - 1];
      ReverseAppend(a, b[..|b| - 1]);
    }
  }

  lemma {:induction false} InitializationOfReverse(steps: seq<Step>)
    ensures Initialization(Reverse(steps)) == Reverse(Initialization(steps))
    decreases |steps|
  {
    if steps != [] {
      var init, last := steps[..|steps| - 1], steps[|steps| - 1];
      InitializationOfReverse(init);
      InitializationFront(Reverse(steps));
      assert Reverse(steps)[1..] == Reverse(init);
      var kept := if InRegion(last.cuboid) then [last] else [];
      ReverseAppend(Initialization(init), kept);
      assert Reverse(kept) == kept;
    }
  }

  /** One step of the part 1 loop: a step outside the region changes nothing. */
  lemma InitializationStep(instructions: seq<Step>, k: nat)
    requires k < |instructions| && NonEmpty(instructions[k].cuboid)
    ensures var kept, s := Initialization(instructions[..k]), instructions[k];
      var kept' := Initialization(instructions[..k + 1]);
      Cuboids(kept') == Cuboids(kept) + (if InRegion(s.cuboid) then [s.cuboid] else []) &&
      |FirstWins(kept')| == |FirstWins(kept)|
        + (if InRegion(s.cuboid) && s.on then Volume(s.cuboid) - OverlapsVolume(s.cuboid, Cuboids(kept)) else 0)
  {
    var kept, s := Initialization(instructions[..k]), instructions[k];
    assert instructions[..k + 1][..k] == instructions[..k];
    if InRegion(s.cuboid) {
      assert Initialization(instructions[..k + 1]) == kept + [s];
      assert (kept + [s])[..|kept|] == kept;
      CountStep(kept, s);
    } else {
      assert Initialization(instructions[..k + 1]) == kept;
    }
  }

  /** Part 1: the number of cubes that are on after the steps inside the initialization region. */
  method InitializationReboot(steps: seq<Step>) returns (on: int)
    requires forall s <- steps :: NonEmpty(s.cuboid)
    ensures on == |Lit(Initialization(steps))|
  {
    var instructions := Reverse(steps);
    ReverseKeeps(steps);
    on := 0;
    var cubes: seq<Cuboid> := [];
    for k := 0 to |instructions|
      invariant cubes == Cuboids(Initialization(instructions[..k]))
      invariant on == |FirstWins(Initialization(instructions[..k]))|
    {
      var cuboid := instructions[k].cuboid;
      InitializationStep(instructions, k);
      if InRegion(cuboid) {
        if instructions[k].on {
          on := on + (Volume(cuboid) - OverlapsVolume(cuboid, cubes));
        }
        cubes := cubes + [cuboid];
      }
    }
    assert instructions[..|instructions|] == instructions;
    InitializationOfReverse(steps);
    LastStepWins(Initialization(steps));
  }
}
