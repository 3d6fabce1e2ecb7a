/**
 * Lens Library (2023, day 15): the HASH of a string picks one of 256 boxes;
 * instructions `label-` and `label=N` remove a lens from its box or put one
 * in (replacing the focal length of a lens with the same label in place),
 * and the focusing power weighs every lens by its box and slot.
 */
module LensLibrary {
  import opened Common
  import opened Strings

  const Boxes: nat := 256

  /** One step of `hash`'s reduce: add the character code, multiply by 17, keep the low 8 bits. */
  function HashStep(acc: nat, c: char): (r: nat)
    ensures r < Boxes
  {
    (17 * (acc + c as int)) % 256
  }

  /** The reduce from `acc` over the characters, first to last. */
  function HashFrom(acc: nat, s: string): (r: nat)
    ensures s == [] ==> r == acc
    ensures s != [] ==> r < Boxes
    decreases |s|
  {
    if s == [] then acc else HashFrom(HashStep(acc, s[0]), s[1..])
  }

  /** `hash`: the reduce from 0. */
  function Hash(s: string): nat
  {
    HashFrom(0, s)
  }

  /** Every hash names a box, and the empty string goes to box 0. */
  lemma HashRange(s: string)
    ensures Hash(s) < Boxes
    ensures s == [] ==> Hash(s) == 0
  {
  }

  /** Hashing a concatenation continues from the hash of the first part. */
  lemma {:induction false} HashConcat(acc: nat, a: string, b: string)
    ensures HashFrom(acc, a + b) == HashFrom(HashFrom(acc, a), b)
    decreases |a|
  {
    if a == [] {
      assert a + b == b;
    } else {
      assert (a + b)[0] == a[0] && (a + b)[1..] == a[1..] + b;
      HashConcat(HashStep(acc, a[0]), a[1..], b);
    }
  }

  /** Appending one character applies one more step to the hash. */
  lemma HashSnoc(s: string, c: char)
    ensures Hash(s + [c]) == HashStep(Hash(s), c)
  {
    HashConcat(0, s, [c]);
  }

  datatype Lens = Lens(name: string, focalLength: nat)

  datatype Operation = Remove | Insert(focalLength: nat)

  /** What the regular expression `([a-z]+)(-|(=\d+))` extracts from an instruction. */
  datatype Instruction = Instruction(name: string, op: Operation)

  predicate IsLower(c: char) { 'a' <= c <= 'z' }

  predicate AllLower(s: string) { forall i | 0 <= i < |s| :: IsLower(s[i]) }

  /** The end of the run of lower-case letters starting at i. */
  function LetterRunEnd(s: string, i: nat): (j: nat)
    requires i <= |s|
    ensures i <= j <= |s|
    ensures forall k | i <= k < j :: IsLower(s[k])
    ensures j < |s| ==> !IsLower(s[j])
    decreases |s| - i
  {
    if i < |s| && IsLower(s[i]) then LetterRunEnd(s, i + 1) else i
  }

  /**
   * A match of the pattern starting at i. The greedy `[a-z]+` can only be
   * followed by `-` or `=` at the end of the letter run, and `-` is tried
   * before `=\d+`, whose digits are taken greedily.
   */
  function MatchAt(s: string, i: nat): Option<Instruction>
    requires i < |s|
  {
    if !IsLower(s[i]) then None
    else
      var j := LetterRunEnd(s, i);
      if j < |s| && s[j] == '-' then Some(Instruction(s[i..j], Remove))
      else if j + 1 < |s| && s[j] == '=' && IsDigit(s[j + 1]) then
        var digits := s[j + 1..][..DigitPrefixLength(s[j + 1..])];
        Some(Instruction(s[i..j], Insert(DecimalValue(digits))))
      else None
  }

  /** The leftmost match, as `String.prototype.match` finds it; None is the `null` the `!` would not catch. */
  function ParseFrom(s: string, i: nat): Option<Instruction>
    decreases |s| - i
  {
    if i >= |s| then None
    else match MatchAt(s, i)
      case Some(ins) => Some(ins)
      case None => ParseFrom(s, i + 1)
  }

  function Parse(s: string): Option<Instruction>
  {
    ParseFrom(s, 0)
  }

  /** The instruction text for a lens label and operation. */
  function Format(ins: Instruction): string
  {
    match ins.op
    case Remove => ins.name + "-"
    case Insert(f) => ins.name + "=" + NatToDecimal(f)
  }

  lemma {:induction false} DigitPrefixAll(t: string, rest: string)
    requires AllDigits(t) && (rest == [] || !IsDigit(rest[0]))
    ensures DigitPrefixLength(t + rest) == |t|
  {
    if t != [] {
      assert (t + rest)[1..] == t[1..] + rest;
      DigitPrefixAll(t[1..], rest);
    }
  }

  /** An instruction with a non-empty lower-case label reads back from its text. */
  lemma ParseFormat(ins: Instruction)
    requires ins.name != [] && AllLower(ins.name)
    ensures Parse(Format(ins)) == Some(ins)
  {
    var s := Format(ins);
    var n := |ins.name|;
    assert s[..n] == ins.name;
    assert LetterRunEnd(s, 0) == n by {
      var j := LetterRunEnd(s, 0);
      assert !IsLower(s[n]);
    }
    match ins.op {
      case Remove =>
      case Insert(f) =>
        var digits := NatToDecimal(f);
        assert s[n] == '=' && s[n + 1..] == digits + [];
        DigitPrefixAll(digits, []);
        assert s[n + 1..][..|digits|] == digits;
        assert s[n + 1] == digits[0];
        DecimalRoundTrip(f);
    }
  }

  /** No two lenses of a box share a label. */
  predicate DistinctLabels(box: seq<Lens>)
  {
    forall i, j | 0 <= i < j < |box| :: box[i].name != box[j].name
  }

  /** The slot of the first lens with the label, or |box| when there is none (`findBy`). */
  function Slot(box: seq<Lens>, name: string): (k: nat)
    ensures k <= |box|
    ensures k < |box| ==> box[k].name == name
    ensures forall i | 0 <= i < k :: box[i].name != name
  {
    if box == [] then 0
    else if box[0].name == name then 0
    else 1 + Slot(box[1..], name)
  }

  /** `removeBy(lens => lens.label === label)`: the box without the lenses with that label, in order. */
  function Without(box: seq<Lens>, name: string): (r: seq<Lens>)
    ensures |r| <= |box|
  {
    if box == [] then []
    else if box[0].name == name then Without(box[1..], name)
    else [box[0]] + Without(box[1..], name)
  }

  /** The `=` case: the lens with the label gets the new focal length where it is, or a new lens goes at the back. */
  function Upsert(box: seq<Lens>, name: string, f: nat): seq<Lens>
  {
    var k := Slot(box, name);
    if k < |box| then box[k := Lens(name, f)] else box + [Lens(name, f)]
  }

  /** Whatever the labels, removing leaves only lenses of the box, none with the label. */
  lemma {:induction false} WithoutOnlyOthers(box: seq<Lens>, name: string)
    ensures forall lens | lens in Without(box, name) :: lens in box && lens.name != name
  {
    if box != [] {
      WithoutOnlyOthers(box[1..], name);
    }
  }

  /** Removing distributes over concatenation. */
  lemma {:induction false} WithoutConcat(a: seq<Lens>, b: seq<Lens>, name: string)
    ensures Without(a + b, name) == Without(a, name) + Without(b, name)
  {
    if a == [] {
      assert a + b == b;
    } else {
      assert (a + b)[0] == a[0] && (a + b)[1..] == a[1..] + b;
      WithoutConcat(a[1..], b, name);
    }
  }

  /** A box without the label is left as it is. */
  lemma {:induction false} WithoutAbsent(box: seq<Lens>, name: string)
    requires forall i | 0 <= i < |box| :: box[i].name != name
    ensures Without(box, name) == box
  {
    if box != [] {
      WithoutAbsent(box[1..], name);
      assert box == [box[0]] + box[1..];
    }
  }

  /** On a box with distinct labels, removing drops exactly the one lens with the label, if any, keeping the order. */
  lemma WithoutDistinct(box: seq<Lens>, name: string)
    requires DistinctLabels(box)
    ensures Slot(box, name) < |box| ==>
      Without(box, name) == box[..Slot(box, name)] + box[Slot(box, name) + 1..]
    ensures Slot(box, name) == |box| ==> Without(box, name) == box
  {
    var k := Slot(box, name);
    if k < |box| {
      WithoutFound(box, name, k);
    } else {
      WithoutAbsent(box, name);
    }
  }

  /** The lens at slot k is the only one with the label, so removing drops just it. */
  lemma WithoutFound(box: seq<Lens>, name: string, k: nat)
    requires DistinctLabels(box) && k < |box| && box[k].name == name
    requires forall i | 0 <= i < k :: box[i].name != name
    ensures Without(box, name) == box[..k] + box[k + 1..]
  {
    var front, back := box[..k], box[k + 1..];
    assert box == front + ([box[k]] + back);
    WithoutConcat(front, [box[k]] + back, name);
    WithoutConcat([box[k]], back, name);
    WithoutAbsent(front, name);
    forall i | 0 <= i < |back| ensures back[i].name != name {
      assert back[i] == box[k + 1 + i];
      assert box[k].name != box[k + 1 + i].name;
    }
    WithoutAbsent(back, name);
    assert Without([box[k]], name) == [];
  }

  /** Removing keeps the labels distinct. */
  lemma WithoutKeepsDistinct(box: seq<Lens>, name: string)
    requires DistinctLabels(box)
    ensures DistinctLabels(Without(box, name))
  {
    WithoutDistinct(box, name);
    var k := Slot(box, name);
    if k < |box| {
      var r := Without(box, name);
      forall i, j | 0 <= i < j < |r|
        ensures r[i].name != r[j].name
      {
        var i' := if i < k then i else i + 1;
        var j' := if j < k then j else j + 1;
        assert r[i] == box[i'] && r[j] == box[j'];
      }
    }
  }

  /**
   * On a box with distinct labels, `=` keeps the labels distinct, leaves
   * the lens with the label holding the new focal length, and changes no
   * other lens; the box grows by one lens exactly when the label was absent.
   */
  lemma UpsertFacts(box: seq<Lens>, name: string, f: nat)
    requires DistinctLabels(box)
    ensures DistinctLabels(Upsert(box, name, f))
    ensures Slot(Upsert(box, name, f), name) < |Upsert(box, name, f)|
    ensures Upsert(box, name, f)[Slot(Upsert(box, name, f), name)] == Lens(name, f)
    ensures |Upsert(box, name, f)| == if Slot(box, name) < |box| then |box| else |box| + 1
    ensures forall i | 0 <= i < |box| && box[i].name != name :: Upsert(box, name, f)[i] == box[i]
  {
    var k := Slot(box, name);
    var r := Upsert(box, name, f);
    assert r[k].name == name;
    assert Slot(r, name) == k by {
      assert forall i | 0 <= i < k :: r[i] == box[i];
    }
  }

  /** Setting the same label twice keeps only the second focal length. */
  lemma UpsertTwice(box: seq<Lens>, name: string, f: nat, g: nat)
    ensures Upsert(Upsert(box, name, f), name, g) == Upsert(box, name, g)
  {
    var k := Slot(box, name);
    var r := Upsert(box, name, f);
    assert r[k].name == name;
    assert Slot(r, name) == k by {
      assert forall i | 0 <= i < k :: r[i] == box[i];
    }
  }

  /** Removing a label after setting it is the same as removing it right away. */
  lemma {:induction false} WithoutUpsert(box: seq<Lens>, name: string, f: nat)
    ensures Without(Upsert(box, name, f), name) == Without(box, name)
  {
    if box != [] && box[0].name != name {
      var rest := box[1..];
      WithoutUpsert(rest, name, f);
      assert Upsert(box, name, f) == [box[0]] + Upsert(rest, name, f);
      assert ([box[0]] + Upsert(rest, name, f))[1..] == Upsert(rest, name, f);
    } else if box != [] {
      var r := Upsert(box, name, f);
      assert r == [Lens(name, f)] + box[1..];
      assert r[1..] == box[1..];
    } else {
      assert Upsert(box, name, f) == [Lens(name, f)];
    }
  }

  /** The boxes after one instruction. */
  function Apply(boxes: seq<seq<Lens>>, ins: Instruction): (r: seq<seq<Lens>>)
    requires |boxes| == Boxes
    ensures |r| == Boxes
  {
    HashRange(ins.name);
    var b := Hash(ins.name);
    match ins.op
    case Remove => boxes[b := Without(boxes[b], ins.name)]
    case Insert(f) => boxes[b := Upsert(boxes[b], ins.name, f)]
  }

  /** Only the box the label hashes to changes. */
  lemma ApplyOtherBoxes(boxes: seq<seq<Lens>>, ins: Instruction, b: nat)
    requires |boxes| == Boxes && b < Boxes && b != Hash(ins.name)
    ensures Apply(boxes, ins)[b] == boxes[b]
  {
  }

  /** Power of the first n lenses of box b: Σ (b + 1) × slot × focal length. */
  function BoxPower(box: seq<Lens>, b: nat, n: nat): nat
    requires n <= |box|
  {
    if n == 0 then 0 else BoxPower(box, b, n - 1) + (b + 1) * n * box[n - 1].focalLength
  }

  /** Power of the first n boxes. */
  function PowerUpTo(boxes: seq<seq<Lens>>, n: nat): nat
    requires n <= |boxes|
  {
    if n == 0 then 0 else PowerUpTo(boxes, n - 1) + BoxPower(boxes[n - 1], n - 1, |boxes[n - 1]|)
  }

  function Power(boxes: seq<seq<Lens>>): nat
  {
    PowerUpTo(boxes, |boxes|)
  }

  lemma MulDistributes(x: int, y: int, d: int)
    ensures x * (y + d) == x * y + x * d
  {
  }

  /** Changing the focal length of the lens in slot j changes the power by its weight times the change. */
  lemma {:induction false} BoxPowerUpdate(box: seq<Lens>, b: nat, n: nat, j: nat, f: nat)
    requires n <= |box| && j < |box|
    ensures BoxPower(box[j := box[j].(focalLength := f)], b, n) ==
      BoxPower(box, b, n) + (if j < n then (b + 1) * (j + 1) * (f - box[j].focalLength) else 0)
  {
    if n > 0 {
      BoxPowerUpdate(box, b, n - 1, j, f);
      if n - 1 == j {
        MulDistributes((b + 1) * n, box[j].focalLength, f - box[j].focalLength);
      }
    }
  }

  /** Putting a new lens at the back of box b adds (b + 1) × its slot × its focal length. */
  lemma BoxPowerAppend(box: seq<Lens>, b: nat, lens: Lens)
    ensures BoxPower(box + [lens], b, |box| + 1) == BoxPower(box, b, |box|) + (b + 1) * (|box| + 1) * lens.focalLength
  {
    BoxPowerPrefix(box, b, |box|, lens);
    assert (box + [lens])[|box|] == lens;
  }

  lemma {:induction false} BoxPowerPrefix(box: seq<Lens>, b: nat, n: nat, lens: Lens)
    requires n <= |box|
    ensures BoxPower(box + [lens], b, n) == BoxPower(box, b, n)
  {
    if n > 0 {
      BoxPowerPrefix(box, b, n - 1, lens);
      assert (box + [lens])[n - 1] == box[n - 1];
    }
  }

  /** An empty box has no power, so the configuration starts at 0. */
  lemma {:induction false} EmptyPower(n: nat)
    requires n <= Boxes
    ensures PowerUpTo(seq(Boxes, _ => []), n) == 0
  {
    if n > 0 {
      EmptyPower(n - 1);
      var empty: seq<seq<Lens>> := seq(Boxes, _ => []);
      assert empty[n - 1] == [];
    }
  }

  /** The 256 boxes, each a list of lenses front to back. */
  class LensConfiguration {
    var boxes: seq<seq<Lens>>

    predicate Valid()
      reads this
    {
      |boxes| == Boxes && forall b | 0 <= b < Boxes :: DistinctLabels(boxes[b])
    }

    constructor ()
      ensures Valid() && boxes == seq(Boxes, _ => [])
    {
      boxes := seq(Boxes, _ => []);
    }

    /**
     * `processInstruction`: the instruction must contain a match of the
     * pattern (otherwise the source's destructuring of `null` throws).
     */
    method ProcessInstruction(instruction: string)
      requires Valid() && Parse(instruction).Some?
      modifies this
      ensures Valid() && boxes == Apply(old(boxes), Parse(instruction).value)
    {
      var ins := Parse(instruction).value;
      var name := ins.name;
      HashRange(name);
      var box := Hash(name);
      match ins.op {
        case Remove =>
          WithoutKeepsDistinct(boxes[box], name);
          boxes := boxes[box := Without(boxes[box], name)];
        case Insert(focalLength) =>
          UpsertFacts(boxes[box], name, focalLength);
          boxes := boxes[box := Upsert(boxes[box], name, focalLength)];
      }
    }

    /** `focusingPower`: the double loop over boxes and slots. */
    method FocusingPower() returns (sum: nat)
      ensures sum == Power(boxes)
    {
      sum := 0;
      var i := 0;
      while i < |boxes|
        invariant 0 <= i <= |boxes|
        invariant sum == PowerUpTo(boxes, i)
      {
        var lenses := boxes[i];
        var j := 1;
        while j <= |lenses|
          invariant 1 <= j <= |lenses| + 1
          invariant sum == PowerUpTo(boxes, i) + BoxPower(lenses, i, j - 1)
        {
          sum := sum + (i + 1) * j * lenses[j - 1].focalLength;
          j := j + 1;
        }
        i := i + 1;
      }
    }
  }
}
