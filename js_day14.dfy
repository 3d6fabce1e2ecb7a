/**
 * Docking Data: a program of `mask = ...` and `mem[a] = v` lines writes
 * 36-bit values to memory through a bitmask. In the first version the
 * mask overwrites bits of the value; in the decoder version it turns the
 * address into every address its floating bits 'X' can stand for. The
 * answer is the sum of the memory.
 */
module DockingData {
  import opened Common
  import opened Bits

  /** The digit '1' for an odd number, '0' for an even one. */
  function BitChar(b: nat): char
  {
    if b % 2 == 1 then '1' else '0'
  }

  /** `Number.prototype.toString(2)`: the binary digits, "0" for zero. */
  function ToBinary(v: nat): (s: string)
    ensures |s| >= 1
  {
    if v < 2 then [BitChar(v)] else ToBinary(v / 2) + [BitChar(v % 2)]
  }

  /** `String.prototype.padStart(w, '0')`. */
  function PadStart(s: string, w: nat): string
  {
    if |s| >= w then s else Repeat('0', w - |s|) + s
  }

  /** `value.toString(2).padStart(36, '0')`. */
  function Bin36(v: nat): string
  {
    PadStart(ToBinary(v), 36)
  }

  /** The w lowest bits of v, most significant first. */
  function LowBits(v: nat, w: nat): (s: string)
    ensures |s| == w
  {
    if w == 0 then [] else LowBits(v / 2, w - 1) + [BitChar(v % 2)]
  }

  predicate Binary(s: string)
  {
    forall i | 0 <= i < |s| :: s[i] == '0' || s[i] == '1'
  }

  /** A mask: 36 characters, each '0', '1' or 'X'. */
  predicate ValidMask(mask: string)
  {
    |mask| == 36 && forall i | 0 <= i < |mask| :: mask[i] == '0' || mask[i] == '1' || mask[i] == 'X'
  }

  lemma {:induction false} ToBinaryLength(v: nat, w: nat)
    requires 1 <= w && v < Pow2(w)
    ensures |ToBinary(v)| <= w
  {
    if v >= 2 {
      ToBinaryLength(v / 2, w - 1);
    }
  }

  lemma {:induction false} ZeroBits(k: nat)
    ensures LowBits(0, k) == Repeat('0', k)
  {
    if k > 0 {
      ZeroBits(k - 1);
    }
  }

  /** For a value that fits, the padded binary string is its low bits. */
  lemma {:induction false} PaddedIsBits(v: nat, w: nat)
    requires 1 <= w && v < Pow2(w)
    ensures PadStart(ToBinary(v), w) == LowBits(v, w)
  {
    if v < 2 {
      ZeroBits(w - 1);
      assert v / 2 == 0;
    } else {
      PaddedIsBits(v / 2, w - 1);
      ToBinaryLength(v / 2, w - 1);
      var t := ToBinary(v / 2);
      if |t| < w - 1 {
        assert Repeat('0', w - 1 - |t|) + t + [BitChar(v % 2)] == Repeat('0', w - |ToBinary(v)|) + ToBinary(v);
      }
    }
  }

  lemma BinaryValueSnoc(s: string, c: char)
    ensures BinaryValue(s + [c]) == 2 * BinaryValue(s) + (if c == '1' then 1 else 0)
  {
    assert (s + [c])[..|s|] == s;
  }

  /** `parseInt(_, 2)` of the low bits gives the value back modulo 2^w. */
  lemma {:induction false} BitsValue(v: nat, w: nat)
    ensures BinaryValue(LowBits(v, w)) == v % Pow2(w)
  {
    if w > 0 {
      var p := Pow2(w - 1);
      var low := LowBits(v / 2, w - 1);
      BitsValue(v / 2, w - 1);
      BinaryValueSnoc(low, BitChar(v % 2));
      ModSplit(v, p);
      assert LowBits(v, w) == low + [BitChar(v % 2)];
      assert (if BitChar(v % 2) == '1' then 1 else 0) == v % 2;
      assert BinaryValue(LowBits(v, w)) == 2 * ((v / 2) % p) + v % 2;
      assert Pow2(w) == 2 * p;
    }
  }

  lemma ModSplit(v: nat, p: nat)
    requires p > 0
    ensures v % (2 * p) == 2 * ((v / 2) % p) + v % 2
  {
    ModDouble(v, p);
    var m := v % (2 * p);
    assert m == 2 * (m / 2) + m % 2;
  }

  /** The low bits of `parseInt(s, 2)` give the binary string back. */
  lemma {:induction false} ValueBits(s: string)
    requires Binary(s)
    ensures LowBits(BinaryValue(s), |s|) == s
  {
    if s != [] {
      var init := s[..|s| - 1];
      ValueBits(init);
      var b := if s[|s| - 1] == '1' then 1 else 0;
      assert BinaryValue(s) == 2 * BinaryValue(init) + b;
      assert BinaryValue(s) / 2 == BinaryValue(init) && BinaryValue(s) % 2 == b;
      assert s == init + [s[|s| - 1]];
    }
  }

  /** The masked string: the value's digit where the mask has 'X', the mask's digit elsewhere. */
  function Masked(mask: string, bin: string): string
    requires |mask| <= |bin|
  {
    seq(|mask|, i requires 0 <= i < |mask| => if mask[i] == 'X' then bin[i] else mask[i])
  }

  /** What `maskValue(mask, value)` returns. */
  function MaskedValue(mask: string, value: nat): nat
    requires ValidMask(mask)
  {
    ToBinaryLengthAtLeast(value);
    BinaryValue(Masked(mask, Bin36(value)))
  }

  lemma ToBinaryLengthAtLeast(v: nat)
    ensures |Bin36(v)| >= 36
  {
  }

  /** `maskValue`: the loop appends one masked digit per mask position. */
  method MaskValue(mask: string, value: nat) returns (r: nat)
    requires ValidMask(mask)
    ensures r == MaskedValue(mask, value)
  {
    var bin := Bin36(value);
    var masked := "";
    for i := 0 to |mask|
      invariant |masked| == i
      invariant forall j | 0 <= j < i :: masked[j] == (if mask[j] == 'X' then bin[j] else mask[j])
    {
      masked := masked + [if mask[i] == 'X' then bin[i] else mask[i]];
    }
    assert masked == Masked(mask, bin);
    r := BinaryValue(masked);
  }

  /**
   * For a 36-bit value the result is a 36-bit value whose bits are the
   * value's bits where the mask has 'X' and the mask's bits elsewhere.
   */
  lemma MaskValueMeaning(mask: string, value: nat)
    requires ValidMask(mask) && value < Pow2(36)
    ensures MaskedValue(mask, value) < Pow2(36)
    ensures LowBits(MaskedValue(mask, value), 36) == Masked(mask, LowBits(value, 36))
  {
    PaddedIsBits(value, 36);
    BinaryBits(value, 36);
    var m := Masked(mask, LowBits(value, 36));
    assert Binary(m);
    ValueBits(m);
  }

  lemma BinaryBits(v: nat, w: nat)
    ensures Binary(LowBits(v, w))
  {
    var s := LowBits(v, w);
    forall i | 0 <= i < |s| ensures s[i] == '0' || s[i] == '1' {
      BitsChar(v, w, i);
    }
  }

  lemma {:induction false} BitsChar(v: nat, w: nat, i: nat)
    requires i < w
    ensures LowBits(v, w)[i] == '0' || LowBits(v, w)[i] == '1'
  {
    if i < w - 1 {
      BitsChar(v / 2, w - 1, i);
    }
  }

  /** Masking twice with the same mask is masking once. */
  lemma MaskIdempotent(mask: string, value: nat)
    requires ValidMask(mask) && value < Pow2(36)
    ensures MaskedValue(mask, MaskedValue(mask, value)) == MaskedValue(mask, value)
  {
    var r := MaskedValue(mask, value);
    MaskValueMeaning(mask, value);
    PaddedIsBits(r, 36);
    PaddedIsBits(value, 36);
    assert Masked(mask, Masked(mask, LowBits(value, 36))) == Masked(mask, LowBits(value, 36));
  }

  /** A mask of only 'X' leaves a 36-bit value as it is. */
  lemma MaskAllFloating(mask: string, value: nat)
    requires ValidMask(mask) && forall i | 0 <= i < |mask| :: mask[i] == 'X'
    requires value < Pow2(36)
    ensures MaskedValue(mask, value) == value
  {
    var bin := Bin36(value);
    PaddedIsBits(value, 36);
    assert bin == LowBits(value, 36);
    assert Masked(mask, bin) == bin;
    assert MaskedValue(mask, value) == BinaryValue(LowBits(value, 36));
    BitsValue(value, 36);
    SmallMod(value, Pow2(36));
  }

  lemma SmallMod(a: nat, m: nat)
    requires a < m
    ensures a % m == a
  {
  }

  /** The reduce of one mask position over the addresses built so far. */
  function Expand(addresses: seq<string>, m: char, b: char): (r: seq<string>)
    ensures m == 'X' ==> |r| == 2 * |addresses|
    ensures m == '1' || m == '0' ==> |r| == |addresses|
  {
    if addresses == [] then []
    else
      var e := addresses[|addresses| - 1];
      Expand(addresses[..|addresses| - 1], m, b) + Piece(e, m, b)
  }

  /** What one address string becomes: '1' appends 1, '0' the source digit, 'X' both, 1 first. */
  function Piece(e: string, m: char, b: char): seq<string>
  {
    if m == '1' then [e + ['1']] else if m == '0' then [e + [b]] else if m == 'X' then [e + ['1'], e + ['0']] else []
  }

  lemma PieceMembers(e: string, m: char, b: char, s: string)
    ensures s in Piece(e, m, b) <==> |s| >= 1 && s[..|s| - 1] == e && Allowed(m, b, s[|s| - 1])
  {
    if |s| >= 1 && s[..|s| - 1] == e {
      assert s == e + [s[|s| - 1]];
    }
  }

  /** The address strings after the first |mask| positions. */
  function DecodeStrings(mask: string, bin: string): seq<string>
    requires |mask| <= |bin|
  {
    if mask == [] then [""]
    else Expand(DecodeStrings(mask[..|mask| - 1], bin), mask[|mask| - 1], bin[|mask| - 1])
  }

  /** What `decodeMemoryAddresses(mask, source)` returns. */
  function DecodedAddresses(mask: string, source: nat): seq<nat>
    requires ValidMask(mask)
  {
    ToBinaryLengthAtLeast(source);
    var strings := DecodeStrings(mask, Bin36(source));
    seq(|strings|, j requires 0 <= j < |strings| => BinaryValue(strings[j]))
  }

  /** `decodeMemoryAddresses`: one reduce per mask position, then `parseInt` of each string. */
  method DecodeMemoryAddresses(mask: string, source: nat) returns (r: seq<nat>)
    requires ValidMask(mask)
    ensures r == DecodedAddresses(mask, source)
  {
    var addresses := [""];
    var bin := Bin36(source);
    for i := 0 to |mask|
      invariant addresses == DecodeStrings(mask[..i], bin)
    {
      assert mask[..i + 1][..i] == mask[..i];
      addresses := Expand(addresses, mask[i], bin[i]);
    }
    assert mask[..|mask|] == mask;
    r := seq(|addresses|, j requires 0 <= j < |addresses| => BinaryValue(addresses[j]));
  }

  function CountFloating(mask: string): nat
  {
    if mask == [] then 0 else CountFloating(mask[..|mask| - 1]) + (if mask[|mask| - 1] == 'X' then 1 else 0)
  }

  predicate ValidPrefix(mask: string)
  {
    forall i | 0 <= i < |mask| :: mask[i] == '0' || mask[i] == '1' || mask[i] == 'X'
  }

  /** Decoding gives 2^(number of 'X') addresses. */
  lemma {:induction false} DecodeCount(mask: string, bin: string)
    requires |mask| <= |bin| && ValidPrefix(mask)
    ensures |DecodeStrings(mask, bin)| == Pow2(CountFloating(mask))
  {
    if mask != [] {
      var init := mask[..|mask| - 1];
      var c := mask[|mask| - 1];
      assert ValidPrefix(init) by {
        assert forall i | 0 <= i < |init| :: init[i] == mask[i];
      }
      DecodeCount(init, bin);
      var k := CountFloating(init);
      if c == 'X' {
        assert Pow2(k + 1) == 2 * Pow2(k);
      }
    }
  }

  /** The digit c may stand at a position with mask digit m and source digit b. */
  predicate Allowed(m: char, b: char, c: char)
  {
    if m == '1' then c == '1' else if m == '0' then c == b else m == 'X' && (c == '0' || c == '1')
  }

  lemma {:induction false} ExpandMembers(addresses: seq<string>, m: char, b: char, s: string)
    ensures s in Expand(addresses, m, b) <==> |s| >= 1 && s[..|s| - 1] in addresses && Allowed(m, b, s[|s| - 1])
  {
    if addresses != [] {
      var init := addresses[..|addresses| - 1];
      var e := addresses[|addresses| - 1];
      ExpandMembers(init, m, b, s);
      PieceMembers(e, m, b, s);
      assert addresses == init + [e];
    }
  }

  /** s keeps every '1', copies the source at every '0' and has a digit at every 'X'. */
  predicate AllAllowed(mask: string, bin: string, s: string)
    requires |mask| <= |bin|
  {
    |s| == |mask| && forall i | 0 <= i < |s| :: Allowed(mask[i], bin[i], s[i])
  }

  lemma AllAllowedSnoc(mask: string, bin: string, s: string)
    requires 1 <= |mask| <= |bin| && |s| >= 1
    ensures AllAllowed(mask, bin, s) <==>
      AllAllowed(mask[..|mask| - 1], bin, s[..|s| - 1]) && Allowed(mask[|mask| - 1], bin[|mask| - 1], s[|s| - 1])
  {
  }

  /** Decoding yields exactly the strings that keep every '1', copy the source at every '0' and take either digit at every 'X'. */
  lemma {:induction false} DecodeMembers(mask: string, bin: string, s: string)
    requires |mask| <= |bin|
    ensures s in DecodeStrings(mask, bin) <==> AllAllowed(mask, bin, s)
  {
    if mask != [] {
      var n := |mask|;
      var init := mask[..n - 1];
      ExpandMembers(DecodeStrings(init, bin), mask[n - 1], bin[n - 1], s);
      if |s| >= 1 {
        DecodeMembers(init, bin, s[..|s| - 1]);
        AllAllowedSnoc(mask, bin, s);
      }
    }
  }

  predicate Distinct<T(==)>(s: seq<T>)
  {
    forall i, j | 0 <= i < j < |s| :: s[i] != s[j]
  }

  lemma {:induction false} ExpandDistinct(addresses: seq<string>, m: char, b: char)
    requires Distinct(addresses)
    ensures Distinct(Expand(addresses, m, b))
  {
    if addresses != [] {
      var init := addresses[..|addresses| - 1];
      var e := addresses[|addresses| - 1];
      ExpandDistinct(init, m, b);
      var left := Expand(init, m, b);
      var right := Piece(e, m, b);
      assert e !in init;
      forall x | x in left ensures x !in right {
        ExpandMembers(init, m, b, x);
        PieceMembers(e, m, b, x);
      }
      if m == 'X' {
        assert (e + ['1'])[|e|] != (e + ['0'])[|e|];
      }
      DistinctAppend(left, right);
    }
  }

  lemma DistinctAppend<T>(a: seq<T>, b: seq<T>)
    requires Distinct(a) && Distinct(b) && forall x | x in a :: x !in b
    ensures Distinct(a + b)
  {
    forall i, j | 0 <= i < j < |a + b| ensures (a + b)[i] != (a + b)[j] {
      if i < |a| && j >= |a| {
        assert (a + b)[i] in a && (a + b)[j] == b[j - |a|];
      }
    }
  }

  /** Decoding never lists an address string twice. */
  lemma {:induction false} DecodeDistinct(mask: string, bin: string)
    requires |mask| <= |bin|
    ensures Distinct(DecodeStrings(mask, bin))
  {
    if mask != [] {
      DecodeDistinct(mask[..|mask| - 1], bin);
      ExpandDistinct(DecodeStrings(mask[..|mask| - 1], bin), mask[|mask| - 1], bin[|mask| - 1]);
    }
  }

  /** `parseInt(_, 2)` tells binary strings of one length apart. */
  lemma BinaryValueInjective(s: string, t: string)
    requires Binary(s) && Binary(t) && |s| == |t| && BinaryValue(s) == BinaryValue(t)
    ensures s == t
  {
    ValueBits(s);
    ValueBits(t);
  }

  /** The decoded addresses are 2^(number of 'X') distinct numbers. */
  lemma DecodedAddressesDistinct(mask: string, source: nat)
    requires ValidMask(mask)
    ensures |DecodedAddresses(mask, source)| == Pow2(CountFloating(mask))
    ensures Distinct(DecodedAddresses(mask, source))
  {
    var bin := Bin36(source);
    var strings := DecodeStrings(mask, bin);
    DecodeCount(mask, bin);
    DecodeDistinct(mask, bin);
    BinaryPadded(source);
    var r := DecodedAddresses(mask, source);
    forall i, j | 0 <= i < j < |r| ensures r[i] != r[j] {
      assert strings[i] in strings && strings[j] in strings;
      DecodeMembers(mask, bin, strings[i]);
      DecodeMembers(mask, bin, strings[j]);
      if r[i] == r[j] {
        BinaryValueInjective(strings[i], strings[j]);
      }
    }
  }

  lemma BinaryPadded(v: nat)
    ensures Binary(Bin36(v))
  {
    BinaryToBinary(v);
  }

  lemma {:induction false} BinaryToBinary(v: nat)
    ensures Binary(ToBinary(v))
  {
    if v >= 2 {
      BinaryToBinary(v / 2);
    }
  }

  /** A line of the program. */
  datatype Instr = SetMask(mask: string) | Write(addr: nat, val: nat)

  /** The reduce's accumulator `{ mem, mask, sum }`. */
  datatype Memory = Memory(mem: map<nat, nat>, mask: string, sum: int)

  /** `acc.mem[address] || 0`. */
  function Get(mem: map<nat, nat>, address: nat): nat
  {
    if address in mem then mem[address] else 0
  }

  /** One store: the sum moves by the difference between the new and the old value. */
  function Store(acc: Memory, address: nat, v: nat): Memory
  {
    acc.(sum := acc.sum + v - Get(acc.mem, address), mem := acc.mem[address := v])
  }

  /** The `forEach` over the decoded addresses. */
  function StoreAll(acc: Memory, addresses: seq<nat>, v: nat): (r: Memory)
    ensures r.mask == acc.mask
  {
    if addresses == [] then acc
    else Store(StoreAll(acc, addresses[..|addresses| - 1], v), addresses[|addresses| - 1], v)
  }

  /** The `rules` of `sumMemory`. */
  function Apply(acc: Memory, instr: Instr, decoder: bool): Memory
    requires instr.Write? ==> ValidMask(acc.mask)
  {
    match instr
    case SetMask(m) => acc.(mask := m)
    case Write(a, v) =>
      if decoder then StoreAll(acc, DecodedAddresses(acc.mask, a), v)
      else Store(acc, a, MaskedValue(acc.mask, v))
  }

  /** Every mask line is a valid mask, and the program begins with one. */
  predicate WellFormed(instrs: seq<Instr>)
  {
    (instrs == [] || instrs[0].SetMask?) &&
    forall i | 0 <= i < |instrs| :: instrs[i].SetMask? ==> ValidMask(instrs[i].mask)
  }

  /** The reduce of `sumMemory` from `{ mem: [], mask: '', sum: 0 }`. */
  function Execute(instrs: seq<Instr>, decoder: bool): (r: Memory)
    requires WellFormed(instrs)
    ensures instrs != [] ==> ValidMask(r.mask)
  {
    if instrs == [] then Memory(map[], "", 0)
    else
      var init := instrs[..|instrs| - 1];
      assert WellFormed(init) by {
        assert forall i | 0 <= i < |init| :: init[i] == instrs[i];
      }
      if init == [] then Apply(Memory(map[], "", 0), instrs[0], decoder)
      else Apply(Execute(init, decoder), instrs[|instrs| - 1], decoder)
  }

  /** `sumMemory`: the memory and the running sum change in place, one line at a time. */
  method SumMemory(instructions: seq<Instr>, decoder: bool) returns (sum: int)
    requires WellFormed(instructions)
    ensures sum == Execute(instructions, decoder).sum
  {
    var mem: map<nat, nat> := map[];
    var mask := "";
    sum := 0;
    for i := 0 to |instructions|
      invariant WellFormed(instructions[..i])
      invariant Memory(mem, mask, sum) == Execute(instructions[..i], decoder)
      invariant i > 0 ==> ValidMask(mask)
    {
      assert instructions[..i + 1][..i] == instructions[..i];
      assert WellFormed(instructions[..i + 1]) by {
        assert forall k | 0 <= k < i + 1 :: instructions[..i + 1][k] == instructions[k];
      }
      match instructions[i]
      case SetMask(m) =>
        mask := m;
      case Write(addr, val) =>
        if decoder {
          var addresses := DecodeMemoryAddresses(mask, addr);
          mem, sum := StoreEach(mem, mask, sum, addresses, val);
        } else {
          var newVal := MaskValue(mask, val);
          sum := sum + newVal - Get(mem, addr);
          mem := mem[addr := newVal];
        }
    }
    assert instructions[..|instructions|] == instructions;
  }

  /** The `forEach` of the decoder: every address gets the value, and the sum follows. */
  method StoreEach(mem: map<nat, nat>, mask: string, sum: int, addresses: seq<nat>, val: nat)
    returns (mem': map<nat, nat>, sum': int)
    ensures Memory(mem', mask, sum') == StoreAll(Memory(mem, mask, sum), addresses, val)
  {
    mem', sum' := mem, sum;
    for j := 0 to |addresses|
      invariant Memory(mem', mask, sum') == StoreAll(Memory(mem, mask, sum), addresses[..j], val)
    {
      assert addresses[..j + 1][..j] == addresses[..j];
      sum' := sum' + val - Get(mem', addresses[j]);
      mem' := mem'[addresses[j] := val];
    }
    assert addresses[..|addresses|] == addresses;
  }

  /** The total of the values stored in memory. */
  ghost function Total(mem: map<nat, nat>): nat
    decreases |mem|
  {
    if mem == map[] then 0
    else
      var k :| k in mem;
      mem[k] + Total(mem - {k})
  }

  /** Any key can be taken out first. */
  lemma {:induction false} TotalRemove(mem: map<nat, nat>, k: nat)
    requires k in mem
    ensures Total(mem) == mem[k] + Total(mem - {k})
    decreases |mem|
  {
    var k' :| k' in mem && Total(mem) == mem[k'] + Total(mem - {k'});
    if k' != k {
      TotalRemove(mem - {k'}, k);
      TotalRemove(mem - {k}, k');
      assert mem - {k'} - {k} == mem - {k} - {k'};
    }
  }

  lemma TotalStore(mem: map<nat, nat>, k: nat, v: nat)
    ensures Total(mem[k := v]) == Total(mem) - Get(mem, k) + v
  {
    TotalRemove(mem[k := v], k);
    assert mem[k := v] - {k} == mem - {k};
    if k in mem {
      TotalRemove(mem, k);
    } else {
      assert mem - {k} == mem;
    }
  }

  /** Storing keeps the running sum equal to the total of memory. */
  lemma {:induction false} StoreAllKeepsTotal(acc: Memory, addresses: seq<nat>, v: nat)
    requires acc.sum == Total(acc.mem)
    ensures StoreAll(acc, addresses, v).sum == Total(StoreAll(acc, addresses, v).mem)
  {
    if addresses != [] {
      var before := StoreAll(acc, addresses[..|addresses| - 1], v);
      StoreAllKeepsTotal(acc, addresses[..|addresses| - 1], v);
      TotalStore(before.mem, addresses[|addresses| - 1], v);
    }
  }

  /** The sum `sumMemory` returns is always the total of the values in memory, across overwrites. */
  lemma {:induction false} SumIsTotal(instrs: seq<Instr>, decoder: bool)
    requires WellFormed(instrs)
    ensures Execute(instrs, decoder).sum == Total(Execute(instrs, decoder).mem)
  {
    if instrs != [] {
      var init := instrs[..|instrs| - 1];
      assert WellFormed(init) by {
        assert forall i | 0 <= i < |init| :: init[i] == instrs[i];
      }
      var acc := if init == [] then Memory(map[], "", 0) else Execute(init, decoder);
      if init != [] {
        SumIsTotal(init, decoder);
      } else {
        assert Total(map[]) == 0;
      }
      match instrs[|instrs| - 1]
      case SetMask(_) =>
      case Write(a, v) =>
        if decoder {
          StoreAllKeepsTotal(acc, DecodedAddresses(acc.mask, a), v);
        } else {
          TotalStore(acc.mem, a, MaskedValue(acc.mask, v));
        }
    }
  }

  /** After the `forEach`, every decoded address holds the value and every other address is untouched. */
  lemma {:induction false} StoreAllMemory(acc: Memory, addresses: seq<nat>, v: nat)
    ensures forall a | a in addresses :: a in StoreAll(acc, addresses, v).mem && StoreAll(acc, addresses, v).mem[a] == v
    ensures forall a | a !in addresses :: Get(StoreAll(acc, addresses, v).mem, a) == Get(acc.mem, a)
  {
    if addresses != [] {
      StoreAllMemory(acc, addresses[..|addresses| - 1], v);
      assert addresses == addresses[..|addresses| - 1] + [addresses[|addresses| - 1]];
    }
  }
}
