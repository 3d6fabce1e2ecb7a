/** Bitwise operations on natural numbers, defined bit by bit from the least significant end. */
module Bits {
  import opened Common

  /** Bitwise exclusive or of two natural numbers. */
  function Xor(a: nat, b: nat): nat
  {
    if a == 0 && b == 0 then 0 else 2 * Xor(a / 2, b / 2) + (a % 2 + b % 2) % 2
  }

  /** 2 to the power e. */
  function Pow2(e: nat): (p: nat)
    ensures p >= 1
  {
    if e == 0 then 1 else 2 * Pow2(e - 1)
  }

  lemma {:induction false} Pow2Add(a: nat, b: nat)
    ensures Pow2(a + b) == Pow2(a) * Pow2(b)
  {
    if b > 0 {
      Pow2Add(a, b - 1);
    }
  }

  lemma {:induction false} XorZero(a: nat)
    ensures Xor(a, 0) == a
  {
    if a != 0 { XorZero(a / 2); }
  }

  lemma {:induction false} XorCommutes(a: nat, b: nat)
    ensures Xor(a, b) == Xor(b, a)
  {
    if a != 0 || b != 0 { XorCommutes(a / 2, b / 2); }
  }

  lemma {:induction false} XorSelf(a: nat)
    ensures Xor(a, a) == 0
  {
    if a != 0 { XorSelf(a / 2); }
  }

  /** Exclusive or of numbers below 2^w stays below 2^w. */
  lemma {:induction false} XorBound(a: nat, b: nat, w: nat)
    requires a < Pow2(w) && b < Pow2(w)
    ensures Xor(a, b) < Pow2(w)
  {
    if w > 0 && (a != 0 || b != 0) {
      XorBound(a / 2, b / 2, w - 1);
    }
  }

  /** Flipping every bit of a w-bit number is subtracting it from 2^w - 1. */
  lemma {:induction false} XorAllOnes(a: nat, w: nat)
    requires a < Pow2(w)
    ensures Xor(a, Pow2(w) - 1) == Pow2(w) - 1 - a
  {
    if w > 0 {
      var q := Pow2(w - 1);
      assert Pow2(w) == 2 * q;
      var ones := 2 * q - 1;
      assert ones / 2 == q - 1 && ones % 2 == 1;
      assert a / 2 < q;
      XorAllOnes(a / 2, w - 1);
      XorStep(a, ones);
      assert a == 2 * (a / 2) + a % 2;
    }
  }

  /** The low bit of an exclusive or. */
  lemma XorLowBit(a: nat, b: nat)
    ensures Xor(a, b) % 2 == (a % 2 + b % 2) % 2
  {
  }

  /** The recursive step of exclusive or, including when both are 0. */
  lemma XorStep(a: nat, b: nat)
    ensures Xor(a, b) == 2 * Xor(a / 2, b / 2) + (a % 2 + b % 2) % 2
  {
  }

  /** Keeping the low k + 1 bits is keeping the low bit and the low k bits of the rest. */
  lemma ModDouble(x: nat, q: nat)
    requires q > 0
    ensures (x % (2 * q)) / 2 == (x / 2) % q
    ensures (x % (2 * q)) % 2 == x % 2
  {
    var r := 2 * ((x / 2) % q) + x % 2;
    assert x == ((x / 2) / q) * (2 * q) + r;
    DivUnique(x, 2 * q, (x / 2) / q, r);
    assert x % (2 * q) == r;
    DivUnique(r, 2, (x / 2) % q, x % 2);
  }

  /** The low k bits of an exclusive or are the exclusive or of the low k bits. */
  lemma {:induction false} XorLow(a: nat, b: nat, k: nat)
    ensures Xor(a, b) % Pow2(k) == Xor(a % Pow2(k), b % Pow2(k))
  {
    if k > 0 {
      var q := Pow2(k - 1);
      assert Pow2(k) == 2 * q;
      var x, lowA, lowB := Xor(a, b), a % (2 * q), b % (2 * q);
      var bit := (a % 2 + b % 2) % 2;
      XorLow(a / 2, b / 2, k - 1);
      ModDouble(a, q);
      ModDouble(b, q);
      ModDouble(x, q);
      XorStep(a, b);
      assert x / 2 == Xor(a / 2, b / 2) && x % 2 == bit;
      XorStep(lowA, lowB);
      assert Xor(lowA, lowB) == 2 * Xor((a / 2) % q, (b / 2) % q) + bit;
      var y := x % (2 * q);
      assert y == 2 * (y / 2) + y % 2;
    } else {
      assert Xor(0, 0) == 0;
    }
  }

  /** The value of a string of '0'/'1' characters, most significant first; other characters count as 0. */
  function BinaryValue(s: string): (v: nat)
    ensures v < Pow2(|s|)
  {
    if s == [] then 0 else 2 * BinaryValue(s[..|s| - 1]) + (if s[|s| - 1] == '1' then 1 else 0)
  }

  function Repeat(c: char, n: nat): (s: string)
    ensures |s| == n && forall i :: 0 <= i < n ==> s[i] == c
  {
    if n == 0 then [] else Repeat(c, n - 1) + [c]
  }

  lemma {:induction false} AllOnesValue(n: nat)
    ensures BinaryValue(Repeat('1', n)) == Pow2(n) - 1
  {
    if n > 0 {
      assert Repeat('1', n)[..n - 1] == Repeat('1', n - 1);
      AllOnesValue(n - 1);
    }
  }
}
