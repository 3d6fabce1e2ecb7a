/**
 * Combo Breaker (2020, day 25): a card and a door each publish 7 raised to
 * a secret loop size modulo 20201227; the encryption key is either public
 * key raised to the other device's loop size.
 */
module ComboBreaker {
  import opened Common

  /** The modulus every transformation step reduces by. */
  const Modulus: nat := 20201227

  /** The subject number the public keys are made from. */
  const Subject: nat := 7

  /** The value `transform(subject, loop)` computes: subject^loop mod 20201227. */
  function PowMod(subject: nat, loop: nat): int
  {
    Pow(subject, loop) % Modulus
  }

  lemma {:induction false} PowNonNegative(b: nat, e: nat)
    ensures Pow(b, e) >= 0
  {
    if e > 0 {
      PowNonNegative(b, e - 1);
    }
  }

  /** Reducing the base first does not change the result. */
  lemma {:induction false} PowModBase(a: nat, n: nat)
    ensures PowMod(a % Modulus, n) == PowMod(a, n)
  {
    if n > 0 {
      var r := a % Modulus;
      PowModBase(a, n - 1);
      PowNonNegative(a, n - 1);
      PowNonNegative(r, n - 1);
      calc {
        PowMod(a, n);
        (Pow(a, n - 1) * a) % Modulus;
        { ModMul(Pow(a, n - 1), a, Modulus); }
        ((Pow(a, n - 1) % Modulus) * a) % Modulus;
        ((Pow(r, n - 1) % Modulus) * a) % Modulus;
        { ModMul(Pow(r, n - 1), a, Modulus); }
        (Pow(r, n - 1) * a) % Modulus;
        (a * Pow(r, n - 1)) % Modulus;
        { ModMul(a, Pow(r, n - 1), Modulus); }
        (r * Pow(r, n - 1)) % Modulus;
        PowMod(r, n);
      }
    }
  }

  /** Raising a power to a power multiplies the exponents. */
  lemma {:induction false} PowPow(b: nat, c: nat, d: nat)
    ensures Pow(Pow(b, c), d) == Pow(b, c * d)
  {
    if d > 0 {
      PowPow(b, c, d - 1);
      PowAdd(b, c, c * (d - 1));
      assert c + c * (d - 1) == c * d;
    }
  }

  /**
   * `transform`: starting from 1, multiply by the subject and reduce,
   * `loop` times. The result is subject^loop mod 20201227; a loop of 0
   * gives 1.
   */
  method Transform(subject: nat, loop: nat) returns (val: nat)
    ensures val == PowMod(subject, loop) && val < Modulus
    ensures loop == 0 ==> val == 1
  {
    val := 1;
    for i := 0 to loop
      invariant val == PowMod(subject, i)
    {
      PowNonNegative(subject, i);
      ModMul(Pow(subject, i), subject, Modulus);
      val := (val * subject) % Modulus;
    }
  }

  /** n is a loop size that turns the subject 7 into the public key. */
  predicate IsLoopOf(pubKey: nat, n: nat)
  {
    PowMod(Subject, n) == pubKey
  }

  /**
   * `findLoop`: the least n with 7^n mod 20201227 equal to the public key.
   * The source loops for ever on a key no loop size produces, so such a
   * loop size must exist.
   */
  method FindLoop(pubKey: nat) returns (loop: nat)
    requires exists n: nat :: IsLoopOf(pubKey, n)
    ensures IsLoopOf(pubKey, loop) && pubKey < Modulus
    ensures forall n: nat | n < loop :: !IsLoopOf(pubKey, n)
  {
    ghost var known: nat :| IsLoopOf(pubKey, known);
    var val := 1;
    loop := 0;
    while val != pubKey
      invariant val == PowMod(Subject, loop)
      invariant forall n: nat | n < loop :: !IsLoopOf(pubKey, n)
      invariant loop <= known
      decreases known - loop
    {
      PowNonNegative(Subject, loop);
      ModMul(Pow(Subject, loop), Subject, Modulus);
      val := (val * 7) % Modulus;
      loop := loop + 1;
    }
  }

  /**
   * `findEncryptionKey`: the card key transformed through the door's loop
   * size.
   */
  method FindEncryptionKey(doorKey: nat, cardKey: nat) returns (key: nat)
    requires exists n: nat :: IsLoopOf(doorKey, n)
    ensures exists d: nat :: IsLoopOf(doorKey, d) && (forall n: nat | n < d :: !IsLoopOf(doorKey, n)) && key == PowMod(cardKey, d)
    ensures key < Modulus
  {
    var doorLoop := FindLoop(doorKey);
    key := Transform(cardKey, doorLoop);
  }

  /**
   * The handshake: whatever the loop sizes of card and door, transforming
   * the card's public key by the door's loop size gives the same key as
   * transforming the door's public key by the card's, namely
   * 7^(card loop × door loop) mod 20201227.
   */
  lemma Handshake(cardKey: nat, doorKey: nat, c: nat, d: nat)
    requires IsLoopOf(cardKey, c) && IsLoopOf(doorKey, d)
    ensures PowMod(cardKey, d) == PowMod(doorKey, c) == PowMod(Subject, c * d)
  {
    PowNonNegative(Subject, c);
    PowNonNegative(Subject, d);
    PowModBase(Pow(Subject, c), d);
    PowModBase(Pow(Subject, d), c);
    PowPow(Subject, c, d);
    PowPow(Subject, d, c);
    assert d * c == c * d;
  }
}
