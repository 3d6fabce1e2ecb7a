/**
 * Monkey Market (2024, day 22): each buyer's secret number evolves by three
 * mix-and-prune rounds per step; the price a buyer offers is the last
 * decimal digit of the current secret.
 */
module MonkeyMarket {
  import opened Common
  import opened Bits

  /** `prune` keeps the secret modulo 16777216 = 2^24. */
  const Modulus: nat := 16777216

  lemma ModulusIsPow2()
    ensures Modulus == Pow2(24)
  {
    assert Pow2(8) == 256;
    assert Pow2(16) == 65536 by {
      assert Pow2(16) == Pow2(8) * 256 by {
        Pow2Add(8, 8);
      }
    }
    Pow2Add(16, 8);
  }

  /** `mix`: the bitwise exclusive or of the value into the secret. */
  function Mix(secret: nat, n: nat): nat
  {
    Xor(n, secret)
  }

  /** `prune`. */
  function Prune(secret: nat): (r: nat)
    ensures r < Modulus
  {
    secret % Modulus
  }

  /** `nextSecret`: mix in ×64, prune; mix in ÷32 (rounded down), prune; mix in ×2048, prune. */
  function NextSecret(initial: nat): (r: nat)
    ensures r < Modulus
  {
    var result := Prune(Mix(initial * 64, initial));
    var result := Prune(Mix(result / 32, result));
    Prune(Mix(result * 2048, result))
  }

  /** Mixing a value into itself clears it, and mixing is symmetric. */
  lemma MixProperties(a: nat, b: nat)
    ensures Mix(a, b) == Mix(b, a)
    ensures Mix(a, a) == 0
    ensures Mix(a, 0) == a
  {
    XorCommutes(a, b);
    XorSelf(a);
    XorZero(a);
    XorCommutes(a, 0);
  }

  /** Mixing in a multiple of a number and keeping the low k bits depends only on the low k bits of the number. */
  lemma MixMulLowBits(s: nat, c: nat, k: nat)
    ensures Xor(s, s * c) % Pow2(k) == Xor(s % Pow2(k), (s % Pow2(k)) * c) % Pow2(k)
  {
    var m := Pow2(k);
    ModMul(s, c, m);
    ModOfMod(s, m);
    XorLowCongruent(s, s * c, s % m, (s % m) * c, k);
  }

  /** Reducing twice by the same modulus is reducing once. */
  lemma ModOfMod(a: nat, m: nat)
    requires m > 0
    ensures (a % m) % m == a % m
  {
    DivUnique(a % m, m, 0, a % m);
  }

  /** The low k bits of an exclusive or depend only on the low k bits of its operands. */
  lemma XorLowCongruent(a: nat, b: nat, a': nat, b': nat, k: nat)
    requires a % Pow2(k) == a' % Pow2(k) && b % Pow2(k) == b' % Pow2(k)
    ensures Xor(a, b) % Pow2(k) == Xor(a', b') % Pow2(k)
  {
    XorLow(a, b, k);
    XorLow(a', b', k);
  }

  /** The first round, on a secret and on its low 24 bits, prunes to the same value. */
  lemma FirstRoundLowBits(s: nat)
    ensures Prune(Mix(s * 64, s)) == Prune(Mix(Prune(s) * 64, Prune(s)))
  {
    ModulusIsPow2();
    MixMulLowBits(s, 64, 24);
  }

  /** Only the low 24 bits of a secret matter: the next secret is the same after pruning first. */
  lemma NextSecretLowBits(s: nat)
    ensures NextSecret(s) == NextSecret(Prune(s))
  {
    FirstRoundLowBits(s);
  }

  /** The secret after `count` steps. */
  function Secrets(start: nat, count: nat): nat
  {
    if count == 0 then start else NextSecret(Secrets(start, count - 1))
  }

  /** Evolving m steps and then n more is evolving m + n steps. */
  lemma {:induction false} SecretsAdd(start: nat, m: nat, n: nat)
    ensures Secrets(Secrets(start, m), n) == Secrets(start, m + n)
  {
    if n > 0 {
      SecretsAdd(start, m, n - 1);
    }
  }

  /** `rotateSecret`: `count` steps of `nextSecret` from `start`. */
  method RotateSecret(start: nat, count: nat) returns (r: nat)
    ensures r == Secrets(start, count)
  {
    var secret := start;
    var i := 0;
    while i < count
      invariant 0 <= i <= count
      invariant secret == Secrets(start, i)
    {
      secret := NextSecret(secret);
      i := i + 1;
    }
    return secret;
  }

  /** The price offered at a secret: its last decimal digit. */
  function Price(secret: nat): (p: nat)
    ensures p < 10
  {
    secret % 10
  }

  /**
   * `getPrices`: the prices of the first `count` secrets (always at least
   * the starting one) and the change between each neighbouring pair.
   */
  method GetPrices(start: nat, count: nat) returns (prices: seq<int>, diffs: seq<int>)
    ensures |prices| == Max(count, 1) && |diffs| == |prices| - 1
    ensures forall i | 0 <= i < |prices| :: prices[i] == Price(Secrets(start, i))
    ensures forall i | 0 <= i < |diffs| :: diffs[i] == prices[i + 1] - prices[i] && -9 <= diffs[i] <= 9
  {
    var secret := start;
    prices := [Price(start)];
    diffs := [];
    var i := 1;
    while i < count
      invariant 1 <= i <= Max(count, 1)
      invariant |prices| == i && |diffs| == i - 1
      invariant secret == Secrets(start, i - 1)
      invariant forall k | 0 <= k < i :: prices[k] == Price(Secrets(start, k))
      invariant forall k | 0 <= k < i - 1 :: diffs[k] == prices[k + 1] - prices[k] && -9 <= diffs[k] <= 9
    {
      secret := NextSecret(secret);
      prices := prices + [Price(secret)];
      diffs := diffs + [prices[i] - prices[i - 1]];
      i := i + 1;
    }
  }

  /** The differences telescope: every price is the first price plus the differences before it. */
  lemma {:induction false} PricesFromDiffs(prices: seq<int>, diffs: seq<int>, k: nat)
    requires |prices| > 0 && |diffs| == |prices| - 1
    requires forall i | 0 <= i < |diffs| :: diffs[i] == prices[i + 1] - prices[i]
    requires k < |prices|
    ensures prices[k] == prices[0] + Sum(diffs[..k])
  {
    if k > 0 {
      PricesFromDiffs(prices, diffs, k - 1);
      assert diffs[..k][..k - 1] == diffs[..k - 1];
    }
  }
}
