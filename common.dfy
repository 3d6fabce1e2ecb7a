/** Small value types shared by the puzzle models. */
module Common {

  /** A value that may be absent: JavaScript's `undefined`/`null`, or "no answer". */
  datatype Option<T> = None | Some(value: T)

  /** Sum of a sequence of integers, folded from the left. */
  function Sum(s: seq<int>): int
  {
    if s == [] then 0 else Sum(s[..|s| - 1]) + s[|s| - 1]
  }

  /** Product of a sequence of integers. */
  function Product(s: seq<int>): int
  {
    if s == [] then 1 else Product(s[..|s| - 1]) * s[|s| - 1]
  }

  function Max(a: int, b: int): int { if a < b then b else a }
  function Min(a: int, b: int): int { if a < b then a else b }
  function Abs(a: int): int { if a < 0 then -a else a }

  /** Non-negative powers of an integer base. */
  function Pow(b: int, e: nat): int
  {
    if e == 0 then 1 else b * Pow(b, e - 1)
  }

  lemma {:induction false} SumAppend(s: seq<int>, t: seq<int>)
    ensures Sum(s + t) == Sum(s) + Sum(t)
  {
    if t == [] {
      assert s + t == s;
    } else {
      assert (s + t)[..|s + t| - 1] == s + t[..|t| - 1];
      SumAppend(s, t[..|t| - 1]);
    }
  }

  lemma {:induction false} PowPositive(b: int, e: nat)
    requires b > 0
    ensures Pow(b, e) > 0
  {
    if e > 0 { PowPositive(b, e - 1); }
  }

  lemma {:induction false} PowAdd(b: int, e1: nat, e2: nat)
    ensures Pow(b, e1 + e2) == Pow(b, e1) * Pow(b, e2)
  {
    if e1 > 0 {
      PowAdd(b, e1 - 1, e2);
    }
  }

  /** Euclidean division is determined by any quotient and remainder in range. */
  lemma DivUnique(a: int, size: int, q: int, rem: int)
    requires size > 0 && 0 <= rem < size && a == q * size + rem
    ensures a / size == q
  {
    var q', r' := a / size, a % size;
    MulMonotone(q', q + 1, size);
    MulMonotone(q, q' + 1, size);
  }

  /** Adding a multiple of the modulus does not change the remainder. */
  lemma ModAddMultiple(a: nat, k: nat, m: nat)
    requires m > 0
    ensures (k * m + a) % m == a % m
  {
    var q := a / m;
    assert k * m + a == (k + q) * m + a % m;
    DivUnique(k * m + a, m, k + q, a % m);
  }

  /** The remainder of a product depends only on the remainder of the left factor. */
  lemma ModMul(a: nat, b: nat, m: nat)
    requires m > 0
    ensures (a * b) % m == ((a % m) * b) % m
  {
    var q := a / m;
    assert a * b == (q * b) * m + (a % m) * b;
    ModAddMultiple((a % m) * b, q * b, m);
  }

  lemma MulAssociates(a: int, b: int, c: int)
    ensures a * b * c == a * (b * c)
  {
  }

  lemma MulMonotone(a: int, b: int, c: int)
    ensures a >= b && c >= 0 ==> a * c >= b * c
  {
    if a >= b && c >= 0 {
      assert a * c == b * c + (a - b) * c;
    }
  }

  /** A multiset added to both sides cancels. */
  lemma MultisetCancel<T>(a: multiset<T>, b: multiset<T>, m: multiset<T>)
    requires a + m == b + m
    ensures a == b
  {
    forall x
      ensures a[x] == b[x]
    {
      assert (a + m)[x] == (b + m)[x];
    }
  }
}
