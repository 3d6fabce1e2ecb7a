/**
 * Full of Hot Air (2022, day 25): SNAFU numbers are written in balanced base
 * five with the digits `=`, `-`, `0`, `1`, `2` standing for −2 .. 2.
 */
module Snafu {
  import opened Common
  import Strings

  const Digits: string := "=-012"

  /** `digits.indexOf(d) - 2`; a character that is not a digit has index −1 and counts −3. */
  function DigitValue(c: char): (v: int)
    ensures c in Digits ==> -2 <= v <= 2 && Digits[v + 2] == c
    ensures c !in Digits ==> v == -3
  {
    (if c in Digits then Strings.IndexOf(Digits, c) as int else -1) - 2
  }

  /** The terms of the reduce over the reversed string: Σ value(s[|s| − 1 − i]) × 5^i for i < k. */
  function Terms(s: string, k: nat): int
    requires k <= |s|
  {
    if k == 0 then 0 else Terms(s, k - 1) + DigitValue(s[|s| - k]) * Pow(5, k - 1)
  }

  /** Every character is one of the five SNAFU digits. */
  predicate IsNumeral(s: string)
  {
    forall i | 0 <= i < |s| :: s[i] in Digits
  }

  /** k balanced base-five digits reach at most (5^k − 1) / 2 either way. */
  lemma {:induction false} TermsBound(s: string, k: nat)
    requires k <= |s|
    ensures IsNumeral(s) ==> -(Pow(5, k) - 1) <= 2 * Terms(s, k) <= Pow(5, k) - 1
  {
    if k > 0 && IsNumeral(s) {
      TermsBound(s, k - 1);
      var t, d, w := Terms(s, k - 1), DigitValue(s[|s| - k]), Pow(5, k - 1);
      assert Terms(s, k) == t + d * w;
      assert Pow(5, k) == 5 * w;
      PowPositive(5, k - 1);
      assert s[|s| - k] in Digits;
      assert -2 * w <= d * w <= 2 * w;
    }
  }

  /**
   * `fromSnafu`: the last character has weight 5^0, the one before it 5^1,
   * and so on; a numeral of n digits lies within ±(5^n − 1) / 2.
   */
  function FromSnafu(s: string): (r: int)
    ensures IsNumeral(s) ==> -(Pow(5, |s|) - 1) <= 2 * r <= Pow(5, |s|) - 1
  {
    TermsBound(s, |s|);
    Terms(s, |s|)
  }

  lemma {:induction false} TermsSnoc(p: string, c: char, k: nat)
    requires 1 <= k <= |p| + 1
    ensures Terms(p + [c], k) == DigitValue(c) + 5 * Terms(p, k - 1)
  {
    var s := p + [c];
    if k > 1 {
      TermsSnoc(p, c, k - 1);
      assert s[|s| - k] == p[|p| - (k - 1)];
      var v, w := DigitValue(p[|p| - (k - 1)]), Pow(5, k - 2);
      assert Pow(5, k - 1) == 5 * w;
      assert v * (5 * w) == 5 * (v * w);
      assert Terms(s, k) == DigitValue(c) + 5 * Terms(p, k - 2) + v * (5 * w);
      assert Terms(p, k - 1) == Terms(p, k - 2) + v * w;
    }
  }

  /** Reading the digits from the left: each new last digit multiplies the value so far by 5 and adds its own value. */
  lemma FromSnafuSnoc(p: string, c: char)
    ensures FromSnafu(p + [c]) == 5 * FromSnafu(p) + DigitValue(c)
  {
    TermsSnoc(p, c, |p| + 1);
  }

  /** The SNAFU text of n, most significant digit first, as toSnafu's loop builds it. */
  function SnafuOf(n: int): (s: string)
    ensures forall i | 0 <= i < |s| :: s[i] in Digits
    decreases n
  {
    if n <= 0 then "" else SnafuOf((n + 2) / 5) + [Digits[(n + 2) % 5]]
  }

  /** Every natural number survives the trip to SNAFU and back. */
  lemma {:induction false} SnafuRoundTrip(n: nat)
    ensures FromSnafu(SnafuOf(n)) == n
    decreases n
  {
    if n > 0 {
      var q := (n + 2) / 5;
      SnafuRoundTrip(q);
      var c := Digits[(n + 2) % 5];
      assert DigitValue(c) == (n + 2) % 5 - 2;
      FromSnafuSnoc(SnafuOf(q), c);
    }
  }

  /** A SNAFU numeral as the conversion writes it: digits only, leading with 1 or 2. */
  predicate Canonical(s: string)
  {
    s != [] && (s[0] == '1' || s[0] == '2') && forall i | 0 <= i < |s| :: s[i] in Digits
  }

  lemma {:induction false} CanonicalPositive(s: string)
    requires Canonical(s)
    ensures FromSnafu(s) > 0
  {
    var p, c := s[..|s| - 1], s[|s| - 1];
    assert s == p + [c];
    FromSnafuSnoc(p, c);
    if p == [] {
      assert s == [s[0]];
      assert FromSnafu(p) == 0;
    } else {
      assert p[0] == s[0];
      assert Canonical(p);
      CanonicalPositive(p);
    }
  }

  /** Every canonical numeral is the SNAFU text of its value: the conversion is onto. */
  lemma {:induction false} SnafuOfFromSnafu(s: string)
    requires Canonical(s)
    ensures SnafuOf(FromSnafu(s)) == s
  {
    var p, c := s[..|s| - 1], s[|s| - 1];
    assert s == p + [c];
    FromSnafuSnoc(p, c);
    CanonicalPositive(s);
    var n := FromSnafu(s);
    var d := DigitValue(c);
    DivUnique(n + 2, 5, FromSnafu(p), d + 2);
    if p == [] {
      assert FromSnafu(p) == 0;
    } else {
      assert p[0] == s[0];
      assert Canonical(p);
      SnafuOfFromSnafu(p);
    }
  }

  /**
   * `toSnafu`: while the number is positive, prepend the digit for
   * (n + 2) % 5 and continue with floor((n + 2) / 5). Zero and negative numbers
   * give the empty string.
   */
  method ToSnafu(number: int) returns (result: string)
    ensures result == SnafuOf(number)
    ensures number <= 0 ==> result == ""
    ensures number >= 0 ==> FromSnafu(result) == number
    ensures forall i | 0 <= i < |result| :: result[i] in Digits
  {
    result := "";
    var n := number;
    while n > 0
      invariant SnafuOf(n) + result == SnafuOf(number)
      decreases n
    {
      var d := (n + 2) % 5;
      n := (n + 2) / 5;
      result := [Digits[d]] + result;
    }
    if number >= 0 {
      SnafuRoundTrip(number);
    }
  }
}
