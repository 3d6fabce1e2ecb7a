/**
 * Lobby (2025, day 3): a bank of batteries is a row of digits, and its
 * joltage is the largest two-digit number made of one battery followed by
 * a later one.
 */
module Lobby {
  /** Every battery is a single decimal digit. */
  predicate Digits(bank: seq<int>)
  {
    forall k | 0 <= k < |bank| :: 0 <= bank[k] <= 9
  }

  /** The two-digit number batteries i and j make. */
  function Joltage(bank: seq<int>, i: nat, j: nat): int
    requires i < |bank| && j < |bank|
  {
    10 * bank[i] + bank[j]
  }

  /** A leading digit below the best leading digit so far can never beat the best number so far. */
  lemma SkipIsSafe(first: int, second: int, lead: int, next: int)
    requires 0 <= second <= 9 && 0 <= next <= 9
    requires lead < first
    ensures 10 * lead + next < 10 * first + second
  {
  }

  /**
   * `findBankJoltage`: the largest 10 × bank[i] + bank[j] over i < j, found
   * by trying every later battery for each leading one, skipping leading
   * digits below the best one so far; a bank of fewer than two batteries
   * gives 0.
   */
  method FindBankJoltage(bank: seq<int>) returns (r: int)
    requires Digits(bank)
    ensures 0 <= r <= 99
    ensures forall i, j | 0 <= i < j < |bank| :: Joltage(bank, i, j) <= r
    ensures |bank| >= 2 ==> exists i, j | 0 <= i < j < |bank| :: Joltage(bank, i, j) == r
    ensures |bank| < 2 ==> r == 0
  {
    var first, second := 0, 0;
    ghost var found := false;
    ghost var wi, wj := 0, 0;
    var i := 0;
    while i < |bank| - 1
      invariant 0 <= i <= if |bank| > 0 then |bank| - 1 else 0
      invariant 0 <= first <= 9 && 0 <= second <= 9
      invariant forall i', j | 0 <= i' < i && i' < j < |bank| :: Joltage(bank, i', j) <= 10 * first + second
      invariant found ==> wi < wj < |bank| && first == bank[wi] && second == bank[wj]
      invariant !found ==> first == 0 && second == 0
    {
      if bank[i] < first {
        forall j | i < j < |bank| ensures Joltage(bank, i, j) <= 10 * first + second {
          SkipIsSafe(first, second, bank[i], bank[j]);
        }
        i := i + 1;
        continue;
      }
      var j := i + 1;
      while j < |bank|
        invariant i + 1 <= j <= |bank|
        invariant 0 <= first <= 9 && 0 <= second <= 9
        invariant forall i', j' | 0 <= i' < i && i' < j' < |bank| :: Joltage(bank, i', j') <= 10 * first + second
        invariant forall j' | i < j' < j :: Joltage(bank, i, j') <= 10 * first + second
        invariant found ==> wi < wj < |bank| && first == bank[wi] && second == bank[wj]
        invariant !found ==> first == 0 && second == 0
      {
        var oldNumber := 10 * first + second;
        var newNumber := 10 * bank[i] + bank[j];
        if newNumber > oldNumber {
          first, second := bank[i], bank[j];
          found, wi, wj := true, i, j;
        }
        j := j + 1;
      }
      i := i + 1;
    }
    r := first * 10 + second;
    if |bank| >= 2 {
      if found {
        assert Joltage(bank, wi, wj) == r;
      } else {
        assert Joltage(bank, 0, 1) == r;
      }
    }
  }
}
