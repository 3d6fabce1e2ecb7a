/**
 * Extended Polymerization (2021, day 14): a polymer is tracked by the counts of its adjacent
 * pairs and of its characters. Each step replaces every pair XY with rule insert C by the
 * pairs XC and CY, and counts one more C per XY.
 *
 * The source keeps its counts in JavaScript objects, iterated in insertion order; they are
 * modelled as association lists `seq<(K, int)>` with distinct keys.
 */
module ExtendedPolymerization {
  import opened Common

  type Pair = (char, char)
  type Counts<K> = seq<(K, int)>

  datatype Rule = Rule(insert: char, targets: seq<Pair>)

  predicate DistinctKeys<K(==)>(m: Counts<K>)
  {
    forall i, j :: 0 <= i < j < |m| ==> m[i].0 != m[j].0
  }

  predicate NonNegative<K>(m: Counts<K>)
  {
    forall i :: 0 <= i < |m| ==> m[i].1 >= 0
  }

  function Get<K(==)>(m: Counts<K>, k: K): Option<int>
  {
    if m == [] then None else if m[0].0 == k then Some(m[0].1) else Get(m[1..], k)
  }

  /** The count of k, with an absent key read as 0. */
  function CountOf<K(==)>(m: Counts<K>, k: K): int
  {
    match Get(m, k)
    case None => 0
    case Some(n) => n
  }

  /** `acc[k] + n || n`: undefined + n is NaN, and both NaN and 0 are falsy. */
  function JsAddOr(current: Option<int>, n: int): int
  {
    match current
    case None => n
    case Some(x) => if x + n != 0 then x + n else n
  }

  /** `m[k] = m[k] + n || n`: updates an existing key in place, or appends a new one. */
  function AddCount<K(==)>(m: Counts<K>, k: K, n: int): (r: Counts<K>)
    ensures |r| == |m| || |r| == |m| + 1
  {
    if m == [] then [(k, n)]
    else if m[0].0 == k then [(k, JsAddOr(Some(m[0].1), n))] + m[1..]
    else [m[0]] + AddCount(m[1..], k, n)
  }

  function Total<K>(m: Counts<K>): int
  {
    if m == [] then 0 else m[0].1 + Total(m[1..])
  }

  lemma JsAddOrIsAddition(current: Option<int>, n: int)
    requires n >= 0 && (current.Some? ==> current.value >= 0)
    ensures JsAddOr(current, n) == (if current.Some? then current.value else 0) + n
  {
  }

  /** Adding to a key changes only that key's count, by n for non-negative counts. */
  lemma {:induction false} AddCountGet<K>(m: Counts<K>, k: K, n: int, j: K)
    ensures Get(AddCount(m, k, n), j) == if j == k then Some(JsAddOr(Get(m, k), n)) else Get(m, j)
  {
    if m != [] && m[0].0 != k {
      AddCountGet(m[1..], k, n, j);
    }
  }

  lemma {:induction false} AddCountKeeps<K>(m: Counts<K>, k: K, n: int)
    requires DistinctKeys(m) && NonNegative(m) && n >= 0
    ensures DistinctKeys(AddCount(m, k, n)) && NonNegative(AddCount(m, k, n))
    ensures Total(AddCount(m, k, n)) == Total(m) + n
  {
    if m != [] && m[0].0 != k {
      AddCountKeeps(m[1..], k, n);
      var r := AddCount(m, k, n);
      forall i | 1 <= i < |r| ensures r[i].0 != m[0].0
      {
        AddCountKey(m[1..], k, n, i - 1);
        assert r[i] == AddCount(m[1..], k, n)[i - 1];
      }
    }
  }

  lemma {:induction false} AddCountKey<K>(m: Counts<K>, k: K, n: int, i: nat)
    requires i < |AddCount(m, k, n)|
    ensures AddCount(m, k, n)[i].0 == k || exists j :: 0 <= j < |m| && m[j].0 == AddCount(m, k, n)[i].0 && j == i
  {
    if m != [] && m[0].0 != k && i > 0 {
      AddCountKey(m[1..], k, n, i - 1);
    }
  }

  // ---- the constructor ----

  /** The character counts of the template, in first-occurrence order. */
  function CharCounts(t: string): Counts<char>
  {
    if t == [] then [] else AddCount(CharCounts(t[..|t| - 1]), t[|t| - 1], 1)
  }

  /** The adjacent pairs of a string. */
  function PairsOf(t: string): (ps: seq<Pair>)
    ensures |ps| == if t == [] then 0 else |t| - 1
  {
    if |t| < 2 then [] else PairsOf(t[..|t| - 1]) + [(t[|t| - 2], t[|t| - 1])]
  }

  function PairCounts(ps: seq<Pair>): Counts<Pair>
  {
    if ps == [] then [] else AddCount(PairCounts(ps[..|ps| - 1]), ps[|ps| - 1], 1)
  }

  /** Each key counts its occurrences: the counts are the multiset of the sequence. */
  lemma {:induction false} CountsAreMultiset<K>(s: seq<K>, k: K)
    ensures CountOf(if s == [] then [] else AddCountsOf(s), k) == multiset(s)[k]
    ensures DistinctKeys(AddCountsOf(s)) && NonNegative(AddCountsOf(s))
    ensures Total(AddCountsOf(s)) == |s|
  {
    if s != [] {
      var init := s[..|s| - 1];
      CountsAreMultiset(init, k);
      AddCountGet(AddCountsOf(init), s[|s| - 1], 1, k);
      AddCountKeeps(AddCountsOf(init), s[|s| - 1], 1);
      assert s == init + [s[|s| - 1]];
      assert multiset(s) == multiset(init) + multiset{s[|s| - 1]};
      var g := Get(AddCountsOf(init), k);
      assert g.Some? ==> g.value >= 0 by {
        if g.Some? { GetNonNegative(AddCountsOf(init), k); }
      }
    }
  }

  lemma {:induction false} GetNonNegative<K>(m: Counts<K>, k: K)
    requires NonNegative(m) && Get(m, k).Some?
    ensures Get(m, k).value >= 0
  {
    if m[0].0 != k {
      GetNonNegative(m[1..], k);
    }
  }

  /** Counting a sequence one element at a time. */
  function AddCountsOf<K(==)>(s: seq<K>): Counts<K>
  {
    if s == [] then [] else AddCount(AddCountsOf(s[..|s| - 1]), s[|s| - 1], 1)
  }

  lemma {:induction false} CharCountsIsCounting(t: string)
    ensures CharCounts(t) == AddCountsOf(t)
  {
    if t != [] {
      CharCountsIsCounting(t[..|t| - 1]);
    }
  }

  lemma {:induction false} PairCountsIsCounting(ps: seq<Pair>)
    ensures PairCounts(ps) == AddCountsOf(ps)
  {
    if ps != [] {
      PairCountsIsCounting(ps[..|ps| - 1]);
    }
  }

  /** The template's counts have distinct keys and non-negative values, one more character than pairs. */
  lemma TemplateWellFormed(t: string)
    ensures DistinctKeys(CharCounts(t)) && NonNegative(CharCounts(t))
    ensures DistinctKeys(PairCounts(PairsOf(t))) && NonNegative(PairCounts(PairsOf(t)))
    ensures Total(CharCounts(t)) == Total(PairCounts(PairsOf(t))) + (if t == [] then 0 else 1)
  {
    TemplateCounts(t, 'a', ('a', 'a'));
    CharCountsIsCounting(t);
    PairCountsIsCounting(PairsOf(t));
    CountsAreMultiset(t, 'a');
    CountsAreMultiset(PairsOf(t), ('a', 'a'));
  }

  lemma TemplateCounts(t: string, c: char, p: Pair)
    ensures CountOf(CharCounts(t), c) == multiset(t)[c]
    ensures CountOf(PairCounts(PairsOf(t)), p) == multiset(PairsOf(t))[p]
    ensures Total(CharCounts(t)) == |t|
    ensures Total(PairCounts(PairsOf(t))) == if t == [] then 0 else |t| - 1
  {
    CharCountsIsCounting(t);
    PairCountsIsCounting(PairsOf(t));
    CountsAreMultiset(t, c);
    CountsAreMultiset(PairsOf(t), p);
  }

  function RuleFor(p: Pair, insert: char): Rule
  {
    Rule(insert, [(p.0, insert), (insert, p.1)])
  }

  /** The rules loop: later rules for the same pair override earlier ones. */
  function RuleTable(rules: seq<(Pair, char)>): map<Pair, Rule>
  {
    if rules == [] then map[]
    else
      var last := rules[|rules| - 1];
      RuleTable(rules[..|rules| - 1])[last.0 := RuleFor(last.0, last.1)]
  }

  // ---- the step ----

  datatype Polymer = Polymer(pairs: Counts<Pair>, chars: Counts<char>)

  predicate Covered(pairs: Counts<Pair>, rules: map<Pair, Rule>)
  {
    forall i :: 0 <= i < |pairs| ==> pairs[i].0 in rules
  }

  /** One entry of the step: count its targets into the new pairs, and its insert into chars. */
  function StepEntry(acc: Polymer, entry: (Pair, int), r: Rule): Polymer
  {
    Polymer(AddTargets(acc.pairs, r.targets, entry.1), AddCount(acc.chars, r.insert, entry.1))
  }

  function AddTargets(m: Counts<Pair>, targets: seq<Pair>, n: int): Counts<Pair>
    decreases |targets|
  {
    if targets == [] then m else AddTargets(AddCount(m, targets[0], n), targets[1..], n)
  }

  /** The loop over the pair entries, in order; the new pair counts start empty. */
  function StepFold(pairs: Counts<Pair>, chars: Counts<char>, rules: map<Pair, Rule>): Polymer
    requires Covered(pairs, rules)
  {
    if pairs == [] then Polymer([], chars)
    else
      var last := pairs[|pairs| - 1];
      StepEntry(StepFold(pairs[..|pairs| - 1], chars, rules), last, rules[last.0])
  }

  function StepPolymer(p: Polymer, rules: map<Pair, Rule>): Polymer
    requires Covered(p.pairs, rules)
  {
    StepFold(p.pairs, p.chars, rules)
  }

  /** Two-target rules, as the constructor builds them. */
  predicate TwoTargets(rules: map<Pair, Rule>)
  {
    forall p :: p in rules ==> |rules[p].targets| == 2
  }

  lemma {:induction false} AddTargetsFacts(m: Counts<Pair>, targets: seq<Pair>, n: int)
    requires DistinctKeys(m) && NonNegative(m) && n >= 0
    ensures DistinctKeys(AddTargets(m, targets, n)) && NonNegative(AddTargets(m, targets, n))
    ensures Total(AddTargets(m, targets, n)) == Total(m) + |targets| * n
    decreases |targets|
  {
    if targets != [] {
      AddCountKeeps(m, targets[0], n);
      AddTargetsFacts(AddCount(m, targets[0], n), targets[1..], n);
      MulStep(|targets[1..]|, n);
    }
  }

  /** How often q occurs among the targets of r, times n. */
  function Hits(targets: seq<Pair>, q: Pair): nat
  {
    if targets == [] then 0 else (if targets[0] == q then 1 else 0) + Hits(targets[1..], q)
  }

  lemma {:induction false} AddTargetsCount(m: Counts<Pair>, targets: seq<Pair>, n: int, q: Pair)
    requires DistinctKeys(m) && NonNegative(m) && n >= 0
    ensures CountOf(AddTargets(m, targets, n), q) == CountOf(m, q) + Hits(targets, q) * n
    decreases |targets|
  {
    if targets != [] {
      AddCountOf(m, targets[0], n, q);
      AddCountKeeps(m, targets[0], n);
      AddTargetsCount(AddCount(m, targets[0], n), targets[1..], n, q);
      HitsStep(targets, q, n);
    }
  }

  lemma MulStep(a: int, n: int)
    ensures (a + 1) * n == n + a * n
  {
  }

  lemma HitsStep(targets: seq<Pair>, q: Pair, n: int)
    requires targets != []
    ensures Hits(targets, q) * n == (if targets[0] == q then n else 0) + Hits(targets[1..], q) * n
  {
    var h := Hits(targets[1..], q);
    if targets[0] == q {
      calc {
        Hits(targets, q) * n;
        (1 + h) * n;
        n + h * n;
      }
    }
  }

  lemma AddCountOf(m: Counts<Pair>, k: Pair, n: int, q: Pair)
    requires DistinctKeys(m) && NonNegative(m) && n >= 0
    ensures CountOf(AddCount(m, k, n), q) == CountOf(m, q) + (if k == q then n else 0)
  {
    AddCountGet(m, k, n, q);
    if Get(m, k).Some? { GetNonNegative(m, k); }
  }

  /** Reference count of pair q after a step: each entry contributes its count per target hit. */
  function Produced(pairs: Counts<Pair>, rules: map<Pair, Rule>, q: Pair): int
    requires Covered(pairs, rules)
  {
    if pairs == [] then 0
    else
      var last := pairs[|pairs| - 1];
      Produced(pairs[..|pairs| - 1], rules, q) + Hits(rules[last.0].targets, q) * last.1
  }

  /** Reference count of inserted characters c: the counts of the pairs whose insert is c. */
  function Inserted(pairs: Counts<Pair>, rules: map<Pair, Rule>, c: char): int
    requires Covered(pairs, rules)
  {
    if pairs == [] then 0
    else
      var last := pairs[|pairs| - 1];
      Inserted(pairs[..|pairs| - 1], rules, c) + (if rules[last.0].insert == c then last.1 else 0)
  }

  /**
   * A step's counts: every pair XY with count n adds n to each of its targets, the pair total
   * doubles, and each insert character gains the counts of the pairs that insert it.
   */
  lemma {:induction false} StepCounts(pairs: Counts<Pair>, chars: Counts<char>, rules: map<Pair, Rule>, q: Pair, c: char)
    requires Covered(pairs, rules) && TwoTargets(rules)
    requires NonNegative(pairs) && DistinctKeys(chars) && NonNegative(chars)
    ensures var s := StepFold(pairs, chars, rules);
            DistinctKeys(s.pairs) && NonNegative(s.pairs) && DistinctKeys(s.chars) && NonNegative(s.chars)
    ensures Total(StepFold(pairs, chars, rules).pairs) == 2 * Total(pairs)
    ensures Total(StepFold(pairs, chars, rules).chars) == Total(chars) + Total(pairs)
    ensures CountOf(StepFold(pairs, chars, rules).pairs, q) == Produced(pairs, rules, q)
    ensures CountOf(StepFold(pairs, chars, rules).chars, c) == CountOf(chars, c) + Inserted(pairs, rules, c)
  {
    if pairs != [] {
      var init := pairs[..|pairs| - 1];
      var last := pairs[|pairs| - 1];
      assert Covered(init, rules);
      StepCounts(init, chars, rules, q, c);
      var acc := StepFold(init, chars, rules);
      TotalSnoc(init, last);
      assert pairs == init + [last];
      AddTargetsFacts(acc.pairs, rules[last.0].targets, last.1);
      AddTargetsCount(acc.pairs, rules[last.0].targets, last.1, q);
      AddCountKeeps(acc.chars, rules[last.0].insert, last.1);
      AddCountGet(acc.chars, rules[last.0].insert, last.1, c);
      if Get(acc.chars, c).Some? { GetNonNegative(acc.chars, c); }
    }
  }

  lemma {:induction false} TotalSnoc<K>(m: Counts<K>, e: (K, int))
    ensures Total(m + [e]) == Total(m) + e.1
  {
    if m != [] {
      assert (m + [e])[1..] == m[1..] + [e];
      TotalSnoc(m[1..], e);
    }
  }

  // ---- countDifference ----

  function Values<K>(m: Counts<K>): (vs: seq<int>)
    ensures |vs| == |m|
  {
    if m == [] then [] else [m[0].1] + Values(m[1..])
  }

  function MaxOf(s: seq<int>): int
    requires s != []
  {
    if |s| == 1 then s[0] else Max(s[0], MaxOf(s[1..]))
  }

  function MinOf(s: seq<int>): int
    requires s != []
  {
    if |s| == 1 then s[0] else Min(s[0], MinOf(s[1..]))
  }

  lemma {:induction false} MaxMinBounds(s: seq<int>)
    requires s != []
    ensures forall i :: 0 <= i < |s| ==> MinOf(s) <= s[i] <= MaxOf(s)
    ensures exists i :: 0 <= i < |s| && s[i] == MaxOf(s)
    ensures exists i :: 0 <= i < |s| && s[i] == MinOf(s)
  {
    if |s| > 1 {
      MaxMinBounds(s[1..]);
      var i :| 0 <= i < |s[1..]| && s[1..][i] == MaxOf(s[1..]);
      var j :| 0 <= j < |s[1..]| && s[1..][j] == MinOf(s[1..]);
      assert s[i + 1] == MaxOf(s[1..]) && s[j + 1] == MinOf(s[1..]);
      if s[0] >= MaxOf(s[1..]) {
        assert s[0] == MaxOf(s);
      } else {
        assert s[i + 1] == MaxOf(s);
      }
      if s[0] <= MinOf(s[1..]) {
        assert s[0] == MinOf(s);
      } else {
        assert s[j + 1] == MinOf(s);
      }
    }
  }

  /**
   * countDifference: the last minus the first of the ascending sorted counts, that is the
   * largest count minus the smallest; with no characters it is NaN (None).
   */
  function CountDifference(chars: Counts<char>): Option<int>
  {
    var vs := Values(chars);
    if vs == [] then None else Some(MaxOf(vs) - MinOf(vs))
  }

  /** The difference is the largest gap between any two character counts. */
  lemma DifferenceIsLargestGap(chars: Counts<char>)
    requires chars != []
    ensures CountDifference(chars).Some?
    ensures forall i, j :: 0 <= i < |chars| && 0 <= j < |chars| ==> Values(chars)[i] - Values(chars)[j] <= CountDifference(chars).value
    ensures exists i, j :: 0 <= i < |chars| && 0 <= j < |chars| && Values(chars)[i] - Values(chars)[j] == CountDifference(chars).value
  {
    MaxMinBounds(Values(chars));
  }

  // ---- the class ----

  class PolymerCounter {
    var pairs: Counts<Pair>
    var chars: Counts<char>
    var rules: map<Pair, Rule>

    predicate Valid()
      reads this
    {
      DistinctKeys(pairs) && NonNegative(pairs) && DistinctKeys(chars) && NonNegative(chars) && TwoTargets(rules)
    }

    constructor (template: string, ruleList: seq<(Pair, char)>)
      ensures pairs == PairCounts(PairsOf(template))
      ensures chars == CharCounts(template)
      ensures rules == RuleTable(ruleList)
      ensures Valid()
      ensures Total(chars) == Total(pairs) + (if template == [] then 0 else 1)
    {
      var cs := CountChars(template);
      var ps := CountPairs(template);
      var rs := BuildRules(ruleList);
      pairs, chars, rules := ps, cs, rs;
      TemplateWellFormed(template);
      RuleTableTwoTargets(ruleList);
    }

    /** step: requires a rule for every present pair (otherwise the destructuring throws). */
    method Step()
      requires Valid() && Covered(pairs, rules)
      modifies this
      ensures Valid()
      ensures Polymer(pairs, chars) == StepPolymer(old(Polymer(pairs, chars)), old(rules))
      ensures rules == old(rules)
      ensures Total(pairs) == 2 * old(Total(pairs))
      ensures Total(chars) == old(Total(chars)) + old(Total(pairs))
    {
      var newPairs: Counts<Pair> := [];
      ghost var chars0 := chars;
      var entries := pairs;
      for k := 0 to |entries|
        invariant rules == old(rules)
        invariant Covered(entries[..k], rules)
        invariant Polymer(newPairs, chars) == StepFold(entries[..k], chars0, rules)
      {
        assert entries[..k + 1][..k] == entries[..k];
        var (pair, count) := entries[k];
        var rule := rules[pair];
        ghost var start := newPairs;
        for t := 0 to |rule.targets|
          invariant AddTargets(newPairs, rule.targets[t..], count) == AddTargets(start, rule.targets, count)
        {
          newPairs := AddCount(newPairs, rule.targets[t], count);
          assert rule.targets[t..][1..] == rule.targets[t + 1..];
        }
        assert rule.targets[|rule.targets|..] == [];
        chars := AddCount(chars, rule.insert, count);
      }
      assert entries[..|entries|] == entries;
      StepCounts(entries, chars0, rules, ('a', 'a'), 'a');
      pairs := newPairs;
    }
  }

  /** The reduce building the character counts. */
  method CountChars(template: string) returns (cs: Counts<char>)
    ensures cs == CharCounts(template)
  {
    cs := [];
    for k := 0 to |template|
      invariant cs == CharCounts(template[..k])
    {
      assert template[..k + 1][..k] == template[..k];
      cs := AddCount(cs, template[k], 1);
    }
    assert template[..|template|] == template;
  }

  /** The loop counting the slices template[i..i+2]. */
  method CountPairs(template: string) returns (ps: Counts<Pair>)
    ensures ps == PairCounts(PairsOf(template))
  {
    ps := [];
    if template == [] {
      return;
    }
    var i := 0;
    while i < |template| - 1
      invariant 0 <= i <= |template| - 1
      invariant ps == PairCounts(PairsOf(template[..i + 1]))
    {
      assert template[..i + 2][..i + 1] == template[..i + 1];
      ps := AddCount(ps, (template[i], template[i + 1]), 1);
      i := i + 1;
    }
    assert template[..i + 1] == template;
  }

  method BuildRules(ruleList: seq<(Pair, char)>) returns (rs: map<Pair, Rule>)
    ensures rs == RuleTable(ruleList)
  {
    rs := map[];
    for k := 0 to |ruleList|
      invariant rs == RuleTable(ruleList[..k])
    {
      assert ruleList[..k + 1][..k] == ruleList[..k];
      var (pair, insert) := ruleList[k];
      rs := rs[pair := Rule(insert, [(pair.0, insert), (insert, pair.1)])];
    }
    assert ruleList[..|ruleList|] == ruleList;
  }

  lemma {:induction false} RuleTableTwoTargets(rules: seq<(Pair, char)>)
    ensures TwoTargets(RuleTable(rules))
  {
    if rules != [] {
      RuleTableTwoTargets(rules[..|rules| - 1]);
    }
  }
}
