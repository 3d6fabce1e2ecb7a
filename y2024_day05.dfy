/**
 * Print Queue (2024, day 5): ordering rules "a|b" say page a must come
 * before page b; an update is valid when no page has a rule naming a page
 * printed earlier, and valid updates contribute their middle page.
 */
module PrintQueue {
  import opened Common

  /** A rule "a|b": page `before` must be printed before page `after`. */
  datatype Rule = Rule(before: int, after: int)

  /** The `RuleLookup` that the rules build, added one at a time. */
  function Lookup(rules: seq<Rule>): map<int, set<int>>
  {
    if rules == [] then map[]
    else
      var m := Lookup(rules[..|rules| - 1]);
      var r := rules[|rules| - 1];
      m[r.before := Following(m, r.before) + {r.after}]
  }

  /** `rules[page] ?? new Set()`. */
  function Following(lookup: map<int, set<int>>, page: int): set<int>
  {
    if page in lookup then lookup[page] else {}
  }

  /** The lookup has a page exactly when some rule starts with it, and lists exactly the rules' second pages. */
  lemma {:induction false} LookupMeaning(rules: seq<Rule>)
    ensures forall a :: a in Lookup(rules) <==> exists k | 0 <= k < |rules| :: rules[k].before == a
    ensures forall a, b :: b in Following(Lookup(rules), a) <==> Rule(a, b) in rules
  {
    if rules != [] {
      var front := rules[..|rules| - 1];
      LookupMeaning(front);
      assert rules == front + [rules[|rules| - 1]];
      forall a
        ensures a in Lookup(rules) <==> exists k | 0 <= k < |rules| :: rules[k].before == a
      {
        if a in Lookup(front) {
          var k :| 0 <= k < |front| && front[k].before == a;
          assert rules[k].before == a;
        }
        if a !in Lookup(rules) {
          forall k | 0 <= k < |rules| ensures rules[k].before != a {
            if k < |front| {
              assert front[k] == rules[k];
            }
          }
        }
      }
    }
  }

  /** `parseRules` on rules already split into their two pages. */
  method ParseRules(rules: seq<Rule>) returns (lookup: map<int, set<int>>)
    ensures lookup == Lookup(rules)
  {
    lookup := map[];
    var i := 0;
    while i < |rules|
      invariant 0 <= i <= |rules|
      invariant lookup == Lookup(rules[..i])
    {
      var rule := rules[i];
      assert rules[..i + 1][..i] == rules[..i];
      if rule.before !in lookup {
        lookup := lookup[rule.before := {}];
      }
      lookup := lookup[rule.before := lookup[rule.before] + {rule.after}];
      i := i + 1;
    }
    assert rules[..i] == rules;
  }

  /** No page has a rule naming a page printed before it. */
  predicate Valid(update: seq<int>, lookup: map<int, set<int>>)
  {
    forall i, j | 0 <= i < j < |update| :: update[i] !in Following(lookup, update[j])
  }

  /** `isUpdateValid`: the set of pages seen so far must not meet the current page's rules. */
  method IsUpdateValid(update: seq<int>, lookup: map<int, set<int>>) returns (valid: bool)
    ensures valid == Valid(update, lookup)
  {
    var seen: set<int> := {};
    var i := 0;
    while i < |update|
      invariant 0 <= i <= |update|
      invariant seen == set k | 0 <= k < i :: update[k]
      invariant forall k, j | 0 <= k < j < i :: update[k] !in Following(lookup, update[j])
    {
      var page := update[i];
      var pageRules := Following(lookup, page);
      ghost var earlier := exists k | 0 <= k < i :: update[k] in pageRules;
      if !earlier {
        assert seen * pageRules == {};
      }
      if seen * pageRules != {} {
        ghost var k :| 0 <= k < i && update[k] in pageRules;
        return false;
      }
      assert forall k | 0 <= k < i :: update[k] in seen;
      seen := seen + {page};
      i := i + 1;
    }
    return true;
  }

  /** With the lookup the rules build, an update is valid exactly when no rule puts a later page first. */
  lemma ValidAgainstRules(update: seq<int>, rules: seq<Rule>)
    ensures Valid(update, Lookup(rules)) <==>
      forall i, j | 0 <= i < j < |update| :: Rule(update[j], update[i]) !in rules
  {
    LookupMeaning(rules);
  }

  /** An update with at most one page is valid. */
  lemma ShortValid(update: seq<int>, lookup: map<int, set<int>>)
    requires |update| <= 1
    ensures Valid(update, lookup)
  {
  }

  /** Every prefix of a valid update is valid. */
  lemma ValidPrefix(update: seq<int>, lookup: map<int, set<int>>, n: nat)
    requires Valid(update, lookup) && n <= |update|
    ensures Valid(update[..n], lookup)
  {
  }

  /** `getMiddleNumber`: the element at index ⌊length / 2⌋; an empty update has none. */
  function MiddleNumber(update: seq<int>): (r: Option<int>)
    ensures r.Some? <==> |update| > 0
    ensures r.Some? ==> r.value in update
  {
    if |update| == 0 then None else Some(update[|update| / 2])
  }

  /** The middle page has as many pages after it as before it, or one fewer when the length is even. */
  lemma MiddleSplits(update: seq<int>)
    requires |update| > 0
    ensures exists k | 0 <= k < |update| ::
      MiddleNumber(update) == Some(update[k]) &&
      |update[k + 1..]| == |update[..k]| - (if |update| % 2 == 0 then 1 else 0)
  {
    var k := |update| / 2;
    assert MiddleNumber(update) == Some(update[k]);
  }

  /** For an odd number of pages the middle is the same read from either end. */
  lemma MiddleOfReversed(update: seq<int>)
    requires |update| % 2 == 1
    ensures MiddleNumber(update) == MiddleNumber(seq(|update|, i requires 0 <= i < |update| => update[|update| - 1 - i]))
  {
  }
}
