/**
 * Rucksack Reorganization (2022, day 3): each backpack is a string of item
 * letters; part 1 finds the item in both halves of a backpack, part 2 the
 * badge item shared by each group of three backpacks, and both sum the
 * items' priorities.
 */
module Rucksack {
  import opened Common

  /** `findPriority`: the char code minus 96 above '`' and minus 38 otherwise; NaN (None) for the empty string. */
  function FindPriority(item: string): (p: Option<int>)
    ensures p.Some? <==> item != []
  {
    if item == [] then None
    else
      var code := item[0] as int;
      Some(code - (if code > 96 then 96 else 38))
  }

  predicate IsLower(c: char) { 'a' <= c <= 'z' }
  predicate IsUpper(c: char) { 'A' <= c <= 'Z' }

  /** a..z have priorities 1..26 in order, A..Z have 27..52, so distinct letters have distinct priorities. */
  lemma PriorityOfLetters(c: char)
    requires IsLower(c) || IsUpper(c)
    ensures IsLower(c) ==> FindPriority([c]) == Some((c as int) - ('a' as int) + 1)
    ensures IsUpper(c) ==> FindPriority([c]) == Some((c as int) - ('A' as int) + 27)
    ensures 1 <= FindPriority([c]).value <= 52
  {
  }

  lemma PriorityInjective(c: char, d: char)
    requires IsLower(c) || IsUpper(c)
    requires IsLower(d) || IsUpper(d)
    requires FindPriority([c]) == FindPriority([d])
    ensures c == d
  {
    PriorityOfLetters(c);
    PriorityOfLetters(d);
  }

  /** The number of leading positions for which `i < backpack.length / 2` holds (a real division). */
  function Half(n: nat): (h: nat)
    ensures forall i: nat :: i < h <==> 2 * i < n
  {
    (n + 1) / 2
  }

  /** Whether the char occurs among the first k items. */
  predicate InFirst(b: string, k: nat, c: char)
    requires k <= |b|
  {
    exists i :: 0 <= i < k && b[i] == c
  }

  /**
   * `findSharedItem`: the first item of the second half that also occurs in
   * the first half, or the empty string when there is none.
   */
  method FindSharedItem(backpack: string) returns (r: string)
    ensures r == [] <==> forall j | Half(|backpack|) <= j < |backpack| :: !InFirst(backpack, Half(|backpack|), backpack[j])
    ensures r != [] ==> exists j | Half(|backpack|) <= j < |backpack| ::
      r == [backpack[j]] && InFirst(backpack, Half(|backpack|), backpack[j]) &&
      forall k | Half(|backpack|) <= k < j :: !InFirst(backpack, Half(|backpack|), backpack[k])
  {
    var h := Half(|backpack|);
    var items: set<char> := {};
    for i := 0 to |backpack|
      invariant items == set k | 0 <= k < Min(i, h) :: backpack[k]
      invariant forall k | h <= k < i :: !InFirst(backpack, h, backpack[k])
    {
      if 2 * i < |backpack| {
        items := items + {backpack[i]};
      } else if backpack[i] in items {
        return [backpack[i]];
      }
    }
    return [];
  }

  /** The object keys of `createLetterDict` in `for ... in` order: integer-like keys ascending, then the rest in order of first appearance. */
  function LetterKeys(s: string): (keys: seq<char>)
    ensures forall c :: c in keys <==> c in s
    ensures forall i, j | 0 <= i < j < |keys| :: keys[i] != keys[j]
  {
    var digits, others := DigitKeys(s, 0), OtherKeys(s);
    assert forall i, j | 0 <= i < |digits| && 0 <= j < |others| :: digits[i] != others[j] by {
      forall i, j | 0 <= i < |digits| && 0 <= j < |others|
        ensures digits[i] != others[j]
      {
        assert digits[i] in digits && others[j] in others;
      }
    }
    digits + others
  }

  predicate IsDigit(c: char) { '0' <= c <= '9' }

  /** The digits from '0' + d up to '9' that occur in s, ascending. */
  function DigitKeys(s: string, d: nat): (keys: seq<char>)
    requires d <= 10
    ensures forall c :: c in keys <==> IsDigit(c) && c in s && c as int >= '0' as int + d
    ensures forall i, j | 0 <= i < j < |keys| :: keys[i] < keys[j]
    decreases 10 - d
  {
    if d == 10 then []
    else
      var c := ('0' as int + d) as char;
      var rest := DigitKeys(s, d + 1);
      assert forall i | 0 <= i < |rest| :: c < rest[i] by {
        forall i | 0 <= i < |rest|
          ensures c < rest[i]
        {
          assert rest[i] in rest;
        }
      }
      (if c in s then [c] else []) + rest
  }

  /** The non-digit chars of s, each once, in order of first appearance. */
  function OtherKeys(s: string): (keys: seq<char>)
    ensures forall c :: c in keys <==> !IsDigit(c) && c in s
    ensures forall i, j | 0 <= i < j < |keys| :: keys[i] != keys[j]
  {
    if s == [] then []
    else
      var rest := OtherKeys(s[..|s| - 1]);
      var c := s[|s| - 1];
      assert forall x :: x in s <==> x in s[..|s| - 1] || x == c by {
        assert s == s[..|s| - 1] + [c];
      }
      if IsDigit(c) || c in rest then rest else rest + [c]
  }

  /** `lookups.every(lookup => char in lookup)`. */
  predicate InAll(group: seq<string>, c: char)
  {
    forall k | 0 <= k < |group| :: c in group[k]
  }

  /** The index of the first key every backpack holds. */
  function FirstInAll(keys: seq<char>, group: seq<string>, from: nat): (r: Option<nat>)
    requires from <= |keys|
    ensures r.Some? ==> from <= r.value < |keys| && InAll(group, keys[r.value])
    ensures r.Some? ==> forall j | from <= j < r.value :: !InAll(group, keys[j])
    ensures r.None? ==> forall j | from <= j < |keys| :: !InAll(group, keys[j])
    decreases |keys| - from
  {
    if from == |keys| then None
    else if InAll(group, keys[from]) then Some(from)
    else FirstInAll(keys, group, from + 1)
  }

  /**
   * `findBadge`: the first key of the first backpack, in `for ... in`
   * order, that every backpack of the group holds; the empty string when
   * there is none or the group is empty.
   */
  method FindBadge(group: seq<string>) returns (r: string)
    ensures group == [] ==> r == []
    ensures group != [] ==> var keys := LetterKeys(group[0]);
      r == match FirstInAll(keys, group, 0) { case None => [] case Some(i) => [keys[i]] }
  {
    if group == [] {
      return [];
    }
    var keys := LetterKeys(group[0]);
    for i := 0 to |keys|
      invariant FirstInAll(keys, group, i) == FirstInAll(keys, group, 0)
    {
      if InAll(group, keys[i]) {
        return [keys[i]];
      }
    }
    return [];
  }

  /** A char every backpack of a non-empty group holds is a key of the first, so findBadge answers. */
  lemma BadgeFound(group: seq<string>, c: char)
    requires group != [] && InAll(group, c)
    ensures FirstInAll(LetterKeys(group[0]), group, 0).Some?
  {
    var keys := LetterKeys(group[0]);
    assert c in keys;
    var i :| 0 <= i < |keys| && keys[i] == c;
    assert InAll(group, keys[i]);
  }

  /** The concatenation of the chunks. */
  function Flatten<T>(chunks: seq<seq<T>>): seq<T>
  {
    if chunks == [] then [] else Flatten(chunks[..|chunks| - 1]) + chunks[|chunks| - 1]
  }

  /**
   * `chunk`: consecutive slices of `size` elements, the last one possibly
   * shorter, which together are the input.
   */
  method Chunk<T>(arr: seq<T>, size: nat) returns (result: seq<seq<T>>)
    requires size > 0
    ensures Flatten(result) == arr
    ensures |result| == (|arr| + size - 1) / size
    ensures forall k | 0 <= k < |result| :: 0 < |result[k]| <= size
    ensures forall k | 0 <= k < |result| - 1 :: |result[k]| == size
  {
    result := [];
    var i := 0;
    while i < |arr|
      invariant i == |result| * size
      invariant Flatten(result) == arr[..Min(i, |arr|)]
      invariant i < |arr| ==> Flatten(result) == arr[..i]
      invariant forall k | 0 <= k < |result| :: 0 < |result[k]| <= size
      invariant forall k | 0 <= k < |result| - 1 :: |result[k]| == size
      invariant |result| > 0 && i < |arr| ==> |result[|result| - 1]| == size
      invariant |result| > 0 ==> (|result| - 1) * size < |arr|
      decreases |arr| - i
    {
      var piece := arr[i..Min(i + size, |arr|)];
      assert arr[..Min(i + size, |arr|)] == arr[..i] + piece;
      result := result + [piece];
      i := i + size;
    }
    ChunkCount(|arr|, size, |result|);
  }

  lemma ChunkCount(n: nat, size: nat, count: nat)
    requires size > 0
    requires (count == 0 && n == 0) || (count > 0 && (count - 1) * size < n <= count * size)
    ensures count == (n + size - 1) / size
  {
    if count > 0 {
      DivUnique(n + size - 1, size, count, n + size - 1 - count * size);
    }
  }
}
