/**
 * Ticket Translation (2020, day 16): every field allows a few inclusive
 * ranges of values. Nearby tickets with a value that fits no field are
 * invalid; the valid ones tell, column by column, which fields a column
 * can be, and the columns are then decoded greedily from the most
 * constrained one.
 */
module TicketTranslation {
  import opened Common

  /** A parsed field definition: its name and the flat list lower, upper, lower, upper, … */
  datatype Field = Field(name: string, limits: seq<int>)

  /** A column and the names of the fields every valid ticket allows there, in definition order. */
  datatype Match = Match(col: nat, fields: seq<string>)

  /** A decoded column: the chosen field, None where `find` gives undefined. */
  datatype Assignment = Assignment(col: nat, field: Option<string>)

  /**
   * Some pair (limits[2k], limits[2k + 1]) contains n. A trailing lower
   * bound has no upper bound: `n <= undefined` is false.
   */
  predicate InLimits(n: int, limits: seq<int>)
  {
    exists k :: 0 <= k < |limits| && 2 * k + 1 < |limits| && limits[2 * k] <= n <= limits[2 * k + 1]
  }

  /** `isInLimits`: steps through the bounds two at a time and stops at the first pair that contains n. */
  method IsInLimits(n: int, limits: seq<int>) returns (inLimits: bool)
    ensures inLimits <==> InLimits(n, limits)
  {
    var i := 0;
    while i < |limits|
      invariant 0 <= i && i % 2 == 0
      invariant forall k :: 0 <= k && 2 * k < i && 2 * k + 1 < |limits| ==> !(limits[2 * k] <= n <= limits[2 * k + 1])
    {
      if i + 1 < |limits| && limits[i] <= n <= limits[i + 1] {
        assert 2 * (i / 2) == i;
        return true;
      }
      i := i + 2;
    }
    return false;
  }

  /** Some field's limits contain n. */
  predicate ValidValue(n: int, fields: seq<Field>)
  {
    exists f | f in fields :: InLimits(n, f.limits)
  }

  /** `findInvalidNumber`: the first value of the ticket no field allows, None (undefined) when every value fits. */
  function FindInvalidNumber(ticket: seq<int>, fields: seq<Field>): (r: Option<int>)
    ensures r.None? <==> forall i | 0 <= i < |ticket| :: ValidValue(ticket[i], fields)
    ensures r.Some? ==> exists i | 0 <= i < |ticket| ::
      (ticket[i] == r.value && !ValidValue(ticket[i], fields) && forall j | 0 <= j < i :: ValidValue(ticket[j], fields))
  {
    if ticket == [] then None
    else if !ValidValue(ticket[0], fields) then Some(ticket[0])
    else
      var r := FindInvalidNumber(ticket[1..], fields);
      assert forall i | 1 <= i < |ticket| :: ticket[i] == ticket[1..][i - 1];
      if r.Some? then
        var i :| 0 <= i < |ticket[1..]| && ticket[1..][i] == r.value && !ValidValue(ticket[1..][i], fields) &&
          forall j | 0 <= j < i :: ValidValue(ticket[1..][j], fields);
        assert ticket[i + 1] == r.value && forall j | 0 <= j < i + 1 :: ValidValue(ticket[j], fields);
        r
      else r
  }

  /** What one ticket adds to the error rate: `findInvalidNumber(...) || 0`. */
  function TicketError(ticket: seq<int>, fields: seq<Field>): int
  {
    match FindInvalidNumber(ticket, fields)
    case None => 0
    case Some(v) => v
  }

  /**
   * `findTicketErrorRate` as written: a left fold adding every ticket's
   * first invalid value.
   */
  function ErrorRate(tickets: seq<seq<int>>, fields: seq<Field>): int
  {
    if tickets == [] then 0
    else ErrorRate(tickets[..|tickets| - 1], fields) + TicketError(tickets[|tickets| - 1], fields)
  }

  /** The sum of every invalid value of one ticket. */
  function InvalidTotal(ticket: seq<int>, fields: seq<Field>): int
  {
    if ticket == [] then 0
    else (if ValidValue(ticket[0], fields) then 0 else ticket[0]) + InvalidTotal(ticket[1..], fields)
  }

  /** The error rate as documented, "Sum of all invalid numbers": every invalid value of every ticket. */
  function ErrorRateAll(tickets: seq<seq<int>>, fields: seq<Field>): int
  {
    if tickets == [] then 0
    else ErrorRateAll(tickets[..|tickets| - 1], fields) + InvalidTotal(tickets[|tickets| - 1], fields)
  }

  /** The error rate of a batch of tickets is the error rate of each part added. */
  lemma {:induction false} ErrorRateAllAppend(a: seq<seq<int>>, b: seq<seq<int>>, fields: seq<Field>)
    ensures ErrorRateAll(a + b, fields) == ErrorRateAll(a, fields) + ErrorRateAll(b, fields)
    decreases |b|
  {
    if b == [] {
      assert a + b == a;
    } else {
      assert (a + b)[..|a + b| - 1] == a + b[..|b| - 1];
      assert (a + b)[|a + b| - 1] == b[|b| - 1];
      ErrorRateAllAppend(a, b[..|b| - 1], fields);
    }
  }

  /** A ticket with at most one invalid value adds the same to both error rates. */
  lemma {:induction false} SingleInvalidAgrees(ticket: seq<int>, fields: seq<Field>)
    requires forall i, j | 0 <= i < j < |ticket| :: ValidValue(ticket[i], fields) || ValidValue(ticket[j], fields)
    ensures TicketError(ticket, fields) == InvalidTotal(ticket, fields)
  {
    if ticket != [] {
      SingleInvalidAgrees(ticket[1..], fields);
      if !ValidValue(ticket[0], fields) {
        AllValidAddsNothing(ticket[1..], fields);
      }
    }
  }

  /** A ticket whose values all fit adds nothing. */
  lemma {:induction false} AllValidAddsNothing(ticket: seq<int>, fields: seq<Field>)
    requires forall i | 0 <= i < |ticket| :: ValidValue(ticket[i], fields)
    ensures InvalidTotal(ticket, fields) == 0
  {
    if ticket != [] {
      assert ValidValue(ticket[0], fields);
      AllValidAddsNothing(ticket[1..], fields);
    }
  }

  /** When no ticket holds two invalid values, the fold as written gives the documented error rate. */
  lemma {:induction false} ErrorRatesAgree(tickets: seq<seq<int>>, fields: seq<Field>)
    requires forall t | t in tickets :: forall i, j | 0 <= i < j < |t| :: ValidValue(t[i], fields) || ValidValue(t[j], fields)
    ensures ErrorRate(tickets, fields) == ErrorRateAll(tickets, fields)
  {
    if tickets != [] {
      ErrorRatesAgree(tickets[..|tickets| - 1], fields);
      SingleInvalidAgrees(tickets[|tickets| - 1], fields);
    }
  }

  /** A ticket with two invalid values: the fold as written counts 30, the documented rate is 70. */
  lemma ErrorRateCountsFirstOnly()
    ensures ErrorRate([[30, 40]], [Field("class", [1, 3])]) == 30
    ensures ErrorRateAll([[30, 40]], [Field("class", [1, 3])]) == 70
  {
    var fields := [Field("class", [1, 3])];
    assert !InLimits(30, [1, 3]) && !InLimits(40, [1, 3]);
    assert !ValidValue(30, fields) && !ValidValue(40, fields);
    assert [[30, 40]][..0] == [];
    assert [30, 40][1..][1..] == [];
  }

  /** An invalid 0 adds the same 0 to the error rate as a valid ticket. */
  lemma InvalidZeroAddsNothing()
    ensures FindInvalidNumber([0], [Field("class", [1, 3])]) == Some(0)
    ensures TicketError([0], [Field("class", [1, 3])]) == TicketError([2], [Field("class", [1, 3])]) == 0
  {
    assert !InLimits(0, [1, 3]);
    assert InLimits(2, [1, 3]) by {
      assert 0 <= 0 < |[1, 3]| && 2 * 0 + 1 < |[1, 3]| && [1, 3][2 * 0] <= 2 <= [1, 3][2 * 0 + 1];
    }
    assert ValidValue(2, [Field("class", [1, 3])]) by {
      assert Field("class", [1, 3]) in [Field("class", [1, 3])];
    }
  }

  /** The nearby tickets with no invalid value, in their order. */
  function ValidTickets(tickets: seq<seq<int>>, fields: seq<Field>): (valid: seq<seq<int>>)
    ensures forall t | t in valid :: t in tickets && FindInvalidNumber(t, fields).None?
    ensures forall t | t in tickets && FindInvalidNumber(t, fields).None? :: t in valid
  {
    if tickets == [] then []
    else
      var rest := ValidTickets(tickets[1..], fields);
      assert forall t | t in tickets[1..] :: t in tickets;
      assert forall t | t in tickets :: t == tickets[0] || t in tickets[1..];
      if FindInvalidNumber(tickets[0], fields).None? then [tickets[0]] + rest else rest
  }

  /**
   * Every valid ticket allows the field at this column; a ticket too short
   * for the column has `undefined` there, which no limit contains.
   */
  predicate ColumnFits(valid: seq<seq<int>>, col: nat, limits: seq<int>)
  {
    forall t | t in valid :: col < |t| && InLimits(t[col], limits)
  }

  /** The `fields.reduce` of one column: the names of the fields that fit, in definition order. */
  function Candidates(fields: seq<Field>, valid: seq<seq<int>>, col: nat): (names: seq<string>)
    ensures |names| <= |fields|
  {
    if fields == [] then []
    else
      var rest := Candidates(fields[..|fields| - 1], valid, col);
      var f := fields[|fields| - 1];
      if ColumnFits(valid, col, f.limits) then rest + [f.name] else rest
  }

  /** A name is a candidate exactly when some field of that name fits the column. */
  lemma {:induction false} CandidatesMeaning(fields: seq<Field>, valid: seq<seq<int>>, col: nat, name: string)
    ensures name in Candidates(fields, valid, col) <==>
      exists f | f in fields :: f.name == name && ColumnFits(valid, col, f.limits)
  {
    if fields != [] {
      var init := fields[..|fields| - 1];
      CandidatesMeaning(init, valid, col, name);
      assert fields == init + [fields[|fields| - 1]];
      if exists f | f in fields :: f.name == name && ColumnFits(valid, col, f.limits) {
        var f :| f in fields && f.name == name && ColumnFits(valid, col, f.limits);
        if f != fields[|fields| - 1] {
          assert f in init;
        }
      }
    }
  }

  /** The columns 0..n − 1 in order, each with its candidates: the `for` loop's pushes. */
  function Columns(fields: seq<Field>, valid: seq<seq<int>>, n: nat): (ms: seq<Match>)
    ensures |ms| == n
    ensures forall i | 0 <= i < n :: ms[i] == Match(i, Candidates(fields, valid, i))
  {
    if n == 0 then [] else Columns(fields, valid, n - 1) + [Match(n - 1, Candidates(fields, valid, n - 1))]
  }

  /** Fewer candidates, or as many and an earlier column. */
  predicate Before(a: Match, b: Match)
  {
    |a.fields| < |b.fields| || (|a.fields| == |b.fields| && a.col < b.col)
  }

  /** Ordered by candidate count, ties by column: what a stable sort of the columns in order gives. */
  predicate ByCount(ms: seq<Match>)
  {
    forall i, j | 0 <= i < j < |ms| :: Before(ms[i], ms[j])
  }

  /** A match with fewer candidates than the first of a sorted list goes in front. */
  lemma InsertFront(m: Match, sorted: seq<Match>)
    requires ByCount(sorted) && sorted != [] && |m.fields| < |sorted[0].fields|
    ensures ByCount([m] + sorted)
  {
    forall j | 1 <= j < |[m] + sorted| ensures Before(([m] + sorted)[0], ([m] + sorted)[j]) {
      if j > 1 {
        assert Before(sorted[0], sorted[j - 1]);
      }
    }
  }

  /** Otherwise the first stays in front of the rest with m inserted. */
  lemma InsertBehind(m: Match, sorted: seq<Match>, rest: seq<Match>)
    requires ByCount(sorted) && sorted != [] && |sorted[0].fields| <= |m.fields| && sorted[0].col < m.col
    requires ByCount(rest) && multiset(rest) == multiset(sorted[1..]) + multiset{m}
    ensures ByCount([sorted[0]] + rest)
    ensures multiset([sorted[0]] + rest) == multiset(sorted) + multiset{m}
  {
    assert sorted == [sorted[0]] + sorted[1..];
    forall j | 0 <= j < |rest| ensures Before(sorted[0], rest[j]) {
      assert rest[j] in multiset(rest);
      if rest[j] != m {
        assert rest[j] in multiset(sorted[1..]);
        var k :| 0 <= k < |sorted[1..]| && sorted[1..][k] == rest[j];
        assert Before(sorted[0], sorted[k + 1]);
      }
    }
    var s := [sorted[0]] + rest;
    forall i, j | 0 <= i < j < |s| ensures Before(s[i], s[j]) {
      if i > 0 {
        assert s[i] == rest[i - 1] && s[j] == rest[j - 1];
      }
    }
  }

  /** Places m after every match with no more candidates, keeping the sort stable. */
  function InsertByCount(m: Match, sorted: seq<Match>): (s: seq<Match>)
    requires ByCount(sorted) && forall k | 0 <= k < |sorted| :: sorted[k].col < m.col
    ensures ByCount(s) && multiset(s) == multiset(sorted) + multiset{m}
  {
    if sorted == [] then [m]
    else if |m.fields| < |sorted[0].fields| then
      InsertFront(m, sorted);
      [m] + sorted
    else
      var rest := InsertByCount(m, sorted[1..]);
      InsertBehind(m, sorted, rest);
      [sorted[0]] + rest
  }

  /** `possibleMatches.sort((a, b) => a.fields.length - b.fields.length)` on the columns in order. */
  function SortByCount(ms: seq<Match>): (s: seq<Match>)
    requires forall i | 0 <= i < |ms| :: ms[i].col == i
    ensures ByCount(s) && multiset(s) == multiset(ms)
    ensures forall k | 0 <= k < |s| :: s[k].col < |ms|
  {
    if ms == [] then []
    else
      var init := ms[..|ms| - 1];
      var sorted := SortByCount(init);
      assert ms == init + [ms[|ms| - 1]];
      var r := InsertByCount(ms[|ms| - 1], sorted);
      assert forall k | 0 <= k < |r| :: r[k].col < |ms| by {
        forall k | 0 <= k < |r| ensures r[k].col < |ms| {
          assert r[k] in multiset(r);
          assert r[k] in ms;
        }
      }
      r
  }

  /**
   * `findPossibleMatches`: the columns of the first valid ticket, each with
   * its candidate fields, sorted by candidate count. None when no nearby
   * ticket is valid and `tickets[0].length` throws.
   */
  function PossibleMatches(fields: seq<Field>, tickets: seq<seq<int>>): (r: Option<seq<Match>>)
    ensures r.None? <==> ValidTickets(tickets, fields) == []
    ensures r.Some? ==> |r.value| == |ValidTickets(tickets, fields)[0]| && ByCount(r.value)
  {
    var valid := ValidTickets(tickets, fields);
    if valid == [] then None
    else
      var ms := Columns(fields, valid, |valid[0]|);
      var s := SortByCount(ms);
      assert |s| == |multiset(s)| == |multiset(ms)| == |ms|;
      Some(s)
  }

  /** Every sorted entry is one of the columns in order, with its own candidates. */
  lemma SortedEntry(fields: seq<Field>, tickets: seq<seq<int>>, k: nat)
    requires PossibleMatches(fields, tickets).Some? && k < |PossibleMatches(fields, tickets).value|
    ensures var m := PossibleMatches(fields, tickets).value[k]; var valid := ValidTickets(tickets, fields);
      m.col < |valid[0]| && m.fields == Candidates(fields, valid, m.col)
  {
    var valid := ValidTickets(tickets, fields);
    var cols := Columns(fields, valid, |valid[0]|);
    var ms := PossibleMatches(fields, tickets).value;
    assert ms[k] in multiset(cols);
  }

  /** Every column of the first valid ticket has a sorted entry. */
  lemma ColumnSorted(fields: seq<Field>, tickets: seq<seq<int>>, col: nat)
    requires PossibleMatches(fields, tickets).Some? && col < |ValidTickets(tickets, fields)[0]|
    ensures exists k | 0 <= k < |PossibleMatches(fields, tickets).value| :: PossibleMatches(fields, tickets).value[k].col == col
  {
    var valid := ValidTickets(tickets, fields);
    var cols := Columns(fields, valid, |valid[0]|);
    var ms := PossibleMatches(fields, tickets).value;
    assert cols[col] in multiset(ms);
    var k :| 0 <= k < |ms| && ms[k] == cols[col];
  }

  /**
   * The sorted matches hold each column of the first valid ticket exactly
   * once, with every name that fits that column for every valid ticket.
   */
  lemma PossibleMatchesMeaning(fields: seq<Field>, tickets: seq<seq<int>>, col: nat, name: string)
    requires PossibleMatches(fields, tickets).Some?
    ensures var ms := PossibleMatches(fields, tickets).value; var valid := ValidTickets(tickets, fields);
      (col < |valid[0]| <==> exists k | 0 <= k < |ms| :: ms[k].col == col) &&
      forall k | 0 <= k < |ms| && ms[k].col == col ::
        (name in ms[k].fields <==> exists f | f in fields :: f.name == name && ColumnFits(valid, col, f.limits))
  {
    var ms := PossibleMatches(fields, tickets).value;
    var valid := ValidTickets(tickets, fields);
    CandidatesMeaning(fields, valid, col, name);
    if col < |valid[0]| {
      ColumnSorted(fields, tickets, col);
    }
    forall k | 0 <= k < |ms|
      ensures ms[k].col < |valid[0]| && ms[k].fields == Candidates(fields, valid, ms[k].col)
    {
      SortedEntry(fields, tickets, k);
    }
  }

  /** Invalid tickets play no part: adding one anywhere leaves the possible matches unchanged. */
  lemma {:induction false} InvalidTicketIgnored(fields: seq<Field>, before: seq<seq<int>>, bad: seq<int>, after: seq<seq<int>>)
    requires FindInvalidNumber(bad, fields).Some?
    ensures PossibleMatches(fields, before + [bad] + after) == PossibleMatches(fields, before + after)
  {
    ValidTicketsSkip(fields, before, bad, after);
  }

  lemma {:induction false} ValidTicketsSkip(fields: seq<Field>, before: seq<seq<int>>, bad: seq<int>, after: seq<seq<int>>)
    requires FindInvalidNumber(bad, fields).Some?
    ensures ValidTickets(before + [bad] + after, fields) == ValidTickets(before + after, fields)
  {
    var all := before + [bad] + after;
    if before == [] {
      assert all[0] == bad && all[1..] == after;
      assert before + after == after;
    } else {
      ValidTicketsSkip(fields, before[1..], bad, after);
      assert all[0] == before[0] && all[1..] == before[1..] + [bad] + after;
      assert (before + after)[0] == before[0] && (before + after)[1..] == before[1..] + after;
    }
  }

  /** Some decoded column holds this field. */
  predicate Assigned(acc: seq<Assignment>, name: string)
  {
    exists j | 0 <= j < |acc| :: acc[j].field == Some(name)
  }

  /** `fields.find(...)`: the first candidate no earlier column holds, None (undefined) when all are taken. */
  function FirstUnassigned(options: seq<string>, acc: seq<Assignment>): (r: Option<string>)
    ensures r.None? <==> forall k | 0 <= k < |options| :: Assigned(acc, options[k])
    ensures r.Some? ==> exists k | 0 <= k < |options| ::
      (options[k] == r.value && !Assigned(acc, r.value) && forall j | 0 <= j < k :: Assigned(acc, options[j]))
  {
    if options == [] then None
    else if !Assigned(acc, options[0]) then Some(options[0])
    else
      var r := FirstUnassigned(options[1..], acc);
      assert forall k | 1 <= k < |options| :: options[k] == options[1..][k - 1];
      if r.Some? then
        var k :| 0 <= k < |options[1..]| && options[1..][k] == r.value && !Assigned(acc, r.value) &&
          forall j | 0 <= j < k :: Assigned(acc, options[1..][j]);
        assert options[k + 1] == r.value && forall j | 0 <= j < k + 1 :: Assigned(acc, options[j]);
        r
      else r
  }

  /** `decodeFields`' reduce: each column in turn gets its first candidate not yet taken. */
  function Decode(ms: seq<Match>): (r: seq<Assignment>)
    ensures |r| == |ms| && forall i | 0 <= i < |ms| :: r[i].col == ms[i].col
  {
    if ms == [] then []
    else
      var acc := Decode(ms[..|ms| - 1]);
      var m := ms[|ms| - 1];
      acc + [Assignment(m.col, FirstUnassigned(m.fields, acc))]
  }

  /**
   * Every decoded field is a candidate of its column and was free when the
   * column came up; a column stays undecoded only when all its candidates
   * were taken; no field is decoded twice.
   */
  lemma {:induction false} DecodeMeaning(ms: seq<Match>)
    ensures var r := Decode(ms);
      (forall i | 0 <= i < |ms| && r[i].field.Some? :: r[i].field.value in ms[i].fields && !Assigned(r[..i], r[i].field.value)) &&
      (forall i | 0 <= i < |ms| && r[i].field.None? :: forall name | name in ms[i].fields :: Assigned(r[..i], name)) &&
      (forall i, j | 0 <= i < j < |ms| && r[i].field.Some? :: r[j].field != r[i].field)
  {
    if ms != [] {
      var init := ms[..|ms| - 1];
      DecodeMeaning(init);
      var r := Decode(ms);
      var acc := Decode(init);
      var n := |ms| - 1;
      assert r[..n] == acc;
      forall i | 0 <= i < n ensures r[..i] == acc[..i] && r[i] == acc[i] && ms[i] == init[i] {
      }
      var f := FirstUnassigned(ms[n].fields, acc);
      assert r[n].field == f;
      if f.None? {
        forall name | name in ms[n].fields ensures Assigned(r[..n], name) {
          var k :| 0 <= k < |ms[n].fields| && ms[n].fields[k] == name;
        }
      }
      forall i | 0 <= i < n && r[i].field.Some? ensures r[n].field != r[i].field {
        assert acc[i].field == Some(r[i].field.value);
        assert Assigned(acc, r[i].field.value);
      }
    }
  }

  /** `decodeFields`: the possible matches decoded in sorted order; None where `findPossibleMatches` throws. */
  function DecodeFields(fields: seq<Field>, tickets: seq<seq<int>>): (r: Option<seq<Assignment>>)
    ensures r.Some? <==> PossibleMatches(fields, tickets).Some?
    ensures r.Some? ==> |r.value| == |PossibleMatches(fields, tickets).value|
  {
    match PossibleMatches(fields, tickets)
    case None => None
    case Some(ms) => Some(Decode(ms))
  }
}
