// RebuildDispatcher._select_requirement_id: the query window, the eligibility filter, the
// prioritizer (any reordering) and the fair batch, of which the first row is dispatched.
module Selection {
  import opened Common
  import opened RebuildRows
  import opened FairBatch

  function OpenRows(table: seq<Row>): seq<Row> {
    if table == [] then []
    else OpenRows(table[..|table| - 1]) + (if IsOpen(table[|table| - 1]) then [table[|table| - 1]] else [])
  }

  function EligibleRows(rows: seq<Row>, now: Time): seq<Row> {
    if rows == [] then []
    else EligibleRows(rows[..|rows| - 1], now)
         + (if IsEligible(rows[|rows| - 1], now) then [rows[|rows| - 1]] else [])
  }

  // WHERE open ORDER BY priority, created_at LIMIT batchSize. Rows with equal keys come in table
  // order, and the table's order is arbitrary.
  function Window(table: seq<Row>, batchSize: nat): seq<Row> {
    var ordered := SortByKey(OpenRows(table));
    if |ordered| <= batchSize then ordered else ordered[..batchSize]
  }

  function Candidates(table: seq<Row>, batchSize: nat, now: Time): seq<Row> {
    EligibleRows(Window(table, batchSize), now)
  }

  // The choice made from the candidates after the prioritizer put them in some order.
  function Choose(adjusted: seq<Row>, limit: int): Option<Row> {
    var batch := FairSelection(adjusted, limit, MAX_ITEMS_PER_TENANT);
    if batch == [] then None else Some(batch[0])
  }

  lemma {:induction false} OpenRowsFacts(table: seq<Row>)
    ensures forall r :: r in OpenRows(table) <==> r in table && IsOpen(r)
    ensures multiset(OpenRows(table)) <= multiset(table)
  {
    if table != [] {
      var n := |table| - 1;
      assert table == table[..n] + [table[n]];
      OpenRowsFacts(table[..n]);
    }
  }

  lemma {:induction false} EligibleRowsFacts(rows: seq<Row>, now: Time)
    ensures forall r :: r in EligibleRows(rows, now) <==> r in rows && IsEligible(r, now)
  {
    if rows != [] {
      var n := |rows| - 1;
      assert rows == rows[..n] + [rows[n]];
      EligibleRowsFacts(rows[..n], now);
    }
  }

  // The window holds open rows only, and any open row left out has a key no smaller than all in it.
  lemma WindowFacts(table: seq<Row>, batchSize: nat)
    ensures forall r | r in Window(table, batchSize) :: r in table && IsOpen(r)
    ensures forall r, x | r in Window(table, batchSize) && x in table && IsOpen(x) && x !in Window(table, batchSize)
              :: KeyLeq(r, x)
    ensures |OpenRows(table)| <= batchSize ==> forall x | x in table && IsOpen(x) :: x in Window(table, batchSize)
  {
    OpenRowsFacts(table);
    SortFacts(OpenRows(table));
    var ordered := SortByKey(OpenRows(table));
    var w := Window(table, batchSize);
    forall r, x | r in w && x in table && IsOpen(x) && x !in w ensures KeyLeq(r, x) {
      assert x in ordered;
      var i :| 0 <= i < |w| && w[i] == r;
      var j :| 0 <= j < |ordered| && ordered[j] == x;
      assert w == ordered[..|w|];
      assert forall k | 0 <= k < |w| :: ordered[k] in w;
      assert ordered[i] == r;
    }
  }

  // The batch starts with the first row of the sorted candidates.
  lemma ChoiceIsFirst(adjusted: seq<Row>, limit: int)
    requires limit >= 1
    ensures |SortByKey(adjusted)| == |adjusted|
    ensures Choose(adjusted, limit) == if adjusted == [] then None else Some(SortByKey(adjusted)[0])
  {
    SortFacts(adjusted);
    var s := SortByKey(adjusted);
    if adjusted != [] {
      assert s[..1][..0] == [];
      assert Greedy(s[..1], limit, MAX_ITEMS_PER_TENANT) == [s[0]];
      GreedyPrefix(s, 1, limit, MAX_ITEMS_PER_TENANT);
    }
  }

  // The first row of a non-empty fair batch has the least key of all candidates.
  lemma ChoiceIsLeast(adjusted: seq<Row>, limit: int)
    requires limit >= 1
    ensures Choose(adjusted, limit).None? <==> adjusted == []
    ensures Choose(adjusted, limit).Some? ==>
              && Choose(adjusted, limit).value in adjusted
              && forall x | x in adjusted :: KeyLeq(Choose(adjusted, limit).value, x)
  {
    ChoiceIsFirst(adjusted, limit);
    SortFacts(adjusted);
    var s := SortByKey(adjusted);
    if adjusted != [] {
      forall x | x in adjusted ensures KeyLeq(s[0], x) {
        assert x in s;
        var i :| 0 <= i < |s| && s[i] == x;
      }
      assert s[0] in s;
    }
  }

  // No priority inversion: a chosen row is eligible and least-keyed among all eligible rows of the
  // table, whatever order the prioritizer produced. Nothing is chosen exactly when the window holds
  // no eligible row; when all open rows fit the window that means no eligible row exists.
  lemma NoPriorityInversion(table: seq<Row>, batchSize: nat, now: Time, adjusted: seq<Row>, limit: int)
    requires limit >= 1 && multiset(adjusted) == multiset(Candidates(table, batchSize, now))
    ensures Choose(adjusted, limit).Some? ==>
              && Choose(adjusted, limit).value in table
              && IsEligible(Choose(adjusted, limit).value, now)
              && forall x | x in table && IsEligible(x, now) :: KeyLeq(Choose(adjusted, limit).value, x)
    ensures Choose(adjusted, limit).None? <==> forall x | x in Window(table, batchSize) :: !IsEligible(x, now)
    ensures |OpenRows(table)| <= batchSize ==>
              (Choose(adjusted, limit).None? <==> forall x | x in table :: !IsEligible(x, now))
  {
    var candidates := Candidates(table, batchSize, now);
    SameMembers(adjusted, candidates);
    ChoiceIsLeast(adjusted, limit);
    EligibleRowsFacts(Window(table, batchSize), now);
    WindowFacts(table, batchSize);
    assert adjusted == [] <==> candidates == [] by {
      assert |multiset(adjusted)| == |adjusted|;
    }
    if candidates != [] {
      assert candidates[0] in Window(table, batchSize);
    }
  }

  lemma SameMembers(a: seq<Row>, b: seq<Row>)
    requires multiset(a) == multiset(b)
    ensures |a| == |b| && forall r :: r in a <==> r in b
  {
    assert |a| == |multiset(a)| == |multiset(b)| == |b|;
    assert forall r :: r in a <==> r in multiset(a);
    assert forall r :: r in b <==> r in multiset(b);
  }

  ghost predicate IsLeast(candidates: seq<Row>, r: Row) {
    r in candidates && forall x | x in candidates :: KeyLeq(r, x)
  }

  ghost predicate UniqueLeast(candidates: seq<Row>) {
    forall x, y | IsLeast(candidates, x) && IsLeast(candidates, y) :: x == y
  }

  ghost predicate OrderIsIrrelevant(candidates: seq<Row>, limit: int) {
    forall adjusted | multiset(adjusted) == multiset(candidates) ::
      Choose(adjusted, limit) == Choose(candidates, limit)
  }

  lemma {:induction false} InsertBehind(s: seq<Row>, r: Row)
    requires s != [] && KeyLeq(s[0], r)
    ensures Insert(s, r)[0] == s[0]
  {
    if !KeyLeq(s[|s| - 1], r) {
      InsertBehind(s[..|s| - 1], r);
    }
  }

  // Among least-keyed candidates the one listed first is chosen.
  lemma {:induction false} SortKeepsLeastFirst(s: seq<Row>)
    requires s != [] && IsLeast(s, s[0])
    ensures SortByKey(s) != [] && SortByKey(s)[0] == s[0]
  {
    var n := |s| - 1;
    assert s == s[..n] + [s[n]];
    if n > 0 {
      SortKeepsLeastFirst(s[..n]);
      InsertBehind(SortByKey(s[..n]), s[n]);
    }
  }

  lemma LeastCanBeChosen(candidates: seq<Row>, r: Row, limit: int) returns (adjusted: seq<Row>)
    requires limit >= 1 && IsLeast(candidates, r)
    ensures multiset(adjusted) == multiset(candidates) && Choose(adjusted, limit) == Some(r)
  {
    var i :| 0 <= i < |candidates| && candidates[i] == r;
    adjusted := [r] + (candidates[..i] + candidates[i + 1..]);
    assert candidates == candidates[..i] + [r] + candidates[i + 1..];
    SameMembers(adjusted, candidates);
    SortKeepsLeastFirst(adjusted);
    ChoiceIsFirst(adjusted, limit);
  }

  // The prioritizer's order is undone by the sort inside select_fair_batch: no reordering whatever
  // (the starvation boost included) changes the choice if and only if a single candidate holds the
  // least key, or the limit lets nothing through. Distinct keys are a special case.
  lemma PrioritizerHasNoEffect(table: seq<Row>, batchSize: nat, now: Time, limit: int)
    ensures var candidates := Candidates(table, batchSize, now);
            && (OrderIsIrrelevant(candidates, limit) <==> limit < 1 || UniqueLeast(candidates))
            && (DistinctKeys(candidates) ==> UniqueLeast(candidates))
  {
    var candidates := Candidates(table, batchSize, now);
    if limit < 1 {
      forall adjusted ensures Choose(adjusted, limit) == None {
        FullStaysFull(SortByKey(adjusted), 0, limit, MAX_ITEMS_PER_TENANT);
      }
    } else if UniqueLeast(candidates) {
      forall adjusted | multiset(adjusted) == multiset(candidates)
        ensures Choose(adjusted, limit) == Choose(candidates, limit)
      {
        SameMembers(adjusted, candidates);
        ChoiceIsLeast(adjusted, limit);
        ChoiceIsLeast(candidates, limit);
        assert candidates != [] ==> IsLeast(candidates, Choose(adjusted, limit).value)
                                    && IsLeast(candidates, Choose(candidates, limit).value);
      }
    } else {
      var x, y :| IsLeast(candidates, x) && IsLeast(candidates, y) && x != y;
      var first := LeastCanBeChosen(candidates, x, limit);
      var second := LeastCanBeChosen(candidates, y, limit);
    }
    if DistinctKeys(candidates) {
      forall x, y | IsLeast(candidates, x) && IsLeast(candidates, y) ensures x == y {
        OnlyOneWithKey(candidates, x, y);
      }
    }
  }

  // ---------------------------------------------------------------- head-of-line blocking

  predicate Before(a: Row, b: Row) {
    KeyLeq(a, b) && !SameKey(a, b)
  }

  function OpenBefore(e: Row): Row -> bool {
    (r: Row) => IsOpen(r) && Before(r, e)
  }

  // In a sorted list with distinct keys, the rows strictly before e's key are those before e.
  lemma {:induction false} CountBefore(s: seq<Row>, p: nat)
    requires Sorted(s) && DistinctKeys(s) && p < |s| && forall r | r in s :: IsOpen(r)
    ensures CountIf(s, OpenBefore(s[p])) == p
    decreases |s|
  {
    var n := |s| - 1;
    var e := s[p];
    if p < n {
      assert s[..n][p] == e;
      CountBefore(s[..n], p);
      assert KeyLeq(e, s[n]) && !SameKey(e, s[n]);
    } else {
      AllBefore(s[..n], e);
    }
  }

  lemma {:induction false} AllBefore(s: seq<Row>, e: Row)
    requires forall r | r in s :: OpenBefore(e)(r)
    ensures CountIf(s, OpenBefore(e)) == |s|
  {
    if s != [] {
      AllBefore(s[..|s| - 1], e);
    }
  }

  lemma {:induction false} CountOfOpen(table: seq<Row>, e: Row)
    ensures CountIf(OpenRows(table), OpenBefore(e)) == CountIf(table, OpenBefore(e))
  {
    if table != [] {
      var n := |table| - 1;
      CountOfOpen(table[..n], e);
      var front := OpenRows(table[..n]);
      if IsOpen(table[n]) {
        assert (front + [table[n]])[..|front|] == front;
      } else {
        assert OpenRows(table) == front;
      }
    }
  }

  // Where an open row stands in the query's order.
  lemma Position(table: seq<Row>, e: Row) returns (p: nat)
    requires DistinctKeys(table) && e in table && IsOpen(e)
    ensures var s := SortByKey(OpenRows(table));
            && p < |s| && s[p] == e && Sorted(s) && DistinctKeys(s)
            && p == CountIf(table, OpenBefore(e))
            && forall r | r in s :: r in table
  {
    var open := OpenRows(table);
    var s := SortByKey(open);
    OpenRowsFacts(table);
    SortFacts(open);
    SubBagDistinct(table, open);
    DistinctKeysUnderPermutation(open, s);
    assert e in s;
    p :| 0 <= p < |s| && s[p] == e;
    CountBefore(s, p);
    CountMonotone(s, open, OpenBefore(e));
    CountMonotone(open, s, OpenBefore(e));
    CountOfOpen(table, e);
  }

  // With distinct keys, the least-keyed eligible row e is dispatched if and only if fewer than
  // batchSize open rows stand before it. All of those are ineligible, and the query counts them.
  lemma HeadOfLineBlocking(table: seq<Row>, batchSize: nat, now: Time, adjusted: seq<Row>, limit: int, e: Row)
    requires limit >= 1 && multiset(adjusted) == multiset(Candidates(table, batchSize, now))
    requires DistinctKeys(table)
    requires e in table && IsEligible(e, now)
    requires forall x | x in table && IsEligible(x, now) :: KeyLeq(e, x)
    ensures CountIf(table, OpenBefore(e)) < batchSize ==> Choose(adjusted, limit) == Some(e)
    ensures CountIf(table, OpenBefore(e)) >= batchSize ==> Choose(adjusted, limit) == None
  {
    var p := Position(table, e);
    var s := SortByKey(OpenRows(table));
    var w := Window(table, batchSize);
    NoPriorityInversion(table, batchSize, now, adjusted, limit);
    if p < batchSize {
      assert w[p] == e;
      var c := Choose(adjusted, limit).value;
      OnlyOneWithKey(table, c, e);
    } else {
      forall x | x in w ensures !IsEligible(x, now) {
        var i :| 0 <= i < |w| && w[i] == x;
        assert s[i] == x && KeyLeq(s[i], s[p]) && !SameKey(s[i], s[p]);
        assert x in table;
      }
    }
  }

  lemma OnlyOneWithKey(s: seq<Row>, a: Row, b: Row)
    requires DistinctKeys(s) && a in s && b in s && SameKey(a, b)
    ensures a == b
  {
    var i :| 0 <= i < |s| && s[i] == a;
    var j :| 0 <= j < |s| && s[j] == b;
    assert i == j;
  }

  lemma SubBagDistinct(s: seq<Row>, b: seq<Row>)
    requires DistinctKeys(s) && multiset(b) <= multiset(s)
    ensures DistinctKeys(b)
  {
    forall i, j | 0 <= i < j < |b| ensures !SameKey(b[i], b[j]) {
      TwiceInBag(b, i, j);
      assert b[i] in multiset(s) && b[j] in multiset(s);
      if SameKey(b[i], b[j]) {
        OnlyOneWithKey(s, b[i], b[j]);
        var x := IndexIn(s, b[i]);
        OnceInBag(s, x);
      }
    }
  }

  // A table on which nothing is dispatched although a row is eligible: one exhausted row of lower
  // key fills a window of one.
  lemma BlockedWitness()
    ensures exists table: seq<Row>, e ::
              && e in table && IsEligible(e, 0)
              && Choose(Candidates(table, 1, 0), 1) == None
  {
    var spent := Row(0, 0, 10, 0, true, Failed, Full, 3, 3, Some(""), Some(0), Some(0), Some(0), Some(0));
    var e := Row(1, 1, 100, 0, true, Pending, Incremental, 0, 3, None, None, None, None, None);
    var table := [spent, e];
    assert table[0] == spent && table[1] == e && e in table;
    assert OpenBefore(e)(spent) && !OpenBefore(e)(e);
    assert table[..1] == [spent] && table[..1][..0] == [];
    assert CountIf(table[..1], OpenBefore(e)) == 1;
    assert CountIf(table, OpenBefore(e)) == 1;
    HeadOfLineBlocking(table, 1, 0, Candidates(table, 1, 0), 1, e);
  }

  // The whole selection. A limit below one selects nothing.
  method SelectRequirementId(table: seq<Row>, batchSize: nat, now: Time, limit: int, adjusted: seq<Row>)
    returns (id: Option<nat>)
    requires multiset(adjusted) == multiset(Candidates(table, batchSize, now))
    ensures id.Some? ==> exists r | r in table && r.id == id.value ::
              IsEligible(r, now) && forall x | x in table && IsEligible(x, now) :: KeyLeq(r, x)
    ensures id.None? <==> limit < 1 || forall x | x in Window(table, batchSize) :: !IsEligible(x, now)
  {
    SameMembers(adjusted, Candidates(table, batchSize, now));
    EligibleRowsFacts(Window(table, batchSize), now);
    if adjusted == [] {
      assert forall x | x in Window(table, batchSize) && IsEligible(x, now) :: x in adjusted;
      return None;
    }
    assert adjusted[0] in Candidates(table, batchSize, now);
    var batch := SelectFairBatch(adjusted, limit, MAX_ITEMS_PER_TENANT);
    if limit >= 1 {
      NoPriorityInversion(table, batchSize, now, adjusted, limit);
      ChoiceIsLeast(adjusted, limit);
    } else {
      FullStaysFull(SortByKey(adjusted), 0, limit, MAX_ITEMS_PER_TENANT);
    }
    if batch == [] {
      return None;
    }
    return Some(batch[0].id);
  }
}
