// select_fair_batch: a stable sort by (priority, created_at), then a greedy scan with a cap per
// tenant and a limit overall. The result is the best feasible batch, position by position.
module FairBatch {
  import opened Common
  import opened RebuildRows
  import opened Sums

  predicate KeyLeq(a: Row, b: Row) {
    a.priority < b.priority || (a.priority == b.priority && a.createdAt <= b.createdAt)
  }

  predicate SameKey(a: Row, b: Row) {
    a.priority == b.priority && a.createdAt == b.createdAt
  }

  ghost predicate Sorted(s: seq<Row>) {
    forall i, j | 0 <= i < j < |s| :: KeyLeq(s[i], s[j])
  }

  ghost predicate DistinctKeys(s: seq<Row>) {
    forall i, j | 0 <= i < j < |s| :: !SameKey(s[i], s[j])
  }

  // ---------------------------------------------------------------- stable sort

  // Places r behind every row whose key does not exceed its own.
  function Insert(s: seq<Row>, r: Row): seq<Row> {
    if s == [] then [r]
    else if KeyLeq(s[|s| - 1], r) then s + [r]
    else Insert(s[..|s| - 1], r) + [s[|s| - 1]]
  }

  // Python's `sorted` with the key (priority, created_at).
  function SortByKey(s: seq<Row>): seq<Row> {
    if s == [] then [] else Insert(SortByKey(s[..|s| - 1]), s[|s| - 1])
  }

  // The rows of s that share r's key, in their order of appearance.
  function WithKeyOf(s: seq<Row>, r: Row): seq<Row> {
    if s == [] then []
    else WithKeyOf(s[..|s| - 1], r) + (if SameKey(s[|s| - 1], r) then [s[|s| - 1]] else [])
  }

  lemma {:induction false} InsertBag(s: seq<Row>, r: Row)
    ensures multiset(Insert(s, r)) == multiset(s) + multiset{r}
  {
    if s != [] {
      assert s == s[..|s| - 1] + [s[|s| - 1]];
      if !KeyLeq(s[|s| - 1], r) {
        InsertBag(s[..|s| - 1], r);
      }
    }
  }

  lemma {:induction false} InsertSorts(s: seq<Row>, r: Row)
    requires Sorted(s)
    ensures Sorted(Insert(s, r))
    ensures multiset(Insert(s, r)) == multiset(s) + multiset{r}
  {
    InsertBag(s, r);
    if s != [] {
      var front, last := s[..|s| - 1], s[|s| - 1];
      if !KeyLeq(last, r) {
        InsertSorts(front, r);
        InsertBag(front, r);
        forall x | x in Insert(front, r) ensures KeyLeq(x, last) {
          assert x in multiset(front) + multiset{r};
        }
      }
    }
  }

  lemma {:induction false} InsertIsStable(s: seq<Row>, r: Row, k: Row)
    requires Sorted(s)
    ensures WithKeyOf(Insert(s, r), k) == WithKeyOf(s, k) + (if SameKey(r, k) then [r] else [])
  {
    if s == [] {
      assert WithKeyOf([r], k) == WithKeyOf([], k) + (if SameKey(r, k) then [r] else []);
    } else {
      var front, last := s[..|s| - 1], s[|s| - 1];
      if KeyLeq(last, r) {
        assert (s + [r])[..|s|] == s;
      } else {
        InsertIsStable(front, r, k);
        assert (Insert(front, r) + [last])[..|Insert(front, r)|] == Insert(front, r);
        assert !(SameKey(last, k) && SameKey(r, k));
      }
    }
  }

  // SortByKey is a stable sort: ordered, the same rows, and equal keys keep their order.
  lemma {:induction false} SortIsStable(s: seq<Row>, k: Row)
    ensures Sorted(SortByKey(s))
    ensures multiset(SortByKey(s)) == multiset(s)
    ensures WithKeyOf(SortByKey(s), k) == WithKeyOf(s, k)
  {
    if s != [] {
      var front, last := s[..|s| - 1], s[|s| - 1];
      assert s == front + [last];
      SortIsStable(front, k);
      InsertSorts(SortByKey(front), last);
      InsertIsStable(SortByKey(front), last, k);
    }
  }

  lemma SortFacts(s: seq<Row>)
    ensures Sorted(SortByKey(s)) && multiset(SortByKey(s)) == multiset(s) && |SortByKey(s)| == |s|
    ensures forall r :: r in SortByKey(s) <==> r in s
  {
    if s != [] {
      SortIsStable(s, s[0]);
    }
    assert |multiset(SortByKey(s))| == |multiset(s)|;
    assert forall r :: r in SortByKey(s) <==> r in multiset(SortByKey(s));
    assert forall r :: r in s <==> r in multiset(s);
  }

  lemma DistinctKeysUnderPermutation(a: seq<Row>, b: seq<Row>)
    requires multiset(a) == multiset(b) && DistinctKeys(a)
    ensures DistinctKeys(b)
  {
    forall i, j | 0 <= i < j < |b| ensures !SameKey(b[i], b[j]) {
      if SameKey(b[i], b[j]) {
        TwiceInBag(b, i, j);
        var x: nat := IndexIn(a, b[i]);
        var y: nat := IndexIn(a, b[j]);
        if x == y {
          OnceInBag(a, x);
        }
      }
    }
  }

  lemma IndexIn(s: seq<Row>, r: Row) returns (i: nat)
    requires r in multiset(s) || r in s
    ensures i < |s| && s[i] == r
  {
    assert r in s;
    i :| 0 <= i < |s| && s[i] == r;
  }

  lemma TwiceInBag(s: seq<Row>, i: nat, j: nat)
    requires i < j < |s|
    ensures s[i] == s[j] ==> multiset(s)[s[i]] >= 2
    ensures s[i] in multiset(s) && s[j] in multiset(s)
  {
    assert s == s[..j] + [s[j]] + s[j + 1..];
    assert s[i] in s[..j];
  }

  lemma OnceInBag(s: seq<Row>, i: nat)
    requires i < |s| && DistinctKeys(s)
    ensures multiset(s)[s[i]] == 1
  {
    assert s == s[..i] + [s[i]] + s[i + 1..];
    assert s[i] !in s[..i] && s[i] !in s[i + 1..];
  }

  // With distinct keys there is only one sorted arrangement.
  lemma {:induction false} SortedUnique(a: seq<Row>, b: seq<Row>)
    requires Sorted(a) && Sorted(b) && multiset(a) == multiset(b) && DistinctKeys(a)
    ensures a == b
  {
    assert |a| == |multiset(a)| == |multiset(b)| == |b|;
    if a != [] {
      var n := |a| - 1;
      SameLast(a, b);
      var x, y := a[..n], b[..n];
      assert multiset(x) == multiset(y) by {
        DropLast(a);
        DropLast(b);
      }
      SortedUnique(x, y);
      assert a == x + [a[n]] && b == y + [b[n]];
    }
  }

  lemma SameLast(a: seq<Row>, b: seq<Row>)
    requires Sorted(a) && Sorted(b) && multiset(a) == multiset(b) && DistinctKeys(a)
    requires |a| == |b| > 0
    ensures a[|a| - 1] == b[|b| - 1]
  {
    var n := |a| - 1;
    assert a[n] in multiset(a) && b[n] in multiset(b);
    var i := IndexIn(b, a[n]);
    var j := IndexIn(a, b[n]);
  }

  lemma DropLast(s: seq<Row>)
    requires s != []
    ensures multiset(s[..|s| - 1]) == multiset(s) - multiset{s[|s| - 1]}
  {
    assert s == s[..|s| - 1] + [s[|s| - 1]];
  }

  // ---------------------------------------------------------------- counting per tenant

  function CountIf(s: seq<Row>, p: Row -> bool): nat {
    if s == [] then 0
    else CountIf(s[..|s| - 1], p) + (if p(s[|s| - 1]) then 1 else 0)
  }

  lemma {:induction false} CountConcat(a: seq<Row>, b: seq<Row>, p: Row -> bool)
    ensures CountIf(a + b, p) == CountIf(a, p) + CountIf(b, p)
  {
    if b == [] {
      assert a + b == a;
    } else {
      var n := |b| - 1;
      assert (a + b)[..|a + b| - 1] == a + b[..n];
      CountConcat(a, b[..n], p);
    }
  }

  lemma CountOfSnoc(s: seq<Row>, r: Row, p: Row -> bool)
    ensures CountIf(s + [r], p) == CountIf(s, p) + (if p(r) then 1 else 0)
  {
    assert (s + [r])[..|s|] == s;
  }

  lemma {:induction false} CountMonotone(b: seq<Row>, s: seq<Row>, p: Row -> bool)
    requires multiset(b) <= multiset(s)
    ensures CountIf(b, p) <= CountIf(s, p)
  {
    if b != [] {
      var n := |b| - 1;
      assert b[n] in multiset(b);
      var i := IndexIn(s, b[n]);
      var rest := s[..i] + s[i + 1..];
      assert s == s[..i] + ([s[i]] + s[i + 1..]);
      assert multiset(b[..n]) <= multiset(rest) by {
        assert multiset(s) == multiset(s[..i]) + (multiset{s[i]} + multiset(s[i + 1..]));
        assert multiset(rest) == multiset(s) - multiset{s[i]};
        DropLast(b);
      }
      CountMonotone(b[..n], rest, p);
      CountConcat(s[..i], s[i + 1..], p);
      CountConcat(s[..i], [s[i]] + s[i + 1..], p);
      CountConcat([s[i]], s[i + 1..], p);
      assert CountIf([s[i]], p) == CountIf([], p) + (if p(s[i]) then 1 else 0);
    }
  }

  function OfTenant(tenant: nat): Row -> bool {
    (r: Row) => r.tenant == tenant
  }

  function Count(s: seq<Row>, tenant: nat): nat {
    CountIf(s, OfTenant(tenant))
  }

  ghost function Tenants(s: seq<Row>): set<nat> {
    set r | r in s :: r.tenant
  }

  ghost function Counts(s: seq<Row>): nat -> int {
    (t: nat) => Count(s, t)
  }

  ghost function CappedCounts(s: seq<Row>, cap: int): nat -> int {
    (t: nat) => Min(Count(s, t), cap)
  }

  // A list is as long as its per-tenant counts add up to.
  lemma {:induction false} LengthIsSum(s: seq<Row>, ts: set<nat>)
    requires Tenants(s) <= ts
    ensures Sum(ts, Counts(s)) == |s|
  {
    if s == [] {
      ZeroSum(ts);
      Congruent(ts, Counts(s), (t: nat) => 0);
    } else {
      var n := |s| - 1;
      assert forall r | r in s[..n] :: r in s;
      assert s[n].tenant in Tenants(s);
      LengthIsSum(s[..n], ts);
      Bump(ts, Counts(s[..n]), Counts(s), s[n].tenant);
    }
  }

  lemma {:induction false} ZeroSum(ts: set<nat>)
    ensures Sum(ts, (t: nat) => 0) == 0
    decreases |ts|
  {
    if ts != {} {
      var t :| t in ts;
      Pick(ts, (t: nat) => 0, t);
      ZeroSum(ts - {t});
    }
  }

  // ---------------------------------------------------------------- greedy scan

  // The batch after the scan has passed all of s.
  function Greedy(s: seq<Row>, limit: int, cap: int): seq<Row> {
    if s == [] then []
    else
      var picked := Greedy(s[..|s| - 1], limit, cap);
      var r := s[|s| - 1];
      if |picked| >= limit || Count(picked, r.tenant) >= cap then picked else picked + [r]
  }

  function FairSelection(rows: seq<Row>, limit: int, cap: int): seq<Row> {
    Greedy(SortByKey(rows), limit, cap)
  }

  ghost predicate Feasible(b: seq<Row>, rows: seq<Row>, limit: int, cap: int) {
    && multiset(b) <= multiset(rows)
    && |b| <= limit
    && (forall t :: Count(b, t) <= cap)
    && Sorted(b)
  }

  lemma {:induction false} GreedyPrefix(s: seq<Row>, m: nat, limit: int, cap: int)
    requires m <= |s|
    ensures Greedy(s[..m], limit, cap) <= Greedy(s, limit, cap)
  {
    if m < |s| {
      var front := s[..|s| - 1];
      assert front[..m] == s[..m];
      GreedyPrefix(front, m, limit, cap);
    } else {
      assert s[..m] == s;
    }
  }

  lemma {:induction false} GreedyFeasible(s: seq<Row>, limit: int, cap: int)
    requires Sorted(s) && limit >= 0 && cap >= 0
    ensures Feasible(Greedy(s, limit, cap), s, limit, cap)
    ensures forall r | r in Greedy(s, limit, cap) :: r in s
  {
    if s != [] {
      var front, r := s[..|s| - 1], s[|s| - 1];
      assert s == front + [r];
      GreedyFeasible(front, limit, cap);
      var picked := Greedy(front, limit, cap);
      forall t ensures Count(Greedy(s, limit, cap), t) <= cap {
        assert Count(picked, t) <= cap;
        CountOfSnoc(picked, r, OfTenant(t));
      }
      assert forall x | x in front :: KeyLeq(x, r);
    }
  }

  // Until the limit is reached every tenant gets all it may have.
  lemma {:induction false} GreedySaturates(s: seq<Row>, limit: int, cap: int, tenant: nat)
    requires cap >= 0 && |Greedy(s, limit, cap)| < limit
    ensures Count(Greedy(s, limit, cap), tenant) == Min(Count(s, tenant), cap)
  {
    if s != [] {
      var front, r := s[..|s| - 1], s[|s| - 1];
      var picked := Greedy(front, limit, cap);
      assert (picked + [r])[..|picked|] == picked;
      GreedySaturates(front, limit, cap, tenant);
      GreedySaturates(front, limit, cap, r.tenant);
    }
  }

  lemma GreedyAtLeastAsLong(s: seq<Row>, b: seq<Row>, limit: int, cap: int)
    requires limit >= 0 && cap >= 0
    requires multiset(b) <= multiset(s) && |b| <= limit && forall t :: Count(b, t) <= cap
    ensures |b| <= |Greedy(s, limit, cap)|
  {
    var g := Greedy(s, limit, cap);
    if |g| < limit {
      var ts := Tenants(b) + Tenants(g);
      forall t ensures Count(b, t) <= Count(g, t) {
        GreedySaturates(s, limit, cap, t);
        CountMonotone(b, s, OfTenant(t));
      }
      LengthIsSum(b, ts);
      LengthIsSum(g, ts);
      Monotone(ts, Counts(b), Counts(g));
    }
  }

  // The length of the prefix of a sorted list whose keys do not exceed k's.
  function UpTo(s: seq<Row>, k: Row): (m: nat)
    ensures m <= |s|
    ensures forall i | 0 <= i < m :: KeyLeq(s[i], k)
    ensures m < |s| ==> !KeyLeq(s[m], k)
  {
    if s == [] then 0
    else if !KeyLeq(s[0], k) then 0
    else 1 + UpTo(s[1..], k)
  }

  lemma BagOfPrefix(s: seq<Row>, m: nat, b: seq<Row>, k: Row)
    requires Sorted(s) && multiset(b) <= multiset(s)
    requires m == UpTo(s, k) && forall r | r in b :: KeyLeq(r, k)
    ensures multiset(b) <= multiset(s[..m])
  {
    assert s == s[..m] + s[m..];
    forall r | r in b ensures multiset(b)[r] <= multiset(s[..m])[r] {
      assert forall i | m <= i < |s| :: KeyLeq(s[m], s[i]);
      assert r !in s[m..];
      assert multiset(s[m..])[r] == 0;
    }
    forall r ensures multiset(b)[r] <= multiset(s[..m])[r] {
      if r !in b {
        assert r !in multiset(b);
      }
    }
  }

  lemma HeadFeasible(s: seq<Row>, b: seq<Row>, i: nat, limit: int, cap: int)
    requires Feasible(b, s, limit, cap) && i < |b|
    ensures Feasible(b[..i + 1], s, limit, cap)
    ensures forall r | r in b[..i + 1] :: KeyLeq(r, b[i])
  {
    var head, rest := b[..i + 1], b[i + 1..];
    assert b == head + rest;
    assert multiset(b) == multiset(head) + multiset(rest);
    forall t ensures Count(head, t) <= cap {
      CountConcat(head, rest, OfTenant(t));
      assert Count(b, t) <= cap;
    }
  }

  lemma DominatesAt(s: seq<Row>, b: seq<Row>, i: nat, limit: int, cap: int)
    requires Sorted(s) && limit >= 0 && cap >= 0 && Feasible(b, s, limit, cap) && i < |b|
    ensures i < |Greedy(s, limit, cap)| && KeyLeq(Greedy(s, limit, cap)[i], b[i])
  {
    var m := UpTo(s, b[i]);
    HeadFeasible(s, b, i, limit, cap);
    BagOfPrefix(s, m, b[..i + 1], b[i]);
    GreedyAtLeastAsLong(s[..m], b[..i + 1], limit, cap);
    GreedyPrefix(s, m, limit, cap);
    assert i < |Greedy(s[..m], limit, cap)|;
    GreedyFeasible(s[..m], limit, cap);
    assert Greedy(s[..m], limit, cap)[i] in s[..m];
  }

  // Greedy dominance: the selection is itself feasible, no feasible batch is longer, and at every
  // position its key is at most the key any feasible batch has there.
  lemma GreedyDominates(rows: seq<Row>, b: seq<Row>, limit: int, cap: int)
    requires limit >= 0 && cap >= 0 && Feasible(b, rows, limit, cap)
    ensures Feasible(FairSelection(rows, limit, cap), rows, limit, cap)
    ensures |b| <= |FairSelection(rows, limit, cap)|
    ensures forall i | 0 <= i < |b| :: KeyLeq(FairSelection(rows, limit, cap)[i], b[i])
  {
    SortFacts(rows);
    var s := SortByKey(rows);
    GreedyFeasible(s, limit, cap);
    GreedyAtLeastAsLong(s, b, limit, cap);
    forall i | 0 <= i < |b| ensures KeyLeq(FairSelection(rows, limit, cap)[i], b[i]) {
      DominatesAt(s, b, i, limit, cap);
    }
  }

  // The batch has exactly min(limit, sum over tenants of min(rows of the tenant, cap)) rows.
  lemma SelectionLength(rows: seq<Row>, limit: int, cap: int)
    requires limit >= 0 && cap >= 0
    ensures |FairSelection(rows, limit, cap)|
            == Min(limit, Sum(Tenants(rows), CappedCounts(rows, cap)))
  {
    SortFacts(rows);
    var s := SortByKey(rows);
    var g := Greedy(s, limit, cap);
    GreedyFeasible(s, limit, cap);
    assert Tenants(g) <= Tenants(rows);
    LengthIsSum(g, Tenants(rows));
    forall t ensures Count(g, t) <= Min(Count(rows, t), cap) {
      CountMonotone(g, rows, OfTenant(t));
    }
    Monotone(Tenants(rows), Counts(g), CappedCounts(rows, cap));
    if |g| < limit {
      forall t ensures Count(g, t) == Min(Count(rows, t), cap) {
        GreedySaturates(s, limit, cap, t);
        CountMonotone(s, rows, OfTenant(t));
        CountMonotone(rows, s, OfTenant(t));
      }
      Congruent(Tenants(rows), Counts(g), CappedCounts(rows, cap));
    }
  }

  // With distinct keys the order in which the rows arrive does not matter.
  lemma SelectionIgnoresOrder(rows: seq<Row>, permuted: seq<Row>, limit: int, cap: int)
    requires multiset(rows) == multiset(permuted) && DistinctKeys(rows)
    ensures FairSelection(rows, limit, cap) == FairSelection(permuted, limit, cap)
  {
    SortFacts(rows);
    SortFacts(permuted);
    DistinctKeysUnderPermutation(rows, SortByKey(rows));
    SortedUnique(SortByKey(rows), SortByKey(permuted));
  }

  // ---------------------------------------------------------------- the loop

  const MAX_ITEMS_PER_TENANT: int := 1

  method SelectFairBatch(rows: seq<Row>, limit: int, cap: int) returns (picked: seq<Row>)
    ensures picked == FairSelection(rows, limit, cap)
  {
    var ordered := SortByKey(rows);
    picked := [];
    var perTenant: map<nat, int> := map[];
    for i := 0 to |ordered|
      invariant picked == Greedy(ordered[..i], limit, cap)
      invariant forall t :: (if t in perTenant then perTenant[t] else 0) == Count(picked, t)
    {
      var row := ordered[i];
      GreedyNext(ordered, i, limit, cap);
      if |picked| >= limit {
        FullStaysFull(ordered, i, limit, cap);
        return;
      }
      var count := if row.tenant in perTenant then perTenant[row.tenant] else 0;
      if count >= cap {
        continue;
      }
      CountAdded(picked, row);
      picked := picked + [row];
      perTenant := perTenant[row.tenant := count + 1];
    }
    assert ordered[..|ordered|] == ordered;
  }

  lemma GreedyNext(s: seq<Row>, i: nat, limit: int, cap: int)
    requires i < |s|
    ensures var picked := Greedy(s[..i], limit, cap);
            Greedy(s[..i + 1], limit, cap)
            == if |picked| >= limit || Count(picked, s[i].tenant) >= cap then picked else picked + [s[i]]
  {
    assert s[..i + 1][..i] == s[..i];
  }

  lemma CountAdded(s: seq<Row>, r: Row)
    ensures forall t :: Count(s + [r], t) == Count(s, t) + (if r.tenant == t then 1 else 0)
  {
    forall t ensures Count(s + [r], t) == Count(s, t) + (if r.tenant == t then 1 else 0) {
      CountOfSnoc(s, r, OfTenant(t));
    }
  }

  lemma {:induction false} FullStaysFull(s: seq<Row>, m: nat, limit: int, cap: int)
    requires m <= |s| && |Greedy(s[..m], limit, cap)| >= limit
    ensures Greedy(s, limit, cap) == Greedy(s[..m], limit, cap)
  {
    if m < |s| {
      assert s[..|s| - 1][..m] == s[..m];
      FullStaysFull(s[..|s| - 1], m, limit, cap);
    } else {
      assert s[..m] == s;
    }
  }
}
