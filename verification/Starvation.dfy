// Where the selection meets the protocol. Exhausted rows stay in the dispatcher's query forever, so
// enough of them shut out every row behind them for the rest of any run; this module says exactly
// when a row can still be dispatched.
module Starvation {
  import opened Common
  import opened RebuildRows
  import opened RebuildProtocol
  import opened RebuildTheorems
  import opened FairBatch
  import opened Selection

  // ---------------------------------------------------------------- what the selector picks

  // The table's rows in some physical order.
  ghost predicate Lists(table: seq<Row>, s: State) {
    && (forall id | id in s.rows :: s.rows[id] in table)
    && (forall r | r in table :: r.id in s.rows && s.rows[r.id] == r)
    && forall i, j | 0 <= i < j < |table| :: table[i] != table[j]
  }

  // A physical order, an order made by the prioritizer, and a limit under which a dispatcher selects.
  ghost predicate Offers(s: State, batchSize: nat, table: seq<Row>, adjusted: seq<Row>, limit: int) {
    && Lists(table, s) && limit >= 1
    && multiset(adjusted) == multiset(Candidates(table, batchSize, s.now))
  }

  // Some, or every, such selection returns the row.
  ghost predicate MayPick(s: State, batchSize: nat, id: nat) {
    id in s.rows && exists table, adjusted, limit ::
      Offers(s, batchSize, table, adjusted, limit) && Choose(adjusted, limit) == Some(s.rows[id])
  }

  ghost predicate MustPick(s: State, batchSize: nat, id: nat) {
    id in s.rows && forall table, adjusted, limit | Offers(s, batchSize, table, adjusted, limit) ::
      Choose(adjusted, limit) == Some(s.rows[id])
  }

  // A run in which dispatchers claim only what the selector returns at that moment, whatever the
  // physical order, the prioritizer and the limit.
  ghost predicate BySelector(cfg: Config, s: State, es: seq<Event>, batchSize: nat)
    requires Valid(cfg, s, es)
  {
    es == [] ||
    var n := |es| - 1;
    && BySelector(cfg, s, es[..n], batchSize)
    && (es[n].Claimed? ==> MustPick(Run(cfg, s, es[..n]), batchSize, es[n].id))
  }

  ghost predicate KeysDistinct(s: State) {
    forall a, b | a in s.rows && b in s.rows && a != b :: !SameKey(s.rows[a], s.rows[b])
  }

  // The open rows before the key of row e.
  ghost function Ahead(s: State, e: nat): set<nat>
    requires e in s.rows
  {
    set id | id in s.rows && OpenBefore(s.rows[e])(s.rows[id])
  }

  lemma {:induction false} CountAtLeast(table: seq<Row>, ids: set<nat>, p: Row -> bool)
    requires forall id | id in ids :: exists r :: r in table && r.id == id && p(r)
    ensures |ids| <= CountIf(table, p)
  {
    if table == [] {
      assert ids == {};
    } else {
      var n := |table| - 1;
      var last := table[n];
      assert table == table[..n] + [last];
      var rest := if last.id in ids && p(last) then ids - {last.id} else ids;
      forall id | id in rest ensures exists r :: r in table[..n] && r.id == id && p(r) {
        var r :| r in table && r.id == id && p(r);
        assert r != last;
        assert r in table[..n];
      }
      CountAtLeast(table[..n], rest, p);
    }
  }

  lemma {:induction false} CountAtMost(table: seq<Row>, ids: set<nat>, p: Row -> bool)
    requires forall i, j | 0 <= i < j < |table| :: table[i].id != table[j].id
    requires forall r | r in table && p(r) :: r.id in ids
    ensures CountIf(table, p) <= |ids|
  {
    if table != [] {
      var n := |table| - 1;
      var last := table[n];
      assert table == table[..n] + [last];
      var rest := if p(last) then ids - {last.id} else ids;
      forall r | r in table[..n] && p(r) ensures r.id in rest {
        var i :| 0 <= i < n && table[i] == r;
      }
      CountAtMost(table[..n], rest, p);
    }
  }

  lemma ListedOnce(s: State, table: seq<Row>)
    requires Lists(table, s)
    ensures forall i, j | 0 <= i < j < |table| :: table[i].id != table[j].id
    ensures KeysDistinct(s) ==> DistinctKeys(table)
  {
    forall i, j | 0 <= i < j < |table| ensures table[i].id != table[j].id {
      assert table[i] in table && table[j] in table && table[i] != table[j];
    }
    if KeysDistinct(s) {
      forall i, j | 0 <= i < j < |table| ensures !SameKey(table[i], table[j]) {
        assert table[i] in table && table[j] in table && table[i].id != table[j].id;
      }
    }
  }

  lemma {:induction false} SortedCount(s: seq<Row>, p: nat)
    requires Sorted(s) && p < |s|
    ensures CountIf(s, OpenBefore(s[p])) <= p
    decreases |s|
  {
    var n := |s| - 1;
    if p < n {
      assert s[..n][p] == s[p];
      SortedCount(s[..n], p);
      assert KeyLeq(s[p], s[n]);
    } else {
      CountIsAtMostLength(s[..n], OpenBefore(s[p]));
    }
  }

  lemma {:induction false} CountIsAtMostLength(s: seq<Row>, p: Row -> bool)
    ensures CountIf(s, p) <= |s|
  {
    if s != [] {
      CountIsAtMostLength(s[..|s| - 1], p);
    }
  }

  // A chosen row has fewer than batchSize open rows before it, ties or not.
  lemma ChosenIsNearFront(table: seq<Row>, batchSize: nat, now: Time, adjusted: seq<Row>, limit: int)
    requires limit >= 1 && multiset(adjusted) == multiset(Candidates(table, batchSize, now))
    requires Choose(adjusted, limit).Some?
    ensures var c := Choose(adjusted, limit).value;
            c in table && IsEligible(c, now) && CountIf(table, OpenBefore(c)) < batchSize
  {
    var c := Choose(adjusted, limit).value;
    NoPriorityInversion(table, batchSize, now, adjusted, limit);
    ChoiceIsLeast(adjusted, limit);
    SameMembers(adjusted, Candidates(table, batchSize, now));
    EligibleRowsFacts(Window(table, batchSize), now);
    var open := OpenRows(table);
    var ordered, w := SortByKey(open), Window(table, batchSize);
    SortFacts(open);
    var p :| 0 <= p < |w| && w[p] == c;
    assert ordered[p] == c;
    SortedCount(ordered, p);
    CountMonotone(open, ordered, OpenBefore(c));
    CountOfOpen(table, c);
  }

  lemma PickedIsNearFront(s: State, batchSize: nat, e: nat)
    requires Inv(s) && MayPick(s, batchSize, e)
    ensures IsEligible(s.rows[e], s.now) && |Ahead(s, e)| < batchSize
  {
    var table, adjusted, limit :| Offers(s, batchSize, table, adjusted, limit)
                                  && Choose(adjusted, limit) == Some(s.rows[e]);
    ChosenIsNearFront(table, batchSize, s.now, adjusted, limit);
    forall id | id in Ahead(s, e) ensures exists r: Row :: r in table && r.id == id && OpenBefore(s.rows[e])(r) {
      assert RowOk(s, id) && s.rows[id] in table;
    }
    CountAtLeast(table, Ahead(s, e), OpenBefore(s.rows[e]));
  }

  // ---------------------------------------------------------------- rows that block for good

  // A stale reset of the RUNNING row e, with nobody executing it, resets this row as well.
  predicate ResetTogether(e: Row, r: Row) {
    && e.status == Running && r.status == Running && e.tenant == r.tenant
    && e.startedAt.Some? && r.startedAt.Some? && r.startedAt.value <= e.startedAt.value
  }

  // Out of attempts, before e, with nobody executing it, and in the query now or, if e itself first
  // has to be reset, from then on.
  ghost predicate IsBlocker(s: State, e: nat, id: nat)
    requires e in s.rows
  {
    && id in s.rows && s.rows[id].requiresRebuild && IsExhausted(s.rows[id]) && NoFlight(s, id)
    && Before(s.rows[id], s.rows[e])
    && (IsOpen(s.rows[id]) || (NoFlight(s, e) && ResetTogether(s.rows[e], s.rows[id])))
  }

  ghost function Blockers(s: State, e: nat): set<nat>
    requires e in s.rows
  {
    set id | id in s.rows && IsBlocker(s, e, id)
  }

  lemma SmallerSet(a: set<nat>, b: set<nat>)
    requires a <= b
    ensures |a| <= |b|
  {
    assert b == a + (b - a);
  }

  lemma BlockerStays(cfg: Config, s: State, ev: Event, e: nat, id: nat)
    requires Inv(s) && Enabled(s, ev) && e in s.rows && IsBlocker(s, e, id)
    ensures e in Next(cfg, s, ev).rows && IsBlocker(Next(cfg, s, ev), e, id)
  {
    assert RowOk(s, id) && RowOk(s, e);
    ExhaustedStep(cfg, s, ev, id);
    RowPersistsStep(cfg, s, ev, e);
    BlockerKeepsFlag(cfg, s, ev, id);
    if !IsOpen(s.rows[id]) {
      ResetPairStep(cfg, s, ev, e, id);
    }
  }

  lemma BlockerKeepsFlag(cfg: Config, s: State, ev: Event, id: nat)
    requires Inv(s) && Enabled(s, ev) && id in s.rows && s.rows[id].requiresRebuild && NoFlight(s, id)
    ensures id in Next(cfg, s, ev).rows && Next(cfg, s, ev).rows[id].requiresRebuild
  {
  }

  lemma ResetPairStep(cfg: Config, s: State, ev: Event, e: nat, id: nat)
    requires Inv(s) && Enabled(s, ev) && e in s.rows && id in s.rows && s.rows[id].requiresRebuild
    requires NoFlight(s, e) && NoFlight(s, id) && ResetTogether(s.rows[e], s.rows[id])
    ensures var t := Next(cfg, s, ev);
            && e in t.rows && id in t.rows
            && (IsOpen(t.rows[id]) || (NoFlight(t, e) && ResetTogether(t.rows[e], t.rows[id])))
  {
  }

  lemma {:induction false} BlockersStay(cfg: Config, s: State, es: seq<Event>, e: nat)
    requires Inv(s) && Valid(cfg, s, es) && e in s.rows
    ensures Inv(Run(cfg, s, es)) && e in Run(cfg, s, es).rows && Blockers(s, e) <= Blockers(Run(cfg, s, es), e)
  {
    if es != [] {
      var n := |es| - 1;
      BlockersStay(cfg, s, es[..n], e);
      var t := Run(cfg, s, es[..n]);
      InvStep(cfg, t, es[n]);
      RowPersistsStep(cfg, t, es[n], e);
      forall id | id in Blockers(s, e) ensures IsBlocker(Run(cfg, s, es), e, id) {
        BlockerStays(cfg, t, es[n], e, id);
      }
    }
  }

  // With batchSize blockers before it, a row is never selected again in any continuation.
  lemma StarvedForever(cfg: Config, s: State, es: seq<Event>, batchSize: nat, e: nat)
    requires Inv(s) && Valid(cfg, s, es) && e in s.rows && |Blockers(s, e)| >= batchSize
    ensures !MayPick(Run(cfg, s, es), batchSize, e)
  {
    var t := Run(cfg, s, es);
    BlockersStay(cfg, s, es, e);
    if MayPick(t, batchSize, e) {
      PickedIsNearFront(t, batchSize, e);
      assert Blockers(t, e) <= Ahead(t, e);
      SmallerSet(Blockers(s, e), Ahead(t, e));
    }
  }

  // ---------------------------------------------------------------- runs of the selector

  lemma SelectorExtend(cfg: Config, s: State, es: seq<Event>, ev: Event, batchSize: nat)
    requires Valid(cfg, s, es) && BySelector(cfg, s, es, batchSize) && Enabled(Run(cfg, s, es), ev)
    requires ev.Claimed? ==> MustPick(Run(cfg, s, es), batchSize, ev.id)
    ensures Valid(cfg, s, es + [ev]) && BySelector(cfg, s, es + [ev], batchSize)
    ensures Run(cfg, s, es + [ev]) == Next(cfg, Run(cfg, s, es), ev)
  {
    assert (es + [ev])[..|es|] == es;
  }

  lemma {:induction false} SelectorJoin(cfg: Config, s: State, a: seq<Event>, b: seq<Event>, batchSize: nat)
    requires Valid(cfg, s, a) && BySelector(cfg, s, a, batchSize)
    requires Valid(cfg, Run(cfg, s, a), b) && BySelector(cfg, Run(cfg, s, a), b, batchSize)
    ensures Valid(cfg, s, a + b) && BySelector(cfg, s, a + b, batchSize)
    ensures Run(cfg, s, a + b) == Run(cfg, Run(cfg, s, a), b)
  {
    RunJoin(cfg, s, a, b);
    if b == [] {
      assert a + b == a;
    } else {
      var n := |b| - 1;
      assert (a + b)[..|a + b| - 1] == a + b[..n];
      SelectorJoin(cfg, s, a, b[..n], batchSize);
    }
  }

  lemma {:induction false} InvAlong(cfg: Config, s: State, es: seq<Event>)
    requires Inv(s) && Valid(cfg, s, es)
    ensures Inv(Run(cfg, s, es))
  {
    if es != [] {
      var n := |es| - 1;
      InvAlong(cfg, s, es[..n]);
      InvStep(cfg, Run(cfg, s, es[..n]), es[n]);
    }
  }

  // An eligible row with only exhausted rows before it, too few to fill the query, is picked.
  lemma PickedIfFirst(s: State, batchSize: nat, x: nat)
    requires Inv(s) && KeysDistinct(s) && x in s.rows && IsEligible(s.rows[x], s.now)
    requires |Ahead(s, x)| < batchSize && forall id | id in Ahead(s, x) :: IsExhausted(s.rows[id])
    ensures MustPick(s, batchSize, x)
  {
    var r := s.rows[x];
    forall table, adjusted, limit | Offers(s, batchSize, table, adjusted, limit)
      ensures Choose(adjusted, limit) == Some(r)
    {
      ListedOnce(s, table);
      forall y | y in table && IsEligible(y, s.now) ensures KeyLeq(r, y) {
        assert y.id in Ahead(s, x) || KeyLeq(r, y);
      }
      CountAtMost(table, Ahead(s, x), OpenBefore(r));
      HeadOfLineBlocking(table, batchSize, s.now, adjusted, limit, r);
    }
  }

  // The first row in need of work is waited for and claimed.
  lemma ClaimNext(cfg: Config, s: State, batchSize: nat, x: nat, d: nat) returns (es: seq<Event>, at: Time)
    requires Inv(s) && KeysDistinct(s) && d !in s.inflight
    requires x in s.rows && IsOpen(s.rows[x]) && !IsExhausted(s.rows[x])
    requires |Ahead(s, x)| < batchSize && forall id | id in Ahead(s, x) :: IsExhausted(s.rows[id])
    ensures Valid(cfg, s, es) && BySelector(cfg, s, es, batchSize) && |es| == 2 && es[1] == Claimed(d, x)
    ensures s.now <= at
    ensures Run(cfg, s, es) == State(at, s.rows[x := Claim(s.rows[x], at, cfg.fullAfter)],
                                     s.inflight[d := Flight(x, at, false)])
  {
    at := EligibleFrom(s.rows[x], s.now);
    SelectorExtend(cfg, s, [], Ticked(at), batchSize);
    es := [] + [Ticked(at)];
    var t := Run(cfg, s, es);
    assert t == s.(now := at);
    InvStep(cfg, s, Ticked(at));
    assert Ahead(t, x) == Ahead(s, x);
    PickedIfFirst(t, batchSize, x);
    SelectorExtend(cfg, s, es, Claimed(d, x), batchSize);
    es := es + [Claimed(d, x)];
  }

  // Row x needs no rebuild any more; the other rows, and who holds them, are as they were.
  ghost predicate Removed(s: State, t: State, x: nat) {
    && x in s.rows && t.rows.Keys == s.rows.Keys && !t.rows[x].requiresRebuild
    && (forall y | y in s.rows && y != x :: t.rows[y] == s.rows[y] && (NoFlight(t, y) <==> NoFlight(s, y)))
    && t.rows[x].priority == s.rows[x].priority && t.rows[x].createdAt == s.rows[x].createdAt
  }

  lemma CompleteClaimed(cfg: Config, s: State, batchSize: nat, x: nat, d: nat, at: Time, c: Row)
    returns (es: seq<Event>)
    requires d !in s.inflight && x in s.rows
    ensures var u := State(at, s.rows[x := c], s.inflight[d := Flight(x, at, false)]);
            && Valid(cfg, u, es) && BySelector(cfg, u, es, batchSize) && |es| == 2
            && Run(cfg, u, es) == State(at, s.rows[x := Succeed(c, at)], s.inflight)
  {
    var u := State(at, s.rows[x := c], s.inflight[d := Flight(x, at, false)]);
    SelectorExtend(cfg, u, [], Completed(d, x), batchSize);
    es := [] + [Completed(d, x)];
    assert Run(cfg, u, es) == State(at, s.rows[x := Succeed(c, at)], s.inflight[d := Flight(x, at, true)]);
    SelectorExtend(cfg, u, es, Finished(d, x), batchSize);
    es := es + [Finished(d, x)];
    assert Without(s.inflight[d := Flight(x, at, true)], d) == s.inflight;
  }

  // And then completed, which takes it out of the way.
  lemma CompleteNext(cfg: Config, s: State, batchSize: nat, x: nat, d: nat) returns (es: seq<Event>)
    requires Inv(s) && KeysDistinct(s) && d !in s.inflight
    requires x in s.rows && IsOpen(s.rows[x]) && !IsExhausted(s.rows[x])
    requires |Ahead(s, x)| < batchSize && forall id | id in Ahead(s, x) :: IsExhausted(s.rows[id])
    ensures Valid(cfg, s, es) && BySelector(cfg, s, es, batchSize) && |es| == 4
    ensures Removed(s, Run(cfg, s, es), x) && d !in Run(cfg, s, es).inflight
  {
    var claim, at := ClaimNext(cfg, s, batchSize, x, d);
    var rest := CompleteClaimed(cfg, s, batchSize, x, d, at, Claim(s.rows[x], at, cfg.fullAfter));
    SelectorJoin(cfg, s, claim, rest, batchSize);
    es := claim + rest;
  }

  // An exhausted row that is still executed is completed by its dispatcher.
  lemma CompleteExecuting(cfg: Config, s: State, batchSize: nat, x: nat, d: nat) returns (es: seq<Event>)
    requires Inv(s) && x in s.rows && s.rows[x].requiresRebuild && !NoFlight(s, x) && d !in s.inflight
    ensures Valid(cfg, s, es) && BySelector(cfg, s, es, batchSize) && |es| == 1
    ensures Removed(s, Run(cfg, s, es), x) && d !in Run(cfg, s, es).inflight
  {
    var f :| f in s.inflight && s.inflight[f].row == x;
    SelectorExtend(cfg, s, [], Completed(f, x), batchSize);
    es := [] + [Completed(f, x)];
    var t := Run(cfg, s, es);
    assert t.inflight.Keys == s.inflight.Keys && forall g | g in s.inflight :: t.inflight[g].row == s.inflight[g].row;
    forall y ensures NoFlight(t, y) <==> NoFlight(s, y) {
    }
  }

  lemma {:induction false} LeastIn(s: State, ids: set<nat>) returns (x: nat)
    requires ids != {} && forall id | id in ids :: id in s.rows
    ensures x in ids && forall id | id in ids :: KeyLeq(s.rows[x], s.rows[id])
    decreases |ids|
  {
    var y :| y in ids;
    if ids == {y} {
      x := y;
    } else {
      var rest := ids - {y};
      assert ids == rest + {y};
      x := LeastIn(s, rest);
      if KeyLeq(s.rows[y], s.rows[x]) {
        x := y;
      }
    }
  }

  // The open rows before e that are not in its way for good.
  ghost function Passing(s: State, e: nat): set<nat>
    requires e in s.rows
  {
    Ahead(s, e) - Blockers(s, e)
  }

  lemma AheadAfter(s: State, t: State, e: nat, x: nat, id: nat)
    requires e in s.rows && IsOpen(s.rows[e]) && Removed(s, t, x) && x != e
    ensures id in Ahead(t, e) <==> id in Ahead(s, e) && id != x
    ensures id in Blockers(t, e) <==> id in Blockers(s, e) && id != x
  {
  }

  lemma OnePassesBy(s: State, t: State, e: nat, x: nat)
    requires e in s.rows && IsOpen(s.rows[e]) && x in Passing(s, e) && Removed(s, t, x)
    ensures e in t.rows && t.rows[e] == s.rows[e]
    ensures Blockers(t, e) == Blockers(s, e) && Passing(t, e) == Passing(s, e) - {x}
    ensures |Passing(t, e)| == |Passing(s, e)| - 1
  {
    forall id ensures id in Ahead(t, e) <==> id in Ahead(s, e) && id != x
              ensures id in Blockers(t, e) <==> id in Blockers(s, e) && id != x
    {
      AheadAfter(s, t, e, x, id);
    }
    assert Passing(t, e) == Passing(s, e) - {x};
  }

  lemma KeysStayDistinct(s: State, t: State, x: nat)
    requires KeysDistinct(s) && Removed(s, t, x)
    ensures KeysDistinct(t)
  {
    forall a, b | a in t.rows && b in t.rows && a != b ensures !SameKey(t.rows[a], t.rows[b]) {
      assert !SameKey(s.rows[a], s.rows[b]);
    }
  }

  // The row is claimed at the end of a run of at most n events in which every claim is the
  // selector's choice.
  ghost predicate Dispatchable(cfg: Config, s: State, batchSize: nat, e: nat, d: nat, n: nat) {
    exists es: seq<Event> :: Valid(cfg, s, es) && EndsInClaim(cfg, s, es, batchSize, e, d) && |es| <= n
  }

  ghost predicate EndsInClaim(cfg: Config, s: State, es: seq<Event>, batchSize: nat, e: nat, d: nat)
    requires Valid(cfg, s, es)
  {
    BySelector(cfg, s, es, batchSize) && es != [] && es[|es| - 1] == Claimed(d, e)
  }

  lemma ClaimWhenClear(cfg: Config, s: State, batchSize: nat, e: nat, d: nat)
    requires Inv(s) && KeysDistinct(s) && d !in s.inflight
    requires e in s.rows && IsOpen(s.rows[e]) && !IsExhausted(s.rows[e])
    requires |Blockers(s, e)| < batchSize && Passing(s, e) == {}
    ensures Dispatchable(cfg, s, batchSize, e, d, 2)
  {
    forall id | id in Ahead(s, e) ensures id in Blockers(s, e) {
      assert id !in Passing(s, e);
    }
    SmallerSet(Ahead(s, e), Blockers(s, e));
    var es, at := ClaimNext(cfg, s, batchSize, e, d);
    assert EndsInClaim(cfg, s, es, batchSize, e, d);
  }

  lemma DispatchableAfter(cfg: Config, s: State, first: seq<Event>, batchSize: nat, e: nat, d: nat, n: nat)
    requires Valid(cfg, s, first) && BySelector(cfg, s, first, batchSize)
    requires Dispatchable(cfg, Run(cfg, s, first), batchSize, e, d, n)
    ensures Dispatchable(cfg, s, batchSize, e, d, |first| + n)
  {
    var t := Run(cfg, s, first);
    var rest :| Valid(cfg, t, rest) && EndsInClaim(cfg, t, rest, batchSize, e, d) && |rest| <= n;
    SelectorJoin(cfg, s, first, rest, batchSize);
    assert EndsInClaim(cfg, s, first + rest, batchSize, e, d);
  }

  // One row less on the way to e.
  lemma PassOne(cfg: Config, s: State, batchSize: nat, e: nat, d: nat, n: nat) returns (t: State)
    requires Inv(s) && KeysDistinct(s) && d !in s.inflight
    requires e in s.rows && IsOpen(s.rows[e]) && |Blockers(s, e)| < batchSize && Passing(s, e) != {}
    ensures Inv(t) && KeysDistinct(t) && d !in t.inflight && e in t.rows && t.rows[e] == s.rows[e]
    ensures |Blockers(t, e)| < batchSize && |Passing(t, e)| == |Passing(s, e)| - 1
    ensures Dispatchable(cfg, t, batchSize, e, d, n) ==> Dispatchable(cfg, s, batchSize, e, d, n + 4)
  {
    var es, x := OneStepAhead(cfg, s, batchSize, e, d);
    t := Run(cfg, s, es);
    InvAlong(cfg, s, es);
    OnePassesBy(s, t, e, x);
    KeysStayDistinct(s, t, x);
    if Dispatchable(cfg, t, batchSize, e, d, n) {
      DispatchableAfter(cfg, s, es, batchSize, e, d, n);
    }
  }

  // With fewer than batchSize blockers before it, an open row with budget left is claimed in a run
  // in which every claim is the selector's choice: the dispatchers ahead finish, and the rows ahead
  // that can be dispatched are, least key first, until only blockers are left.
  lemma {:induction false} ClearTheWay(cfg: Config, s: State, batchSize: nat, e: nat, d: nat, k: nat)
    requires Inv(s) && KeysDistinct(s) && d !in s.inflight
    requires e in s.rows && IsOpen(s.rows[e]) && !IsExhausted(s.rows[e])
    requires |Blockers(s, e)| < batchSize && |Passing(s, e)| == k
    ensures Dispatchable(cfg, s, batchSize, e, d, 4 * k + 2)
    decreases k
  {
    if k == 0 {
      ClaimWhenClear(cfg, s, batchSize, e, d);
    } else {
      var t := PassOne(cfg, s, batchSize, e, d, 4 * (k - 1) + 2);
      ClearTheWay(cfg, t, batchSize, e, d, k - 1);
    }
  }

  lemma OneStepAhead(cfg: Config, s: State, batchSize: nat, e: nat, d: nat) returns (es: seq<Event>, x: nat)
    requires Inv(s) && KeysDistinct(s) && d !in s.inflight
    requires e in s.rows && IsOpen(s.rows[e]) && |Blockers(s, e)| < batchSize
    requires Passing(s, e) != {}
    ensures Valid(cfg, s, es) && BySelector(cfg, s, es, batchSize) && |es| <= 4
    ensures x in Passing(s, e) && Removed(s, Run(cfg, s, es), x) && d !in Run(cfg, s, es).inflight
  {
    var others := Passing(s, e);
    if y :| y in others && IsExhausted(s.rows[y]) {
      x := y;
      es := CompleteExecuting(cfg, s, batchSize, x, d);
    } else {
      x := LeastIn(s, others);
      OnlyBlockersBefore(s, e, x);
      es := CompleteNext(cfg, s, batchSize, x, d);
    }
  }

  lemma OnlyBlockersBefore(s: State, e: nat, x: nat)
    requires e in s.rows && x in Passing(s, e)
    requires forall id | id in Passing(s, e) :: KeyLeq(s.rows[x], s.rows[id])
    ensures Ahead(s, x) <= Blockers(s, e) && |Ahead(s, x)| <= |Blockers(s, e)|
  {
    forall id | id in Ahead(s, x) ensures id in Blockers(s, e) {
      assert id in Ahead(s, e);
    }
    SmallerSet(Ahead(s, x), Blockers(s, e));
  }

  // ---------------------------------------------------------------- exactly when a row can be dispatched

  ghost predicate Reopened(s: State, t: State, e: nat) {
    && e in s.rows && t.rows.Keys == s.rows.Keys && IsOpen(t.rows[e]) && !IsExhausted(t.rows[e])
    && (forall d | d !in s.inflight :: d !in t.inflight)
    && forall y | y in s.rows ::
         && t.rows[y].priority == s.rows[y].priority && t.rows[y].createdAt == s.rows[y].createdAt
         && (IsBlocker(t, e, y) ==> IsBlocker(s, e, y))
  }

  lemma ReopenedByBusy(cfg: Config, s: State, e: nat, f: nat)
    requires Inv(s) && Executes(s, f, e) && s.rows[e].status == Running && !IsExhausted(s.rows[e])
    ensures Reopened(s, Next(cfg, s, LockBusy(f, e)), e)
  {
    var t := Next(cfg, s, LockBusy(f, e));
    forall y | y in s.rows && IsBlocker(t, e, y) ensures IsBlocker(s, e, y) {
      assert y != e;
      assert forall g | g in s.inflight && g != f :: t.inflight[g] == s.inflight[g];
    }
  }

  // A cutoff just past e's start resets no row that was started later.
  lemma ReopenedByReset(cfg: Config, s: State, e: nat, sampled: Time)
    requires Inv(s) && e in s.rows && NoFlight(s, e) && s.rows[e].status == Running && !IsExhausted(s.rows[e])
    requires s.rows[e].startedAt.Some? && sampled <= s.now
    requires sampled == s.rows[e].startedAt.value + SECOND * cfg.staleSeconds + 1
    ensures s.rows[e].requiresRebuild ==> Reopened(s, Next(cfg, s, StaleReset(s.rows[e].tenant, sampled)), e)
  {
    var t := Next(cfg, s, StaleReset(s.rows[e].tenant, sampled));
    forall y | y in s.rows && IsBlocker(t, e, y) ensures IsBlocker(s, e, y) {
      assert t.rows[y] == s.rows[y] || ResetTogether(s.rows[e], s.rows[y]);
    }
  }

  // A RUNNING row comes back into the query: by a busy verdict of a dispatcher that executes it, or
  // by the narrowest stale reset that hits it.
  lemma Reopen(cfg: Config, s: State, batchSize: nat, e: nat) returns (es: seq<Event>, t: State)
    requires Inv(s) && e in s.rows && s.rows[e].status == Running && !IsExhausted(s.rows[e])
    ensures Valid(cfg, s, es) && BySelector(cfg, s, es, batchSize) && |es| <= 2 && t == Run(cfg, s, es)
    ensures Reopened(s, t, e)
  {
    assert RowOk(s, e);
    if NoFlight(s, e) {
      var sampled := s.rows[e].startedAt.value + SECOND * cfg.staleSeconds + 1;
      var later := s.(now := Max(s.now, sampled));
      SelectorExtend(cfg, s, [], Ticked(later.now), batchSize);
      es := [] + [Ticked(later.now)];
      InvStep(cfg, s, Ticked(later.now));
      assert Run(cfg, s, es) == later;
      SelectorExtend(cfg, s, es, StaleReset(s.rows[e].tenant, sampled), batchSize);
      es := es + [StaleReset(s.rows[e].tenant, sampled)];
      ReopenedByReset(cfg, later, e, sampled);
      t := Next(cfg, later, StaleReset(s.rows[e].tenant, sampled));
      ReopenedEarlier(s, later, t, e);
    } else {
      var f :| f in s.inflight && s.inflight[f].row == e;
      SelectorExtend(cfg, s, [], LockBusy(f, e), batchSize);
      es := [] + [LockBusy(f, e)];
      ReopenedByBusy(cfg, s, e, f);
      t := Next(cfg, s, LockBusy(f, e));
    }
  }

  lemma ReopenedEarlier(s: State, later: State, t: State, e: nat)
    requires later.rows == s.rows && later.inflight == s.inflight && Reopened(later, t, e)
    ensures Reopened(s, t, e)
  {
  }

  lemma KeysThroughReopen(s: State, t: State, e: nat)
    requires KeysDistinct(s) && Reopened(s, t, e)
    ensures KeysDistinct(t) && |Blockers(t, e)| <= |Blockers(s, e)| && |t.rows| == |s.rows|
  {
    forall a, b | a in t.rows && b in t.rows && a != b ensures !SameKey(t.rows[a], t.rows[b]) {
      assert !SameKey(s.rows[a], s.rows[b]);
    }
    assert Blockers(t, e) <= Blockers(s, e);
    SmallerSet(Blockers(t, e), Blockers(s, e));
    assert |t.rows| == |t.rows.Keys| && |s.rows| == |s.rows.Keys|;
  }

  // Fewer blockers than the query's limit: the row can be dispatched, and within a number of events
  // given by the size of the table.
  lemma Progress(cfg: Config, s: State, batchSize: nat, e: nat, d: nat)
    requires Inv(s) && KeysDistinct(s) && d !in s.inflight
    requires e in s.rows && s.rows[e].requiresRebuild && !IsExhausted(s.rows[e])
    requires |Blockers(s, e)| < batchSize
    ensures Dispatchable(cfg, s, batchSize, e, d, 4 * |s.rows| + 4)
  {
    assert RowOk(s, e);
    if IsOpen(s.rows[e]) {
      PassingIsSmall(s, e);
      ClearTheWay(cfg, s, batchSize, e, d, |Passing(s, e)|);
      Longer(cfg, s, batchSize, e, d, 4 * |Passing(s, e)| + 2, 4 * |s.rows| + 4);
    } else {
      var es, t := Reopen(cfg, s, batchSize, e);
      InvAlong(cfg, s, es);
      KeysThroughReopen(s, t, e);
      PassingIsSmall(t, e);
      ClearTheWay(cfg, t, batchSize, e, d, |Passing(t, e)|);
      DispatchableAfter(cfg, s, es, batchSize, e, d, 4 * |Passing(t, e)| + 2);
      Longer(cfg, s, batchSize, e, d, |es| + (4 * |Passing(t, e)| + 2), 4 * |s.rows| + 4);
    }
  }

  lemma PassingIsSmall(s: State, e: nat)
    requires e in s.rows
    ensures |Passing(s, e)| <= |s.rows|
  {
    SmallerSet(Passing(s, e), s.rows.Keys);
    assert |s.rows| == |s.rows.Keys|;
  }

  lemma Longer(cfg: Config, s: State, batchSize: nat, e: nat, d: nat, n: nat, m: nat)
    requires Dispatchable(cfg, s, batchSize, e, d, n) && n <= m
    ensures Dispatchable(cfg, s, batchSize, e, d, m)
  {
    var es :| Valid(cfg, s, es) && EndsInClaim(cfg, s, es, batchSize, e, d) && |es| <= n;
    assert Valid(cfg, s, es) && EndsInClaim(cfg, s, es, batchSize, e, d) && |es| <= m;
  }

  // A table always has some physical order.
  lemma {:induction false} SomeOrder(s: State, ids: set<nat>) returns (table: seq<Row>)
    requires Inv(s) && forall id | id in ids :: id in s.rows
    ensures forall r :: r in table <==> r.id in ids && s.rows[r.id] == r
    ensures forall i, j | 0 <= i < j < |table| :: table[i] != table[j]
    decreases |ids|
  {
    if ids == {} {
      table := [];
    } else {
      var id :| id in ids;
      assert RowOk(s, id);
      var rest := SomeOrder(s, ids - {id});
      table := rest + [s.rows[id]];
      assert s.rows[id] !in rest;
    }
  }

  lemma MustBePicked(s: State, batchSize: nat, id: nat)
    requires Inv(s) && MustPick(s, batchSize, id)
    ensures MayPick(s, batchSize, id)
  {
    var table := SomeOrder(s, s.rows.Keys);
    forall x | x in s.rows ensures s.rows[x] in table {
      assert RowOk(s, x);
    }
    assert Offers(s, batchSize, table, Candidates(table, batchSize, s.now), 1);
  }

  lemma DispatchedIsPicked(cfg: Config, s: State, batchSize: nat, e: nat, d: nat, n: nat) returns (es: seq<Event>)
    requires Inv(s) && Dispatchable(cfg, s, batchSize, e, d, n)
    ensures Valid(cfg, s, es) && MayPick(Run(cfg, s, es), batchSize, e)
  {
    var all :| Valid(cfg, s, all) && EndsInClaim(cfg, s, all, batchSize, e, d) && |all| <= n;
    es := all[..|all| - 1];
    InvAlong(cfg, s, es);
    MustBePicked(Run(cfg, s, es), batchSize, e);
  }

  // Exactly when a row with work and budget left can still be dispatched: if some continuation comes
  // to a state in which a selection may return it, then fewer than batchSize rows block it for good,
  // and then it is claimed within a number of events given by the size of the table, by a
  // continuation in which every claim, its own included, is what the selector must return.
  lemma DispatchableExactly(cfg: Config, s: State, batchSize: nat, e: nat, d: nat)
    requires Inv(s) && KeysDistinct(s) && d !in s.inflight
    requires e in s.rows && s.rows[e].requiresRebuild && !IsExhausted(s.rows[e])
    ensures Dispatchable(cfg, s, batchSize, e, d, 4 * |s.rows| + 4) <==> |Blockers(s, e)| < batchSize
    ensures (exists es: seq<Event> :: Valid(cfg, s, es) && MayPick(Run(cfg, s, es), batchSize, e))
            <==> |Blockers(s, e)| < batchSize
  {
    if es: seq<Event> :| Valid(cfg, s, es) && MayPick(Run(cfg, s, es), batchSize, e) {
      if |Blockers(s, e)| >= batchSize {
        StarvedForever(cfg, s, es, batchSize, e);
      }
    }
    if |Blockers(s, e)| < batchSize {
      Progress(cfg, s, batchSize, e, d);
    }
    if Dispatchable(cfg, s, batchSize, e, d, 4 * |s.rows| + 4) {
      var es := DispatchedIsPicked(cfg, s, batchSize, e, d, 4 * |s.rows| + 4);
      assert Valid(cfg, s, es) && MayPick(Run(cfg, s, es), batchSize, e);
    }
  }

  // ---------------------------------------------------------------- starvation happens

  // Only row x and the clock differ, and x keeps its key.
  ghost predicate OnlyRow(s: State, t: State, x: nat) {
    && x in s.rows && t.inflight == s.inflight && t.rows.Keys == s.rows.Keys
    && (forall y | y in s.rows && y != x :: t.rows[y] == s.rows[y])
    && t.rows[x].priority == s.rows[x].priority && t.rows[x].createdAt == s.rows[x].createdAt
  }

  lemma OnlyRowKeeps(s: State, t: State, x: nat)
    requires KeysDistinct(s) && OnlyRow(s, t, x)
    ensures KeysDistinct(t) && Ahead(t, x) == Ahead(s, x)
    ensures x !in Ahead(s, x) && forall id | id in Ahead(s, x) :: t.rows[id] == s.rows[id]
  {
    forall a, b | a in t.rows && b in t.rows && a != b ensures !SameKey(t.rows[a], t.rows[b]) {
      assert !SameKey(s.rows[a], s.rows[b]);
    }
  }

  lemma FailClaimed(cfg: Config, s: State, batchSize: nat, x: nat, d: nat, at: Time, c: Row) returns (es: seq<Event>)
    requires d !in s.inflight && x in s.rows
    ensures var u := State(at, s.rows[x := c], s.inflight[d := Flight(x, at, false)]);
            && Valid(cfg, u, es) && BySelector(cfg, u, es, batchSize)
            && Run(cfg, u, es) == State(at, s.rows[x := Fail(c, at, "")], s.inflight)
  {
    var u := State(at, s.rows[x := c], s.inflight[d := Flight(x, at, false)]);
    SelectorExtend(cfg, u, [], Errored(d, x, ""), batchSize);
    es := [] + [Errored(d, x, "")];
    assert Without(s.inflight[d := Flight(x, at, false)], d) == s.inflight;
  }

  // The first row in need of work is claimed and fails.
  lemma FailNext(cfg: Config, s: State, batchSize: nat, x: nat, d: nat) returns (es: seq<Event>, t: State)
    requires Inv(s) && KeysDistinct(s) && d !in s.inflight
    requires x in s.rows && IsOpen(s.rows[x]) && !IsExhausted(s.rows[x])
    requires |Ahead(s, x)| < batchSize && forall id | id in Ahead(s, x) :: IsExhausted(s.rows[id])
    ensures Valid(cfg, s, es) && BySelector(cfg, s, es, batchSize) && t == Run(cfg, s, es)
    ensures OnlyRow(s, t, x) && IsOpen(t.rows[x])
    ensures t.rows[x].attempts == s.rows[x].attempts + 1 && t.rows[x].maxAttempts == s.rows[x].maxAttempts
  {
    var claim, at := ClaimNext(cfg, s, batchSize, x, d);
    var c := Claim(s.rows[x], at, cfg.fullAfter);
    var rest := FailClaimed(cfg, s, batchSize, x, d, at, c);
    SelectorJoin(cfg, s, claim, rest, batchSize);
    es := claim + rest;
    t := State(at, s.rows[x := Fail(c, at, "")], s.inflight);
  }

  // By runs of the selector, row x may become out of attempts and stay in the query.
  ghost predicate RunsTo(cfg: Config, s: State, batchSize: nat, t: State) {
    exists es: seq<Event> :: Valid(cfg, s, es) && BySelector(cfg, s, es, batchSize) && Run(cfg, s, es) == t
  }

  lemma RunsNowhere(cfg: Config, s: State, batchSize: nat)
    ensures RunsTo(cfg, s, batchSize, s)
  {
    assert Valid(cfg, s, []) && BySelector(cfg, s, [], batchSize) && Run(cfg, s, []) == s;
  }

  lemma RunsOn(cfg: Config, s: State, batchSize: nat, t: State, u: State)
    requires RunsTo(cfg, s, batchSize, t) && RunsTo(cfg, t, batchSize, u)
    ensures RunsTo(cfg, s, batchSize, u)
  {
    var a: seq<Event> :| Valid(cfg, s, a) && BySelector(cfg, s, a, batchSize) && Run(cfg, s, a) == t;
    var b: seq<Event> :| Valid(cfg, t, b) && BySelector(cfg, t, b, batchSize) && Run(cfg, t, b) == u;
    SelectorJoin(cfg, s, a, b, batchSize);
    assert Valid(cfg, s, a + b) && BySelector(cfg, s, a + b, batchSize) && Run(cfg, s, a + b) == u;
  }

  lemma RunsToInv(cfg: Config, s: State, batchSize: nat, t: State)
    requires Inv(s) && RunsTo(cfg, s, batchSize, t)
    ensures Inv(t)
  {
    var es: seq<Event> :| Valid(cfg, s, es) && BySelector(cfg, s, es, batchSize) && Run(cfg, s, es) == t;
    InvAlong(cfg, s, es);
  }

  // The first row that can be dispatched fails until its attempts are used up; it stays in the query.
  lemma {:induction false} FailUntilExhausted(cfg: Config, s: State, batchSize: nat, x: nat, d: nat) returns (t: State)
    requires Inv(s) && KeysDistinct(s) && d !in s.inflight && x in s.rows && IsOpen(s.rows[x])
    requires |Ahead(s, x)| < batchSize && forall id | id in Ahead(s, x) :: IsExhausted(s.rows[id])
    ensures RunsTo(cfg, s, batchSize, t) && OnlyRow(s, t, x) && IsOpen(t.rows[x]) && IsExhausted(t.rows[x])
    decreases s.rows[x].maxAttempts - s.rows[x].attempts
  {
    if IsExhausted(s.rows[x]) {
      t := s;
      RunsNowhere(cfg, s, batchSize);
    } else {
      var es, u := FailNext(cfg, s, batchSize, x, d);
      assert RunsTo(cfg, s, batchSize, u);
      RunsToInv(cfg, s, batchSize, u);
      OnlyRowKeeps(s, u, x);
      t := FailUntilExhausted(cfg, u, batchSize, x, d);
      RunsOn(cfg, s, batchSize, u, t);
    }
  }

  lemma OneBlockerMore(s: State, t: State, e: nat, x: nat)
    requires s.inflight == map[] && e in s.rows && IsOpen(s.rows[e]) && x in Passing(s, e)
    requires OnlyRow(s, t, x) && IsOpen(t.rows[x]) && IsExhausted(t.rows[x])
    ensures t.rows[e] == s.rows[e] && Ahead(t, e) == Ahead(s, e)
    ensures |Blockers(t, e)| == |Blockers(s, e)| + 1
  {
    assert Blockers(t, e) == Blockers(s, e) + {x};
  }

  lemma WithoutSome(a: set<nat>, b: set<nat>)
    ensures |a - b| >= |a| - |b|
  {
    assert a == (a - b) + (a * b);
    SmallerSet(a * b, b);
  }

  // From any quiet state with batchSize open rows before e, a run of the selector leads to e being
  // starved without ever having been touched.
  lemma {:induction false} CanStarve(cfg: Config, s: State, batchSize: nat, e: nat, d: nat) returns (t: State)
    requires Inv(s) && KeysDistinct(s) && s.inflight == map[]
    requires e in s.rows && IsOpen(s.rows[e]) && |Ahead(s, e)| >= batchSize
    ensures RunsTo(cfg, s, batchSize, t) && Inv(t) && e in t.rows && t.rows[e] == s.rows[e]
    ensures |Blockers(t, e)| >= batchSize
    decreases batchSize - |Blockers(s, e)|
  {
    if |Blockers(s, e)| >= batchSize {
      t := s;
      RunsNowhere(cfg, s, batchSize);
    } else {
      WithoutSome(Ahead(s, e), Blockers(s, e));
      var x := LeastIn(s, Passing(s, e));
      OnlyBlockersBefore(s, e, x);
      var u := FailUntilExhausted(cfg, s, batchSize, x, d);
      RunsToInv(cfg, s, batchSize, u);
      OnlyRowKeeps(s, u, x);
      OneBlockerMore(s, u, e, x);
      t := CanStarve(cfg, u, batchSize, e, d);
      RunsOn(cfg, s, batchSize, u, t);
    }
  }

  // A table of n + 1 default rows of equal priority, each of a tenant of its own.
  function DefaultRow(id: nat): Row {
    Row(id, id, 100, id, true, Pending, Incremental, 0, 3, None, None, None, None, None)
  }

  function DefaultTable(n: nat): State {
    State(0, map id: nat | id <= n :: DefaultRow(id), map[])
  }

  lemma {:induction false} AllAhead(n: nat, k: nat) returns (ids: set<nat>)
    requires k <= n
    ensures |ids| == k && ids <= Ahead(DefaultTable(n), n) && forall id | id in ids :: id < k
  {
    ids := {};
    if k > 0 {
      ids := AllAhead(n, k - 1);
      ids := ids + {k - 1};
    }
  }

  // Starvation is reachable from default rows, whatever the limit of the query: if every dispatch of
  // the first batchSize rows fails, a run of the selector ends with the next row untouched, with its
  // whole budget, and never to be selected again in any continuation.
  lemma StarvationReachable(cfg: Config, batchSize: nat) returns (t: State)
    ensures Init(DefaultTable(batchSize)) && forall id: nat | id <= batchSize :: IsFresh(DefaultRow(id))
    ensures RunsTo(cfg, DefaultTable(batchSize), batchSize, t)
    ensures batchSize in t.rows && t.rows[batchSize] == DefaultRow(batchSize)
    ensures forall more: seq<Event> | Valid(cfg, t, more) :: !MayPick(Run(cfg, t, more), batchSize, batchSize)
  {
    var s := DefaultTable(batchSize);
    forall id | id in s.rows ensures RowOk(s, id) {
    }
    InvariantHolds(cfg, s, []);
    var ids := AllAhead(batchSize, batchSize);
    SmallerSet(ids, Ahead(s, batchSize));
    t := CanStarve(cfg, s, batchSize, batchSize, 0);
    forall more: seq<Event> | Valid(cfg, t, more) ensures !MayPick(Run(cfg, t, more), batchSize, batchSize) {
      StarvedForever(cfg, t, more, batchSize, batchSize);
    }
  }
}
