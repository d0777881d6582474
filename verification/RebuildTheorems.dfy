// What every run of the rebuild protocol guarantees.
module RebuildTheorems {
  import opened Common
  import opened RebuildRows
  import opened RebuildProtocol
  import opened Sums
  import Backoff

  // ---------------------------------------------------------------- retry budget

  function InitialAttempts(s0: State, id: nat): nat {
    if id in s0.rows then s0.rows[id].attempts else 0
  }

  // A row that does not exist yet has left no trace in the log.
  lemma {:induction false} NoTraceBeforeInsert(cfg: Config, s0: State, es: seq<Event>, id: nat)
    requires Init(s0) && Valid(cfg, s0, es) && id !in Run(cfg, s0, es).rows
    ensures ClaimsOf(es, id) == 0 && RefundsOf(es, id) == 0 && ConsumedOf(es, id) == 0
    ensures id !in s0.rows && Executing(Run(cfg, s0, es), id) == {}
  {
    InvariantHolds(cfg, s0, es);
    if es != [] {
      NoTraceBeforeInsert(cfg, s0, es[..|es| - 1], id);
    }
  }

  // Conservation: the stored attempt count is the initial one plus claims minus refunds, which is
  // also the initial one plus the executions in flight plus the attempts used up. It stays within
  // the row's budget.
  lemma {:induction false} RetryBudgetConserved(cfg: Config, s0: State, es: seq<Event>, id: nat)
    requires Init(s0) && Valid(cfg, s0, es) && id in Run(cfg, s0, es).rows
    ensures var s := Run(cfg, s0, es);
            && s.rows[id].attempts == InitialAttempts(s0, id) + ClaimsOf(es, id) - RefundsOf(es, id)
            && s.rows[id].attempts == InitialAttempts(s0, id) + |Executing(s, id)| + ConsumedOf(es, id)
            && 0 <= s.rows[id].attempts <= s.rows[id].maxAttempts
  {
    InvariantHolds(cfg, s0, es);
    assert RowOk(Run(cfg, s0, es), id);
    if es == [] {
      assert Executing(s0, id) == {};
    } else {
      var n := |es| - 1;
      var s := Run(cfg, s0, es[..n]);
      InvariantHolds(cfg, s0, es[..n]);
      ExecutingStep(cfg, s, es[n], id);
      if id in s.rows {
        RetryBudgetConserved(cfg, s0, es[..n], id);
        AttemptsStep(cfg, s, es[n], id);
      } else {
        NoTraceBeforeInsert(cfg, s0, es[..n], id);
      }
    }
  }

  // The guard `attempt_count > 0` never fails for a dispatcher's refund: a busy verdict always
  // takes exactly one attempt back, and a claim followed by it leaves the count where it was.
  lemma RefundAlwaysCounts(cfg: Config, s0: State, es: seq<Event>, d: nat, id: nat)
    requires Init(s0) && Valid(cfg, s0, es) && Enabled(Run(cfg, s0, es), LockBusy(d, id))
    ensures var s := Run(cfg, s0, es);
            && s.rows[id].attempts > 0
            && Next(cfg, s, LockBusy(d, id)).rows[id].attempts == s.rows[id].attempts - 1
  {
    InvariantHolds(cfg, s0, es);
    assert d in Executing(Run(cfg, s0, es), id);
  }

  // ---------------------------------------------------------------- reachable shape

  // From well-shaped rows every stored row stays well shaped, so a FAILED row has spent its budget
  // and the branch of the backoff pass that revives FAILED rows never fires.
  lemma ReachableShape(cfg: Config, s0: State, es: seq<Event>, id: nat)
    requires Init(s0) && Valid(cfg, s0, es) && id in Run(cfg, s0, es).rows
    ensures Shape(Run(cfg, s0, es).rows[id])
    ensures Run(cfg, s0, es).rows[id].status == Failed ==> !LacksBackoff(Run(cfg, s0, es).rows[id])
    ensures IsPoison(Run(cfg, s0, es).rows[id]) <==> Run(cfg, s0, es).rows[id].status == Failed
  {
    InvariantHolds(cfg, s0, es);
    assert RowOk(Run(cfg, s0, es), id);
  }

  // Exhausted rows need not be FAILED: a crash on the last attempt, once reset, leaves a DEFERRED
  // row that no clock makes eligible, no backoff touches and the poison check does not report.
  lemma CrashOnLastAttemptIsSilent(r: Row, cutoff: Time, now: Time)
    requires Shape(r) && IsExhausted(r) && IsStale(r, cutoff)
    ensures var reset := ResetIfStale(r, cutoff, now);
            && reset.status == Deferred && IsOpen(reset) && !IsPoison(reset) && !LacksBackoff(reset)
            && forall later: Time :: !IsEligible(reset, later)
  {
  }

  // Open, out of attempts and not FAILED: neither dispatched nor reported.
  predicate IsSilent(r: Row) {
    IsExhausted(r) && IsOpen(r) && r.status == Deferred
  }

  // How rows become silent, exactly: by a stale reset that hits an exhausted row, or by the healer
  // deferring a row that never had an attempt to use.
  lemma SilentStepExactly(cfg: Config, s: State, e: Event, id: nat)
    requires Inv(s) && Enabled(s, e) && id in s.rows && !IsSilent(s.rows[id])
    ensures id in Next(cfg, s, e).rows
    ensures IsSilent(Next(cfg, s, e).rows[id])
            <==> (e.StaleReset? && e.tenant == s.rows[id].tenant && IsExhausted(s.rows[id])
                  && IsStale(s.rows[id], e.sampledAt - SECOND * cfg.staleSeconds))
                 || (e.Throttled? && id in e.ids && s.rows[id].maxAttempts == 0)
  {
    assert RowOk(s, id);
    AttemptsStep(cfg, s, e, id);
  }

  // The healer defers for twice the busy delay and, as the rows it takes are waiting ones without an
  // attempt counted, costs them none.
  lemma ThrottleExactly(cfg: Config, s: State, tenant: nat, ids: set<nat>, id: nat)
    requires Inv(s) && Enabled(s, Throttled(tenant, ids)) && id in s.rows
    ensures var r, after := s.rows[id], Next(cfg, s, Throttled(tenant, ids)).rows[id];
            if id in ids
            then && after.status == Deferred && after.attempts == r.attempts == 0 && after.requiresRebuild
                 && after.nextEligibleAt == Some(s.now + SECOND * (2 * cfg.deferSeconds))
            else after == r
  {
    assert RowOk(s, id);
  }

  // A reset revives a row exactly if it has budget left, and then from the end of its backoff on.
  lemma ResetRevivesExactly(r: Row, cutoff: Time, now: Time)
    requires Shape(r) && IsStale(r, cutoff)
    ensures (exists later: Time :: IsEligible(ResetIfStale(r, cutoff, now), later)) <==> !IsExhausted(r)
    ensures forall later: Time :: IsEligible(ResetIfStale(r, cutoff, now), later)
                                  <==> r.attempts < r.maxAttempts
                                       && now + SECOND * Min(30 * Pow2(r.attempts), 3600) <= later
  {
    if !IsExhausted(r) {
      assert IsEligible(ResetIfStale(r, cutoff, now), NextEligibleAt(r.attempts, now));
    }
  }

  // One fresh row, claimed at the start of the run.
  lemma FreshRowClaimed(maxAttempts: nat) returns (cfg: Config, s0: State, es: seq<Event>, claimed: Row)
    requires maxAttempts >= 1
    ensures cfg.staleSeconds == 3600 && Init(s0) && 0 in s0.rows && IsFresh(s0.rows[0]) && Valid(cfg, s0, es)
    ensures Run(cfg, s0, es) == State(0, map[0 := claimed], map[0 := Flight(0, 0, false)])
    ensures claimed.tenant == 0 && claimed.status == Running && claimed.startedAt == Some(0)
    ensures claimed.requiresRebuild && claimed.attempts == 1 && claimed.maxAttempts == maxAttempts
  {
    cfg := Config(3600, 60, 3);
    var pending := Row(0, 0, 100, 0, true, Pending, Incremental, 0, maxAttempts, None, None, None, None, None);
    s0 := State(0, map[0 := pending], map[]);
    assert RowOk(s0, 0);
    claimed := Claim(pending, 0, 3);
    Extend(cfg, s0, [], Claimed(0, 0));
    es := [] + [Claimed(0, 0)];
  }

  // Such a row is reachable from a fresh one: its only attempt is claimed, crashes and is reset.
  lemma SilentExhaustionReachable() returns (cfg: Config, s0: State, es: seq<Event>)
    ensures Init(s0) && 0 in s0.rows && IsFresh(s0.rows[0]) && Valid(cfg, s0, es)
    ensures 0 in Run(cfg, s0, es).rows && IsExhausted(Run(cfg, s0, es).rows[0])
    ensures IsOpen(Run(cfg, s0, es).rows[0]) && Run(cfg, s0, es).rows[0].status == Deferred
    ensures NoFlight(Run(cfg, s0, es), 0)
  {
    var claimed;
    cfg, s0, es, claimed := FreshRowClaimed(1);
    Extend(cfg, s0, es, Crashed(0, 0));
    es := es + [Crashed(0, 0)];
    var crashed := Run(cfg, s0, es);
    assert crashed == State(0, map[0 := claimed], map[]);
    var reset := ResetAfterLimit(cfg, crashed, 0);
    RunJoin(cfg, s0, es, reset);
    es := es + reset;
  }

  ghost predicate NoFlight(s: State, id: nat) {
    forall d | d in s.inflight :: s.inflight[d].row != id
  }

  lemma ExhaustedStep(cfg: Config, s: State, e: Event, id: nat)
    requires Inv(s) && Enabled(s, e) && id in s.rows && IsExhausted(s.rows[id]) && NoFlight(s, id)
    ensures id in Next(cfg, s, e).rows && IsExhausted(Next(cfg, s, e).rows[id]) && NoFlight(Next(cfg, s, e), id)
    ensures !ClaimsRow(e, id)
    ensures IsOpen(s.rows[id]) ==> IsOpen(Next(cfg, s, e).rows[id])
    ensures Next(cfg, s, e).rows[id].priority == s.rows[id].priority
    ensures Next(cfg, s, e).rows[id].createdAt == s.rows[id].createdAt
  {
    assert RowOk(s, id);
  }

  // An exhausted row with nobody executing it is never claimed again, and if the query selects it
  // now, the query selects it forever.
  lemma {:induction false} ExhaustedForever(cfg: Config, s: State, es: seq<Event>, id: nat)
    requires Inv(s) && Valid(cfg, s, es) && id in s.rows && IsExhausted(s.rows[id]) && NoFlight(s, id)
    ensures Inv(Run(cfg, s, es))
    ensures ClaimsOf(es, id) == 0
    ensures id in Run(cfg, s, es).rows && IsExhausted(Run(cfg, s, es).rows[id]) && NoFlight(Run(cfg, s, es), id)
    ensures IsOpen(s.rows[id]) ==> IsOpen(Run(cfg, s, es).rows[id])
    ensures Run(cfg, s, es).rows[id].priority == s.rows[id].priority
    ensures Run(cfg, s, es).rows[id].createdAt == s.rows[id].createdAt
  {
    if es != [] {
      var n := |es| - 1;
      ExhaustedForever(cfg, s, es[..n], id);
      InvStep(cfg, Run(cfg, s, es[..n]), es[n]);
      ExhaustedStep(cfg, Run(cfg, s, es[..n]), es[n], id);
    }
  }

  // ---------------------------------------------------------------- success is absorbing

  lemma {:induction false} DoneForever(cfg: Config, s: State, es: seq<Event>, id: nat)
    requires Valid(cfg, s, es) && id in s.rows && !s.rows[id].requiresRebuild
    ensures id in Run(cfg, s, es).rows && !Run(cfg, s, es).rows[id].requiresRebuild
    ensures ClaimsOf(es, id) == 0
  {
    if es != [] {
      DoneForever(cfg, s, es[..|es| - 1], id);
    }
  }

  // Once any dispatcher commits success on a row, no later step of the run claims it, whatever
  // verdicts other dispatchers still in flight write over its status.
  lemma SuccessIsAbsorbing(cfg: Config, s0: State, es: seq<Event>, i: nat, d: nat, id: nat)
    requires Valid(cfg, s0, es) && i < |es| && es[i] == Completed(d, id)
    ensures ClaimsOf(es[i + 1..], id) == 0
    ensures id in Run(cfg, s0, es).rows && !Run(cfg, s0, es).rows[id].requiresRebuild
  {
    assert es == es[..i + 1] + es[i + 1..];
    RunConcat(cfg, s0, es[..i + 1], es[i + 1..]);
    assert es[..i + 1][..i] == es[..i];
    DoneForever(cfg, Run(cfg, s0, es[..i + 1]), es[i + 1..], id);
  }

  // Without a deadline a stale reset lets a second dispatcher in while the first still executes.
  lemma TwoInFlightWithoutDeadline() returns (cfg: Config, s0: State, es: seq<Event>)
    ensures Init(s0) && Valid(cfg, s0, es)
    ensures Executing(Run(cfg, s0, es), 0) == {0, 1}
    ensures Executes(Run(cfg, s0, es), 0, 0) && Executes(Run(cfg, s0, es), 1, 0)
  {
    var claimed, reset;
    cfg, s0, es, claimed := FreshRowClaimed(3);
    es, reset := ResetLate(cfg, s0, es, claimed);
    Extend(cfg, s0, es, Claimed(1, 0));
    es := es + [Claimed(1, 0)];
  }

  // One hour and a second later the claim is stale, and another hour on the row is eligible again.
  lemma ResetLate(cfg: Config, s0: State, es: seq<Event>, claimed: Row) returns (longer: seq<Event>, reset: Row)
    requires cfg.staleSeconds == 3600 && Valid(cfg, s0, es)
    requires Run(cfg, s0, es) == State(0, map[0 := claimed], map[0 := Flight(0, 0, false)])
    requires claimed.tenant == 0 && claimed.status == Running && claimed.startedAt == Some(0)
    requires claimed.requiresRebuild && !IsExhausted(claimed)
    ensures Valid(cfg, s0, longer)
    ensures Run(cfg, s0, longer) == State(7300 * SECOND, map[0 := reset], map[0 := Flight(0, 0, false)])
    ensures IsEligible(reset, 7300 * SECOND)
  {
    var late, later := 3601 * SECOND, 7300 * SECOND;
    Extend(cfg, s0, es, Ticked(late));
    longer := es + [Ticked(late)];
    Extend(cfg, s0, longer, StaleReset(0, late));
    longer := longer + [StaleReset(0, late)];
    reset := ResetIfStale(claimed, SECOND, late);
    Backoff.DelayShape(claimed.attempts);
    assert Run(cfg, s0, longer).rows == map[0 := reset];
    Extend(cfg, s0, longer, Ticked(later));
    longer := longer + [Ticked(later)];
  }

  // So the SUCCEEDED status is not absorbing: the first dispatcher's success is followed by the
  // second's busy verdict, which leaves the row DEFERRED, though still never to be claimed.
  lemma LateVerdictOverwritesSuccess() returns (cfg: Config, s0: State, es: seq<Event>)
    ensures Init(s0) && Valid(cfg, s0, es)
    ensures |es| > 1 && es[|es| - 2] == Completed(0, 0)
    ensures 0 in Run(cfg, s0, es).rows && Run(cfg, s0, es).rows[0].status == Deferred
    ensures !Run(cfg, s0, es).rows[0].requiresRebuild
  {
    cfg, s0, es := TwoInFlightWithoutDeadline();
    Extend(cfg, s0, es, Completed(0, 0));
    es := es + [Completed(0, 0)];
    Extend(cfg, s0, es, LockBusy(1, 0));
    es := es + [LockBusy(1, 0)];
  }

  // ---------------------------------------------------------------- timed mutual exclusion

  // Every execution still without a verdict is within the stale limit of its claim.
  ghost predicate Timely(cfg: Config, s: State) {
    forall d | d in s.inflight && !s.inflight[d].committed :: s.now <= s.inflight[d].at + SECOND * cfg.staleSeconds
  }

  ghost predicate AlwaysTimely(cfg: Config, s0: State, es: seq<Event>)
    requires Valid(cfg, s0, es)
  {
    Timely(cfg, Run(cfg, s0, es)) && (es == [] || AlwaysTimely(cfg, s0, es[..|es| - 1]))
  }

  ghost predicate Exclusive(s: State) {
    && (forall d, x | d in s.inflight && x in s.inflight && s.inflight[d].row == s.inflight[x].row :: d == x)
    && forall d | d in s.inflight && !s.inflight[d].committed && s.inflight[d].row in s.rows ::
         && s.rows[s.inflight[d].row].status == Running
         && s.rows[s.inflight[d].row].startedAt == Some(s.inflight[d].at)
  }

  lemma OneFlightStep(cfg: Config, s: State, e: Event, t: State, d: nat, x: nat)
    requires Inv(s) && Exclusive(s) && Enabled(s, e) && t == Next(cfg, s, e)
    requires d in t.inflight && x in t.inflight && t.inflight[d].row == t.inflight[x].row
    ensures d == x
  {
  }

  // The event is a stale reset that takes a row away from a dispatcher still executing it.
  ghost predicate ResetsFlight(cfg: Config, s: State, e: Event) {
    e.StaleReset? && exists d | d in s.inflight :: ResetHits(cfg, s, e, s.inflight[d])
  }

  predicate ResetHits(cfg: Config, s: State, e: Event, f: Flight)
    requires e.StaleReset?
  {
    && !f.committed && f.row in s.rows && s.rows[f.row].tenant == e.tenant
    && IsStale(s.rows[f.row], e.sampledAt - SECOND * cfg.staleSeconds)
  }

  lemma RunningSinceClaimStep(cfg: Config, s: State, e: Event, t: State, d: nat)
    requires Inv(s) && Exclusive(s) && !ResetsFlight(cfg, s, e) && Enabled(s, e) && t == Next(cfg, s, e)
    requires d in t.inflight && !t.inflight[d].committed && t.inflight[d].row in t.rows
    ensures t.rows[t.inflight[d].row].status == Running
    ensures t.rows[t.inflight[d].row].startedAt == Some(t.inflight[d].at)
  {
    if e.StaleReset? {
      assert !ResetHits(cfg, s, e, s.inflight[d]);
    }
  }

  // Exactly such a reset ends exclusivity: every other event keeps it.
  lemma ExclusiveStepExactly(cfg: Config, s: State, e: Event)
    requires Inv(s) && Enabled(s, e) && Exclusive(s)
    ensures Exclusive(Next(cfg, s, e)) <==> !ResetsFlight(cfg, s, e)
  {
    var t := Next(cfg, s, e);
    if ResetsFlight(cfg, s, e) {
      var d :| d in s.inflight && ResetHits(cfg, s, e, s.inflight[d]);
      assert t.rows[t.inflight[d].row].status == Deferred;
    } else {
      forall d, x | d in t.inflight && x in t.inflight && t.inflight[d].row == t.inflight[x].row ensures d == x {
        OneFlightStep(cfg, s, e, t, d, x);
      }
      forall d | d in t.inflight && !t.inflight[d].committed && t.inflight[d].row in t.rows
        ensures t.rows[t.inflight[d].row].status == Running
                && t.rows[t.inflight[d].row].startedAt == Some(t.inflight[d].at)
      {
        RunningSinceClaimStep(cfg, s, e, t, d);
      }
    }
  }

  ghost predicate AlwaysExclusive(cfg: Config, s0: State, es: seq<Event>)
    requires Valid(cfg, s0, es)
  {
    Exclusive(Run(cfg, s0, es)) && (es == [] || AlwaysExclusive(cfg, s0, es[..|es| - 1]))
  }

  ghost predicate NeverResetsFlight(cfg: Config, s0: State, es: seq<Event>)
    requires Valid(cfg, s0, es)
  {
    es == [] ||
    var n := |es| - 1;
    !ResetsFlight(cfg, Run(cfg, s0, es[..n]), es[n]) && NeverResetsFlight(cfg, s0, es[..n])
  }

  // A run keeps at most one dispatcher in flight on each row, with the row RUNNING since its claim,
  // if and only if no stale reset in it hits a row that is being executed.
  lemma {:induction false} ExclusiveRunsExactly(cfg: Config, s0: State, es: seq<Event>)
    requires Init(s0) && Valid(cfg, s0, es)
    ensures AlwaysExclusive(cfg, s0, es) <==> NeverResetsFlight(cfg, s0, es)
  {
    if es != [] {
      var n := |es| - 1;
      ExclusiveRunsExactly(cfg, s0, es[..n]);
      InvariantHolds(cfg, s0, es[..n]);
      if AlwaysExclusive(cfg, s0, es[..n]) {
        ExclusiveStepExactly(cfg, Run(cfg, s0, es[..n]), es[n]);
      }
    }
  }

  // If every claim gets its verdict or crashes within the stale limit, then in every run at most
  // one dispatcher is in flight on a row, and until its verdict the row is RUNNING since its claim,
  // although resets and the healer run concurrently.
  lemma {:induction false} TimedMutualExclusion(cfg: Config, s0: State, es: seq<Event>)
    requires Init(s0) && Valid(cfg, s0, es) && AlwaysTimely(cfg, s0, es)
    ensures Exclusive(Run(cfg, s0, es))
  {
    if es != [] {
      var n := |es| - 1;
      TimedMutualExclusion(cfg, s0, es[..n]);
      InvariantHolds(cfg, s0, es[..n]);
      ExclusiveStepExactly(cfg, Run(cfg, s0, es[..n]), es[n]);
    }
  }

  // A row that needs no rebuild and that no dispatcher holds is never written again.
  lemma {:induction false} IdleDoneRowIsFrozen(cfg: Config, s: State, es: seq<Event>, id: nat)
    requires Valid(cfg, s, es) && id in s.rows && NoFlight(s, id)
    requires !s.rows[id].requiresRebuild && s.rows[id].status != Running
    ensures id in Run(cfg, s, es).rows && Run(cfg, s, es).rows[id] == s.rows[id] && NoFlight(Run(cfg, s, es), id)
  {
    if es != [] {
      IdleDoneRowIsFrozen(cfg, s, es[..|es| - 1], id);
    }
  }

  // SUCCEEDED is final in every continuation if and only if no dispatcher holds the row any more,
  // be it one that still executes or the one whose success was just committed.
  lemma SucceededIsFinalExactly(cfg: Config, s: State, id: nat)
    requires Inv(s) && id in s.rows && s.rows[id].status == Succeeded
    ensures NoFlight(s, id)
            <==> forall es | Valid(cfg, s, es) ::
                   id in Run(cfg, s, es).rows && Run(cfg, s, es).rows[id].status == Succeeded
  {
    assert RowOk(s, id);
    if NoFlight(s, id) {
      forall es | Valid(cfg, s, es)
        ensures id in Run(cfg, s, es).rows && Run(cfg, s, es).rows[id].status == Succeeded
      {
        IdleDoneRowIsFrozen(cfg, s, es, id);
      }
    } else {
      var d :| d in s.inflight && s.inflight[d].row == id;
      var late := if s.inflight[d].committed then LateError(d, id, "") else Errored(d, id, "");
      Extend(cfg, s, [], late);
      assert Run(cfg, s, [] + [late]).rows[id].status != Succeeded;
    }
  }

  ghost predicate OnlyFlight(s: State, d: nat, id: nat) {
    forall x | x in s.inflight && s.inflight[x].row == id :: x == d && s.inflight[x].committed
  }

  // While the only dispatcher holding a finished row is the one that committed its success, the
  // one event that can still change the row is that dispatcher's late error.
  lemma {:induction false} LateErrorDecides(cfg: Config, s: State, es: seq<Event>, d: nat, id: nat)
    requires Valid(cfg, s, es) && id in s.rows && OnlyFlight(s, d, id)
    requires !s.rows[id].requiresRebuild && s.rows[id].status == Succeeded
    ensures id in Run(cfg, s, es).rows && !Run(cfg, s, es).rows[id].requiresRebuild
    ensures var t := Run(cfg, s, es);
            if exists e :: e in es && e.LateError? && e.id == id
            then t.rows[id].status in {Failed, Deferred} && NoFlight(t, id)
            else t.rows[id].status == Succeeded && OnlyFlight(t, d, id)
  {
    if es != [] {
      var n := |es| - 1;
      assert es == es[..n] + [es[n]];
      LateErrorDecides(cfg, s, es[..n], d, id);
      LateErrorStep(cfg, Run(cfg, s, es[..n]), es[n], d, id);
    }
  }

  lemma LateErrorStep(cfg: Config, s: State, e: Event, d: nat, id: nat)
    requires Enabled(s, e) && id in s.rows && !s.rows[id].requiresRebuild
    ensures var t := Next(cfg, s, e);
            && id in t.rows && !t.rows[id].requiresRebuild
            && (s.rows[id].status in {Failed, Deferred} && NoFlight(s, id) ==>
                  !(e.LateError? && e.id == id) && t.rows[id].status == s.rows[id].status && NoFlight(t, id))
            && (s.rows[id].status == Succeeded && OnlyFlight(s, d, id) ==>
                  if e.LateError? && e.id == id then t.rows[id].status in {Failed, Deferred} && NoFlight(t, id)
                  else t.rows[id].status == Succeeded && OnlyFlight(t, d, id))
  {
  }

  // Under the deadline SUCCEEDED is final as a status exactly if the bookkeeping after that very
  // commit does not raise.
  lemma TimelySuccessIsFinal(cfg: Config, s0: State, es: seq<Event>, i: nat, d: nat, id: nat)
    requires Init(s0) && Valid(cfg, s0, es) && i < |es| && es[i] == Completed(d, id)
    requires Valid(cfg, s0, es[..i]) && AlwaysTimely(cfg, s0, es[..i])
    ensures id in Run(cfg, s0, es).rows
    ensures Run(cfg, s0, es).rows[id].status == Succeeded
            <==> forall e | e in es[i + 1..] && e.LateError? :: e.id != id
  {
    assert es == es[..i + 1] + es[i + 1..];
    RunConcat(cfg, s0, es[..i + 1], es[i + 1..]);
    assert es[..i + 1][..i] == es[..i];
    TimedMutualExclusion(cfg, s0, es[..i]);
    LateErrorDecides(cfg, Run(cfg, s0, es[..i + 1]), es[i + 1..], d, id);
  }

  // ---------------------------------------------------------------- no lost row

  // The instant at which the row's next_eligible_at was last changed.
  ghost function ScheduledAt(cfg: Config, s0: State, es: seq<Event>, id: nat): Time
    requires Valid(cfg, s0, es) && id in Run(cfg, s0, es).rows
  {
    if es == [] then s0.now
    else
      var front := es[..|es| - 1];
      var before, after := Run(cfg, s0, front), Run(cfg, s0, es);
      if id in before.rows && before.rows[id].nextEligibleAt == after.rows[id].nextEligibleAt
      then ScheduledAt(cfg, s0, front, id)
      else after.now
  }

  ghost predicate NextWithin(s: State, id: nat, since: Time, wait: int)
    requires id in s.rows
  {
    s.rows[id].nextEligibleAt.Some? ==> s.rows[id].nextEligibleAt.value <= since + SECOND * wait
  }

  // A bound on every delay the events can schedule. The healer defers for twice the busy delay.
  ghost predicate CoversDelays(cfg: Config, es: seq<Event>, wait: int) {
    && wait >= MAX_DELAY_SECONDS && wait >= cfg.deferSeconds
    && ((exists e | e in es :: e.Throttled?) ==> wait >= 2 * cfg.deferSeconds)
  }

  lemma DelayStep(cfg: Config, s: State, e: Event, id: nat, wait: int)
    requires Inv(s) && Enabled(s, e) && CoversDelays(cfg, [e], wait) && id in Next(cfg, s, e).rows
    ensures (id in s.rows && Next(cfg, s, e).rows[id].nextEligibleAt == s.rows[id].nextEligibleAt)
            || NextWithin(Next(cfg, s, e), id, Next(cfg, s, e).now, wait)
  {
    if id in s.rows {
      Backoff.DelayShape(s.rows[id].attempts);
    }
    assert e in [e];
  }

  lemma {:induction false} ScheduleBounded(cfg: Config, s0: State, es: seq<Event>, id: nat, wait: int)
    requires Init(s0) && Valid(cfg, s0, es) && id in Run(cfg, s0, es).rows && CoversDelays(cfg, es, wait)
    requires forall x | x in s0.rows :: NextWithin(s0, x, s0.now, wait)
    ensures ScheduledAt(cfg, s0, es, id) <= Run(cfg, s0, es).now
    ensures NextWithin(Run(cfg, s0, es), id, ScheduledAt(cfg, s0, es, id), wait)
  {
    if es != [] {
      var n := |es| - 1;
      var front := es[..n];
      assert es == front + [es[n]];
      assert CoversDelays(cfg, front, wait) && CoversDelays(cfg, [es[n]], wait);
      InvariantHolds(cfg, s0, front);
      DelayStep(cfg, Run(cfg, s0, front), es[n], id, wait);
      if id in Run(cfg, s0, front).rows {
        ScheduleBounded(cfg, s0, front, id, wait);
      }
    }
  }

  // No row is lost: at every transaction boundary it is done, or exhausted, or RUNNING with a
  // start time, or eligible from at most `wait` seconds after its last scheduling write on.
  lemma NoLostRow(cfg: Config, s0: State, es: seq<Event>, id: nat, wait: int)
    requires Init(s0) && Valid(cfg, s0, es) && id in Run(cfg, s0, es).rows && CoversDelays(cfg, es, wait)
    requires forall x | x in s0.rows :: NextWithin(s0, x, s0.now, wait)
    ensures var r := Run(cfg, s0, es).rows[id];
            || !r.requiresRebuild
            || IsExhausted(r)
            || (r.status == Running && r.startedAt.Some?)
            || forall t: Time | t >= ScheduledAt(cfg, s0, es, id) + SECOND * wait :: IsEligible(r, t)
    ensures ScheduledAt(cfg, s0, es, id) <= Run(cfg, s0, es).now
  {
    InvariantHolds(cfg, s0, es);
    assert RowOk(Run(cfg, s0, es), id);
    ScheduleBounded(cfg, s0, es, id, wait);
  }

  // When a row that only has to wait becomes eligible.
  function EligibleFrom(r: Row, now: Time): Time {
    if r.nextEligibleAt.Some? then Max(now, r.nextEligibleAt.value) else now
  }

  // A RUNNING row is deferred by the first reset after its stale limit.
  lemma ResetAfterLimit(cfg: Config, s: State, id: nat) returns (es: seq<Event>)
    requires id in s.rows && s.rows[id].status == Running && s.rows[id].startedAt.Some?
    ensures Valid(cfg, s, es) && |es| == 2 && ClaimsOf(es, id) == 0 && Run(cfg, s, es).inflight == s.inflight
    ensures Run(cfg, s, es).now == Max(s.now, s.rows[id].startedAt.value + SECOND * cfg.staleSeconds + 1)
    ensures var now := Run(cfg, s, es).now;
            id in Run(cfg, s, es).rows && Run(cfg, s, es).rows[id]
            == s.rows[id].(status := Deferred, lastError := Some(STALE_ERROR),
                           nextEligibleAt := Some(NextEligibleAt(s.rows[id].attempts, now)))
  {
    var stale := Max(s.now, s.rows[id].startedAt.value + SECOND * cfg.staleSeconds + 1);
    Extend(cfg, s, [], Ticked(stale));
    es := [] + [Ticked(stale)];
    assert Run(cfg, s, es) == s.(now := stale);
    Extend(cfg, s, es, StaleReset(s.rows[id].tenant, stale));
    CountsSnoc([], Ticked(stale), id);
    CountsSnoc(es, StaleReset(s.rows[id].tenant, stale), id);
    es := es + [StaleReset(s.rows[id].tenant, stale)];
  }

  // From every state that satisfies the invariant, a row with work and budget left comes to pass the
  // eligibility check within three events and without being claimed: if it is RUNNING after a stale
  // reset and its backoff, otherwise after the wait it has been given. Whether it is then selected
  // is another matter.
  lemma BecomesEligible(cfg: Config, s: State, id: nat) returns (es: seq<Event>)
    requires Inv(s) && id in s.rows && s.rows[id].requiresRebuild && !IsExhausted(s.rows[id])
    ensures Valid(cfg, s, es) && |es| <= 3 && ClaimsOf(es, id) == 0
    ensures id in Run(cfg, s, es).rows && IsEligible(Run(cfg, s, es).rows[id], Run(cfg, s, es).now)
    ensures s.rows[id].status == Running ==>
              Run(cfg, s, es).now <= Max(s.now, s.rows[id].startedAt.value + SECOND * cfg.staleSeconds + 1)
                                     + SECOND * MAX_DELAY_SECONDS
    ensures s.rows[id].status != Running ==> Run(cfg, s, es).now == EligibleFrom(s.rows[id], s.now)
  {
    assert RowOk(s, id);
    es := [];
    if s.rows[id].status == Running {
      es := ResetAfterLimit(cfg, s, id);
      Backoff.DelayShape(s.rows[id].attempts);
    }
    var t := Run(cfg, s, es);
    var wait := Ticked(EligibleFrom(t.rows[id], t.now));
    Extend(cfg, s, es, wait);
    CountsSnoc(es, wait, id);
    es := es + [wait];
  }

  // ---------------------------------------------------------------- termination measure

  ghost function Remaining(s: State): nat -> int {
    (id: nat) => if id in s.rows then s.rows[id].maxAttempts - s.rows[id].attempts else 0
  }

  ghost function AllExecuting(s: State): set<nat> {
    set d | d in s.inflight && !s.inflight[d].committed
  }

  // Attempts not yet taken, plus those taken by executions that may still be refunded.
  ghost function Potential(s: State): int {
    Sum(s.rows.Keys, Remaining(s)) + |AllExecuting(s)|
  }

  ghost function RemainingTotal(s: State): int {
    Sum(s.rows.Keys, Remaining(s))
  }

  lemma AllExecutingMoves(cfg: Config, s: State, e: Event)
    requires Enabled(s, e)
    ensures Moves(AllExecuting(s), AllExecuting(Next(cfg, s, e)), DispatcherOf(e), e.Claimed?, e.LockBusy? || Consumes(e))
  {
  }

  lemma AllExecutingStep(cfg: Config, s: State, e: Event)
    requires Enabled(s, e)
    ensures |AllExecuting(Next(cfg, s, e))|
            == |AllExecuting(s)| + One(e.Claimed?) - One(e.LockBusy? || Consumes(e))
  {
    AllExecutingMoves(cfg, s, e);
    SizeMoves(AllExecuting(s), AllExecuting(Next(cfg, s, e)), DispatcherOf(e), e.Claimed?, e.LockBusy? || Consumes(e));
  }

  lemma RemainingAt(cfg: Config, s: State, e: Event, id: nat)
    requires Inv(s) && Enabled(s, e) && id in s.rows
    ensures Remaining(Next(cfg, s, e))(id)
            == Remaining(s)(id) - One(ClaimsRow(e, id))
               + One(RefundsRow(e, id))
  {
    AttemptsStep(cfg, s, e, id);
    assert Next(cfg, s, e).rows[id].maxAttempts == s.rows[id].maxAttempts;
  }

  lemma KeysStep(cfg: Config, s: State, e: Event)
    requires Enabled(s, e)
    ensures !e.Requested? ==> Next(cfg, s, e).rows.Keys == s.rows.Keys
    ensures e.Claimed? || e.LockBusy? ==> e.id in s.rows.Keys
  {
  }

  lemma RemainingOfRequest(cfg: Config, s: State, r: Row)
    requires Enabled(s, Requested(r))
    ensures RemainingTotal(Next(cfg, s, Requested(r))) == RemainingTotal(s) + r.maxAttempts
  {
    var t := Next(cfg, s, Requested(r));
    assert t.rows.Keys - {r.id} == s.rows.Keys;
    Pick(t.rows.Keys, Remaining(t), r.id);
    Congruent(s.rows.Keys, Remaining(s), Remaining(t));
  }

  lemma RemainingStep(cfg: Config, s: State, e: Event)
    requires Inv(s) && Enabled(s, e) && !e.Requested?
    ensures RemainingTotal(Next(cfg, s, e)) == RemainingTotal(s) - One(e.Claimed?) + One(e.LockBusy?)
  {
    var t := Next(cfg, s, e);
    KeysStep(cfg, s, e);
    forall x | x in s.rows.Keys
      ensures Remaining(t)(x) == Remaining(s)(x) - One(ClaimsRow(e, x)) + One(RefundsRow(e, x))
    {
      RemainingAt(cfg, s, e, x);
    }
    SumMoves(s.rows.Keys, Remaining(s), Remaining(t), e);
  }

  lemma SumMoves(ks: set<nat>, f: nat -> int, g: nat -> int, e: Event)
    requires forall x | x in ks :: g(x) == f(x) - One(ClaimsRow(e, x)) + One(RefundsRow(e, x))
    requires e.Claimed? || e.LockBusy? ==> e.id in ks
    ensures Sum(ks, g) == Sum(ks, f) - One(e.Claimed?) + One(e.LockBusy?)
  {
    if e.Claimed? || e.LockBusy? {
      Bump(ks, f, g, e.id);
    } else {
      Congruent(ks, f, g);
    }
  }

  // Each execution that uses up an attempt lowers the potential by one. Claims, busy refunds, stale
  // resets, backoff, the healer and the clock leave it alone; a new row adds its budget.
  lemma PotentialStep(cfg: Config, s: State, e: Event)
    requires Inv(s) && Enabled(s, e)
    ensures Potential(Next(cfg, s, e))
            == Potential(s) - One(Consumes(e)) + (if e.Requested? then e.row.maxAttempts else 0)
  {
    AllExecutingStep(cfg, s, e);
    if e.Requested? {
      RemainingOfRequest(cfg, s, e.row);
    } else {
      RemainingStep(cfg, s, e);
    }
  }

  function ConsumedTotal(es: seq<Event>): nat {
    if es == [] then 0
    else ConsumedTotal(es[..|es| - 1]) + One(Consumes(es[|es| - 1]))
  }

  // The dispatches reported as succeeded or failed (a late error is the same dispatch again).
  function VerdictTotal(es: seq<Event>): nat {
    if es == [] then 0
    else VerdictTotal(es[..|es| - 1]) + One(es[|es| - 1].Completed? || es[|es| - 1].Errored?)
  }

  function RequestedBudget(es: seq<Event>): int {
    if es == [] then 0
    else RequestedBudget(es[..|es| - 1]) + (if es[|es| - 1].Requested? then es[|es| - 1].row.maxAttempts else 0)
  }

  lemma {:induction false} PotentialBalance(cfg: Config, s0: State, es: seq<Event>)
    requires Init(s0) && Valid(cfg, s0, es)
    ensures ConsumedTotal(es) + Potential(Run(cfg, s0, es)) == Potential(s0) + RequestedBudget(es)
  {
    if es != [] {
      var n := |es| - 1;
      PotentialBalance(cfg, s0, es[..n]);
      InvariantHolds(cfg, s0, es[..n]);
      PotentialStep(cfg, Run(cfg, s0, es[..n]), es[n]);
    }
  }

  lemma {:induction false} VerdictsAreConsumptions(es: seq<Event>)
    ensures VerdictTotal(es) <= ConsumedTotal(es)
  {
    if es != [] {
      VerdictsAreConsumptions(es[..|es| - 1]);
    }
  }

  // Over any run, however long, the dispatches that end in success or failure number at most the
  // attempts the initial rows had left plus the budgets of the rows added on the way.
  lemma DispatchesAreBounded(cfg: Config, s0: State, es: seq<Event>)
    requires Init(s0) && Valid(cfg, s0, es)
    ensures VerdictTotal(es) <= RemainingTotal(s0) + RequestedBudget(es)
  {
    PotentialBalance(cfg, s0, es);
    VerdictsAreConsumptions(es);
    assert AllExecuting(s0) == {};
    InvariantHolds(cfg, s0, es);
    var s := Run(cfg, s0, es);
    forall id | id in s.rows.Keys ensures Remaining(s)(id) >= 0 {
      assert RowOk(s, id);
    }
    NonNegative(s.rows.Keys, Remaining(s));
  }
}
