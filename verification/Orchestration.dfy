// The stored row as an object, the service that writes its fields, and one dispatcher execution as
// the sequence of its transactions.
module Orchestration {
  import opened Common
  import opened RebuildRows
  import opened RuntimeGuards
  import P = RebuildProtocol

  class SnapshotRebuildRequirement {
    const id: nat
    const tenant: nat
    const priority: int
    const createdAt: Time
    const maxAttempts: int
    var requiresRebuild: bool
    var orchestrationStatus: Status
    var rebuildMode: Mode
    var attemptCount: nat
    var lastError: Option<string>
    var lastAttemptedAt: Option<Time>
    var nextEligibleAt: Option<Time>
    var startedAt: Option<Time>
    var completedAt: Option<Time>

    constructor (id: nat, tenant: nat, priority: int, createdAt: Time, maxAttempts: nat)
      ensures IsFresh(View()) && this.id == id && this.tenant == tenant && this.priority == priority
      ensures this.createdAt == createdAt && this.maxAttempts == maxAttempts
    {
      this.id, this.tenant, this.priority := id, tenant, priority;
      this.createdAt, this.maxAttempts := createdAt, maxAttempts;
      requiresRebuild, orchestrationStatus, rebuildMode, attemptCount := true, Pending, Incremental, 0;
      lastError, lastAttemptedAt, nextEligibleAt, startedAt, completedAt := None, None, None, None, None;
    }

    function View(): Row
      reads this
    {
      Row(id, tenant, priority, createdAt, requiresRebuild, orchestrationStatus, rebuildMode, attemptCount,
          maxAttempts, lastError, lastAttemptedAt, nextEligibleAt, startedAt, completedAt)
    }
  }

  // ---------------------------------------------------------------- RebuildOrchestrationService

  method MarkQueued(row: SnapshotRebuildRequirement)
    modifies row
    ensures row.View() == Enqueue(old(row.View()))
  {
    row.orchestrationStatus := Queued;
  }

  method MarkRunning(row: SnapshotRebuildRequirement, now: Time)
    modifies row
    ensures row.View() == Start(old(row.View()), now)
  {
    row.orchestrationStatus := Running;
    row.startedAt := Some(now);
    row.lastAttemptedAt := Some(now);
    row.attemptCount := row.attemptCount + 1;
  }

  method MarkSucceeded(row: SnapshotRebuildRequirement, now: Time)
    modifies row
    ensures row.View() == Succeed(old(row.View()), now)
  {
    row.orchestrationStatus := Succeeded;
    row.requiresRebuild := false;
    row.completedAt := Some(now);
    row.lastError := None;
  }

  method MarkFailed(row: SnapshotRebuildRequirement, now: Time, error: string)
    modifies row
    ensures row.View() == Fail(old(row.View()), now, error)
  {
    row.lastError := Some(error);
    row.lastAttemptedAt := Some(now);
    if row.attemptCount >= row.maxAttempts {
      row.orchestrationStatus := Failed;
      row.completedAt := Some(now);
    } else {
      row.orchestrationStatus := Deferred;
      row.nextEligibleAt := Some(NextEligibleAt(row.attemptCount, now));
    }
  }

  method MarkDeferredLockBusy(row: SnapshotRebuildRequirement, now: Time, deferSeconds: int)
    modifies row
    ensures row.View() == DeferBusy(old(row.View()), now, deferSeconds)
  {
    if row.attemptCount > 0 {
      row.attemptCount := row.attemptCount - 1;
    }
    row.orchestrationStatus := Deferred;
    row.nextEligibleAt := Some(now + SECOND * deferSeconds);
    row.lastError := Some(BUSY_ERROR);
    row.lastAttemptedAt := Some(now);
    row.startedAt := None;
  }

  // ---------------------------------------------------------------- RebuildDispatcher

  // How the rebuild ended. In the last case it was committed as a success, and then the breaker or
  // metric call after it raised inside the same `try`.
  datatype RebuildOutcome =
    | RebuildDone
    | RebuildLockBusy
    | RebuildRaised(error: string)
    | BookkeepingRaised(error: string)

  datatype DispatchResult = Skipped | TenantContained | SucceededDispatch | DeferredBusy | FailedDispatch

  function ResultOf(outcome: RebuildOutcome): DispatchResult {
    match outcome
    case RebuildDone => SucceededDispatch
    case RebuildLockBusy => DeferredBusy
    case RebuildRaised(_) => FailedDispatch
    case BookkeepingRaised(_) => FailedDispatch
  }

  // The protocol steps of one dispatched execution after its claim.
  function VerdictSteps(d: nat, id: nat, outcome: RebuildOutcome): seq<P.Event> {
    match outcome
    case RebuildDone => [P.Completed(d, id), P.Finished(d, id)]
    case RebuildLockBusy => [P.LockBusy(d, id)]
    case RebuildRaised(error) => [P.Errored(d, id, error)]
    case BookkeepingRaised(error) => [P.Completed(d, id), P.LateError(d, id, error)]
  }

  // The object holds what the run of the protocol says the row is.
  ghost predicate Follows(cfg: P.Config, s: P.State, log: seq<P.Event>, row: SnapshotRebuildRequirement)
    reads row
  {
    && P.Valid(cfg, s, log)
    && row.id in P.Run(cfg, s, log).rows && P.Run(cfg, s, log).rows[row.id] == row.View()
  }

  // Between two transactions of dispatcher d anything the protocol allows to others may happen, and
  // time passes. Callers may rely on no more than this.
  method OtherSessions(row: SnapshotRebuildRequirement, at: Time, ghost cfg: P.Config, ghost s: P.State,
                       ghost log: seq<P.Event>, ghost d: nat)
    returns (ghost longer: seq<P.Event>)
    requires Follows(cfg, s, log, row) && P.Run(cfg, s, log).now <= at
    modifies row
    ensures Follows(cfg, s, longer, row) && P.Run(cfg, s, longer).now == at
    ensures P.StepsOf(longer, d) == P.StepsOf(log, d)
    ensures log <= longer
    ensures d in P.Run(cfg, s, longer).inflight <==> d in P.Run(cfg, s, log).inflight
    ensures d in P.Run(cfg, s, log).inflight ==>
              P.Run(cfg, s, longer).inflight[d] == P.Run(cfg, s, log).inflight[d]
  {
    P.Extend(cfg, s, log, P.Ticked(at));
    P.StepsConcat(log, [P.Ticked(at)], d);
    longer := log + [P.Ticked(at)];
  }

  // One transaction of dispatcher d, once the object has been changed accordingly.
  lemma OwnStep(cfg: P.Config, s: P.State, log: seq<P.Event>, e: P.Event, d: nat)
    requires P.Valid(cfg, s, log) && P.Enabled(P.Run(cfg, s, log), e) && P.IsBy(e, d)
    ensures P.Valid(cfg, s, log + [e]) && P.Run(cfg, s, log + [e]) == P.Next(cfg, P.Run(cfg, s, log), e)
    ensures P.StepsOf(log + [e], d) == P.StepsOf(log, d) + [e]
  {
    P.Extend(cfg, s, log, e);
    P.StepsConcat(log, [e], d);
    assert [e][..0] == [];
  }

  // One execution of a selected requirement by an idle dispatcher d, from a state s of the protocol.
  // Whatever other sessions do in between, the execution together with them is a run of the
  // protocol in which d's own steps are a claim and the verdict of the outcome, or none, and the
  // row ends as that run says. So every theorem about runs holds of it. The verdict is written to
  // the row as it is by then, and the guard hears of each success and each busy outcome once.
  // `before` is the run up to the claim transaction, `reportedAt` the guard's own clock reading.
  method ExecuteRequirement(row: SnapshotRebuildRequirement, guard: RuntimeGuardState, cfg: P.Config,
                            peekAt: Time, tenantAllowed: bool, claimAt: Time, outcome: RebuildOutcome,
                            verdictAt: Time, reportedAt: Time, lateAt: Time, stormLimit: int, runawayLimit: int,
                            ghost s: P.State, ghost d: nat)
    returns (result: DispatchResult, ghost before: seq<P.Event>, ghost log: seq<P.Event>)
    requires Follows(cfg, s, [], row) && d !in s.inflight
    requires s.now == peekAt <= claimAt <= verdictAt <= lateAt
    modifies row, guard
    ensures Follows(cfg, s, log, row) && d !in P.Run(cfg, s, log).inflight
    // In the row's own fields, whatever happened in between:
    ensures result == SucceededDispatch ==>
              && outcome.RebuildDone? && P.Completed(d, row.id) in log
              && row.orchestrationStatus == Succeeded && !row.requiresRebuild
              && row.completedAt == Some(verdictAt) && row.lastError == None
              && guard.consecutiveBusyDefers == 0
    ensures result == DeferredBusy ==>
              && outcome.RebuildLockBusy? && P.LockBusy(d, row.id) in log
              && row.orchestrationStatus == Deferred && row.startedAt == None
              && row.nextEligibleAt == Some(verdictAt + SECOND * cfg.deferSeconds)
              && row.lastAttemptedAt == Some(verdictAt) && row.lastError == Some("inventory rebuild advisory lock busy")
              && guard.consecutiveBusyDefers == old(guard.consecutiveBusyDefers) + 1
    ensures result == FailedDispatch ==>
              && (outcome.RebuildRaised? || (outcome.BookkeepingRaised? && !row.requiresRebuild))
              && row.lastError == Some(outcome.error)
              && (var at := if outcome.RebuildRaised? then verdictAt else lateAt;
                  && row.lastAttemptedAt == Some(at)
                  && if row.attemptCount >= row.maxAttempts
                  then row.orchestrationStatus == Failed && row.completedAt == Some(at)
                  else && row.orchestrationStatus == Deferred
                       && row.nextEligibleAt == Some(at + SECOND * Min(30 * Pow2(row.attemptCount), 3600)))
    // What this dispatcher's steps cost the row: nothing if busy, one attempt otherwise.
    ensures result in {SucceededDispatch, DeferredBusy, FailedDispatch} ==>
              var own := P.StepsOf(log, d);
              && P.ClaimsOf(own, row.id) == 1
              && P.RefundsOf(own, row.id) == (if result == DeferredBusy then 1 else 0)
              && P.ConsumedOf(own, row.id) == (if result == DeferredBusy then 0 else 1)
    // As a run of the protocol:
    ensures !IsEligible(old(row.View()), peekAt) ==> result == Skipped && log == []
    ensures IsEligible(old(row.View()), peekAt) && !tenantAllowed ==> result == TenantContained && log == []
    ensures IsEligible(old(row.View()), peekAt) && tenantAllowed ==>
              && before <= log && P.Valid(cfg, s, before) && P.StepsOf(before, d) == []
              && P.Run(cfg, s, before).now == claimAt && row.id in P.Run(cfg, s, before).rows
              && (if IsEligible(P.Run(cfg, s, before).rows[row.id], claimAt)
                  then && result == ResultOf(outcome)
                       && before + [P.Claimed(d, row.id)] <= log
                       && P.StepsOf(log, d) == [P.Claimed(d, row.id)] + VerdictSteps(d, row.id, outcome)
                       && P.Run(cfg, s, log).now == (if outcome.BookkeepingRaised? then lateAt else verdictAt)
                  else result == Skipped && log == before)
    ensures guard.View() == if result in {Skipped, TenantContained} then old(guard.View())
                            else match outcome
                                 case RebuildDone => Observe(old(guard.View()), Dispatched(reportedAt))
                                 case RebuildLockBusy => Observe(old(guard.View()), BusyDeferred)
                                 case RebuildRaised(_) => Observe(old(guard.View()), Unsuccessful)
                                 case BookkeepingRaised(_) => Observe(old(guard.View()), Dispatched(reportedAt))
  {
    before, log := [], [];
    if !IsEligible(row.View(), peekAt) {
      return Skipped, before, log;
    }
    if !tenantAllowed {
      return TenantContained, before, log;
    }
    before := OtherSessions(row, claimAt, cfg, s, [], d);
    log := before;
    if !IsEligible(row.View(), claimAt) {
      return Skipped, before, log;
    }
    log := Dispatch(row, guard, claimAt, cfg, outcome, verdictAt, reportedAt, lateAt, stormLimit, runawayLimit,
                    s, before, d);
    DispatchAccount(log, d, row.id, outcome);
    result := ResultOf(outcome);
  }

  // An execution from its claim on.
  method Dispatch(row: SnapshotRebuildRequirement, guard: RuntimeGuardState, claimAt: Time, cfg: P.Config,
                  outcome: RebuildOutcome, verdictAt: Time, reportedAt: Time, lateAt: Time,
                  stormLimit: int, runawayLimit: int, ghost s: P.State, ghost before: seq<P.Event>, ghost d: nat)
    returns (ghost log: seq<P.Event>)
    requires Follows(cfg, s, before, row) && P.StepsOf(before, d) == [] && d !in P.Run(cfg, s, before).inflight
    requires P.Run(cfg, s, before).now == claimAt <= verdictAt <= lateAt && IsEligible(row.View(), claimAt)
    modifies row, guard
    ensures Follows(cfg, s, log, row) && d !in P.Run(cfg, s, log).inflight
    ensures before + [P.Claimed(d, row.id)] <= log
    ensures P.StepsOf(log, d) == [P.Claimed(d, row.id)] + VerdictSteps(d, row.id, outcome)
    ensures P.Run(cfg, s, log).now == (if outcome.BookkeepingRaised? then lateAt else verdictAt)
    ensures outcome.RebuildDone? ==>
              && row.orchestrationStatus == Succeeded && !row.requiresRebuild
              && row.completedAt == Some(verdictAt) && row.lastError == None
    ensures outcome.RebuildLockBusy? ==>
              && row.orchestrationStatus == Deferred && row.startedAt == None
              && row.nextEligibleAt == Some(verdictAt + SECOND * cfg.deferSeconds)
              && row.lastAttemptedAt == Some(verdictAt) && row.lastError == Some("inventory rebuild advisory lock busy")
    ensures outcome.RebuildRaised? || outcome.BookkeepingRaised? ==>
              var at := if outcome.RebuildRaised? then verdictAt else lateAt;
              && row.lastError == Some(outcome.error) && row.lastAttemptedAt == Some(at)
              && (outcome.BookkeepingRaised? ==> !row.requiresRebuild)
              && if row.attemptCount >= row.maxAttempts
                 then row.orchestrationStatus == Failed && row.completedAt == Some(at)
                 else && row.orchestrationStatus == Deferred
                      && row.nextEligibleAt == Some(at + SECOND * Min(30 * Pow2(row.attemptCount), 3600))
    ensures guard.View() == match outcome
                            case RebuildDone => Observe(old(guard.View()), Dispatched(reportedAt))
                            case RebuildLockBusy => Observe(old(guard.View()), BusyDeferred)
                            case RebuildRaised(_) => Observe(old(guard.View()), Unsuccessful)
                            case BookkeepingRaised(_) => Observe(old(guard.View()), Dispatched(reportedAt))
  {
    log := ClaimAndRun(row, claimAt, verdictAt, cfg, s, before, d);
    log := CommitVerdict(row, guard, cfg, outcome, verdictAt, reportedAt, lateAt, stormLimit, runawayLimit,
                         s, log, d);
  }

  // The claim transaction, and the time of the rebuild, in which others go on.
  method ClaimAndRun(row: SnapshotRebuildRequirement, claimAt: Time, verdictAt: Time, cfg: P.Config,
                     ghost s: P.State, ghost before: seq<P.Event>, ghost d: nat)
    returns (ghost log: seq<P.Event>)
    requires Follows(cfg, s, before, row) && P.StepsOf(before, d) == [] && d !in P.Run(cfg, s, before).inflight
    requires P.Run(cfg, s, before).now == claimAt <= verdictAt && IsEligible(row.View(), claimAt)
    modifies row
    ensures Follows(cfg, s, log, row) && P.Executes(P.Run(cfg, s, log), d, row.id)
    ensures before + [P.Claimed(d, row.id)] <= log && P.StepsOf(log, d) == [P.Claimed(d, row.id)]
    ensures P.Run(cfg, s, log).now == verdictAt
  {
    ClaimTransaction(row, claimAt, cfg.fullAfter);
    OwnStep(cfg, s, before, P.Claimed(d, row.id), d);
    log := OtherSessions(row, verdictAt, cfg, s, before + [P.Claimed(d, row.id)], d);
  }

  lemma DispatchAccount(log: seq<P.Event>, d: nat, id: nat, outcome: RebuildOutcome)
    requires P.StepsOf(log, d) == [P.Claimed(d, id)] + VerdictSteps(d, id, outcome)
    ensures outcome.RebuildDone? ==> P.Completed(d, id) in log
    ensures outcome.RebuildLockBusy? ==> P.LockBusy(d, id) in log
    ensures var own, busy := P.StepsOf(log, d), outcome.RebuildLockBusy?;
            && P.ClaimsOf(own, id) == 1
            && P.RefundsOf(own, id) == (if busy then 1 else 0) && P.ConsumedOf(own, id) == (if busy then 0 else 1)
  {
    OwnAccount(d, id, outcome);
    StepsAreLogged(log, d);
    assert P.StepsOf(log, d)[1] in log;
  }

  lemma {:induction false} StepsAreLogged(log: seq<P.Event>, d: nat)
    ensures forall e | e in P.StepsOf(log, d) :: e in log
  {
    if log != [] {
      StepsAreLogged(log[..|log| - 1], d);
    }
  }

  lemma PairCounts(a: P.Event, b: P.Event, id: nat)
    ensures P.ClaimsOf([a, b], id) == P.One(P.ClaimsRow(a, id)) + P.One(P.ClaimsRow(b, id))
    ensures P.RefundsOf([a, b], id) == P.One(P.RefundsRow(a, id)) + P.One(P.RefundsRow(b, id))
    ensures P.ConsumedOf([a, b], id) == P.One(P.ConsumesRow(a, id)) + P.One(P.ConsumesRow(b, id))
  {
    P.CountsSnoc([], a, id);
    P.CountsSnoc([a], b, id);
    assert [] + [a] == [a] && [a] + [b] == [a, b];
  }

  lemma OwnAccount(d: nat, id: nat, outcome: RebuildOutcome)
    ensures var own, busy := [P.Claimed(d, id)] + VerdictSteps(d, id, outcome), outcome.RebuildLockBusy?;
            && P.ClaimsOf(own, id) == 1
            && P.RefundsOf(own, id) == (if busy then 1 else 0) && P.ConsumedOf(own, id) == (if busy then 0 else 1)
  {
    var steps := VerdictSteps(d, id, outcome);
    var own, two := [P.Claimed(d, id)] + steps, [P.Claimed(d, id), steps[0]];
    PairCounts(P.Claimed(d, id), steps[0], id);
    if |steps| == 1 {
      assert own == two;
    } else {
      P.CountsSnoc(two, steps[1], id);
      assert own == two + [steps[1]];
    }
  }

  // What follows the rebuild: the verdict on the row as it is by then.
  method CommitVerdict(row: SnapshotRebuildRequirement, guard: RuntimeGuardState, cfg: P.Config,
                       outcome: RebuildOutcome, verdictAt: Time, reportedAt: Time, lateAt: Time,
                       stormLimit: int, runawayLimit: int, ghost s: P.State, ghost log: seq<P.Event>, ghost d: nat)
    returns (ghost longer: seq<P.Event>)
    requires Follows(cfg, s, log, row) && P.Executes(P.Run(cfg, s, log), d, row.id)
    requires P.Run(cfg, s, log).now == verdictAt <= lateAt
    modifies row, guard
    ensures Follows(cfg, s, longer, row) && log <= longer && d !in P.Run(cfg, s, longer).inflight
    ensures P.StepsOf(longer, d) == P.StepsOf(log, d) + VerdictSteps(d, row.id, outcome)
    ensures P.Run(cfg, s, longer).now == if outcome.BookkeepingRaised? then lateAt else verdictAt
    ensures outcome.RebuildDone? ==>
              && row.orchestrationStatus == Succeeded && !row.requiresRebuild
              && row.completedAt == Some(verdictAt) && row.lastError == None
    ensures outcome.RebuildLockBusy? ==>
              && row.orchestrationStatus == Deferred && row.startedAt == None
              && row.nextEligibleAt == Some(verdictAt + SECOND * cfg.deferSeconds)
              && row.lastAttemptedAt == Some(verdictAt) && row.lastError == Some("inventory rebuild advisory lock busy")
    ensures outcome.RebuildRaised? || outcome.BookkeepingRaised? ==>
              var at := if outcome.RebuildRaised? then verdictAt else lateAt;
              && row.lastError == Some(outcome.error) && row.lastAttemptedAt == Some(at)
              && (outcome.BookkeepingRaised? ==> !row.requiresRebuild)
              && if row.attemptCount >= row.maxAttempts
                 then row.orchestrationStatus == Failed && row.completedAt == Some(at)
                 else && row.orchestrationStatus == Deferred
                      && row.nextEligibleAt == Some(at + SECOND * Min(30 * Pow2(row.attemptCount), 3600))
    ensures guard.View() == match outcome
                            case RebuildDone => Observe(old(guard.View()), Dispatched(reportedAt))
                            case RebuildLockBusy => Observe(old(guard.View()), BusyDeferred)
                            case RebuildRaised(_) => Observe(old(guard.View()), Unsuccessful)
                            case BookkeepingRaised(_) => Observe(old(guard.View()), Dispatched(reportedAt))
  {
    if outcome.RebuildLockBusy? {
      var _ := guard.RecordBusyDefer();
      longer := CommitBusy(row, cfg, verdictAt, s, log, d);
    } else if outcome.RebuildRaised? {
      longer := CommitFailure(row, cfg, verdictAt, outcome.error, s, log, d);
    } else {
      longer := CommitSuccess(row, cfg, verdictAt, s, log, d);
      ReportSuccess(guard, reportedAt, stormLimit, runawayLimit);
      if outcome.BookkeepingRaised? {
        longer := CommitLateError(row, cfg, lateAt, outcome.error, s, longer, d);
      } else {
        longer := EndExecution(cfg, row.id, s, longer, d);
      }
    }
  }

  method ReportSuccess(guard: RuntimeGuardState, reportedAt: Time, stormLimit: int, runawayLimit: int)
    modifies guard
    ensures guard.View() == Observe(old(guard.View()), Dispatched(reportedAt))
  {
    guard.RecordDispatchSuccess();
    var _, _ := guard.RecordRebuildCompleted(reportedAt, stormLimit, runawayLimit);
  }

  method CommitBusy(row: SnapshotRebuildRequirement, cfg: P.Config, now: Time,
                    ghost s: P.State, ghost log: seq<P.Event>, ghost d: nat)
    returns (ghost longer: seq<P.Event>)
    requires Follows(cfg, s, log, row) && P.Executes(P.Run(cfg, s, log), d, row.id) && P.Run(cfg, s, log).now == now
    modifies row
    ensures Follows(cfg, s, longer, row) && log <= longer && d !in P.Run(cfg, s, longer).inflight
    ensures P.Run(cfg, s, longer).now == now && P.StepsOf(longer, d) == P.StepsOf(log, d) + [P.LockBusy(d, row.id)]
    ensures row.orchestrationStatus == Deferred && row.startedAt == None
    ensures row.nextEligibleAt == Some(now + SECOND * cfg.deferSeconds) && row.lastAttemptedAt == Some(now)
    ensures row.lastError == Some("inventory rebuild advisory lock busy")
  {
    MarkDeferredLockBusy(row, now, cfg.deferSeconds);
    OwnStep(cfg, s, log, P.LockBusy(d, row.id), d);
    longer := log + [P.LockBusy(d, row.id)];
  }

  method CommitFailure(row: SnapshotRebuildRequirement, cfg: P.Config, now: Time, error: string,
                       ghost s: P.State, ghost log: seq<P.Event>, ghost d: nat)
    returns (ghost longer: seq<P.Event>)
    requires Follows(cfg, s, log, row) && P.Executes(P.Run(cfg, s, log), d, row.id) && P.Run(cfg, s, log).now == now
    modifies row
    ensures Follows(cfg, s, longer, row) && log <= longer && d !in P.Run(cfg, s, longer).inflight
    ensures P.Run(cfg, s, longer).now == now
    ensures P.StepsOf(longer, d) == P.StepsOf(log, d) + [P.Errored(d, row.id, error)]
    ensures row.lastError == Some(error) && row.lastAttemptedAt == Some(now)
    ensures if row.attemptCount >= row.maxAttempts
            then row.orchestrationStatus == Failed && row.completedAt == Some(now)
            else && row.orchestrationStatus == Deferred
                 && row.nextEligibleAt == Some(now + SECOND * Min(30 * Pow2(row.attemptCount), 3600))
  {
    MarkFailed(row, now, error);
    OwnStep(cfg, s, log, P.Errored(d, row.id, error), d);
    longer := log + [P.Errored(d, row.id, error)];
  }

  method CommitSuccess(row: SnapshotRebuildRequirement, cfg: P.Config, now: Time,
                       ghost s: P.State, ghost log: seq<P.Event>, ghost d: nat)
    returns (ghost longer: seq<P.Event>)
    requires Follows(cfg, s, log, row) && P.Executes(P.Run(cfg, s, log), d, row.id) && P.Run(cfg, s, log).now == now
    modifies row
    ensures row.orchestrationStatus == Succeeded && !row.requiresRebuild
    ensures row.completedAt == Some(now) && row.lastError == None
    ensures longer == log + [P.Completed(d, row.id)]
    ensures Follows(cfg, s, longer, row) && P.HasCommitted(P.Run(cfg, s, longer), d, row.id)
    ensures P.Run(cfg, s, longer).now == now && P.StepsOf(longer, d) == P.StepsOf(log, d) + [P.Completed(d, row.id)]
  {
    MarkSucceeded(row, now);
    OwnStep(cfg, s, log, P.Completed(d, row.id), d);
    longer := log + [P.Completed(d, row.id)];
  }

  ghost method EndExecution(cfg: P.Config, id: nat, s: P.State, log: seq<P.Event>, d: nat)
    returns (longer: seq<P.Event>)
    requires P.Valid(cfg, s, log) && P.HasCommitted(P.Run(cfg, s, log), d, id)
    ensures P.Valid(cfg, s, longer) && log <= longer && d !in P.Run(cfg, s, longer).inflight
    ensures P.Run(cfg, s, longer).rows == P.Run(cfg, s, log).rows
    ensures P.Run(cfg, s, longer).now == P.Run(cfg, s, log).now
    ensures P.StepsOf(longer, d) == P.StepsOf(log, d) + [P.Finished(d, id)]
  {
    OwnStep(cfg, s, log, P.Finished(d, id), d);
    longer := log + [P.Finished(d, id)];
  }

  // A row that is done stays done, whatever follows.
  lemma DoneThrough(cfg: P.Config, s: P.State, log: seq<P.Event>, longer: seq<P.Event>, id: nat)
    requires P.Valid(cfg, s, log) && P.Valid(cfg, s, longer) && log <= longer
    requires id in P.Run(cfg, s, log).rows && !P.Run(cfg, s, log).rows[id].requiresRebuild
    ensures id in P.Run(cfg, s, longer).rows && !P.Run(cfg, s, longer).rows[id].requiresRebuild
  {
    assert longer == log + longer[|log|..];
    P.RunConcat(cfg, s, log, longer[|log|..]);
    P.RowsPersist(cfg, P.Run(cfg, s, log), longer[|log|..], id);
  }

  method CommitLateError(row: SnapshotRebuildRequirement, cfg: P.Config, now: Time, error: string,
                         ghost s: P.State, ghost log: seq<P.Event>, ghost d: nat)
    returns (ghost longer: seq<P.Event>)
    requires Follows(cfg, s, log, row) && P.HasCommitted(P.Run(cfg, s, log), d, row.id)
    requires P.Run(cfg, s, log).now <= now && !row.requiresRebuild
    modifies row
    ensures Follows(cfg, s, longer, row) && log <= longer && d !in P.Run(cfg, s, longer).inflight
    ensures P.Run(cfg, s, longer).now == now
    ensures P.StepsOf(longer, d) == P.StepsOf(log, d) + [P.LateError(d, row.id, error)]
    ensures row.lastError == Some(error) && row.lastAttemptedAt == Some(now) && !row.requiresRebuild
    ensures if row.attemptCount >= row.maxAttempts
            then row.orchestrationStatus == Failed && row.completedAt == Some(now)
            else && row.orchestrationStatus == Deferred
                 && row.nextEligibleAt == Some(now + SECOND * Min(30 * Pow2(row.attemptCount), 3600))
  {
    longer := OtherSessions(row, now, cfg, s, log, d);
    DoneThrough(cfg, s, log, longer, row.id);
    MarkFailed(row, now, error);
    OwnStep(cfg, s, longer, P.LateError(d, row.id, error), d);
    longer := longer + [P.LateError(d, row.id, error)];
  }

  // Queued, running and the escalation to a full rebuild commit together: the row goes from an
  // eligible status straight to RUNNING.
  method ClaimTransaction(row: SnapshotRebuildRequirement, now: Time, fullAfter: int)
    requires IsEligible(row.View(), now)
    modifies row
    ensures row.View() == Claim(old(row.View()), now, fullAfter)
    ensures row.orchestrationStatus == Running && row.attemptCount == old(row.attemptCount) + 1
    ensures row.startedAt == row.lastAttemptedAt == Some(now)
    ensures row.rebuildMode == Full <==> old(row.rebuildMode) == Full || old(row.attemptCount) + 1 >= fullAfter
  {
    MarkQueued(row);
    MarkRunning(row, now);
    if row.rebuildMode == Incremental && row.attemptCount >= fullAfter {
      row.rebuildMode := Full;
    }
  }
}
