// The rebuild-requirement protocol: any number of dispatchers, the maintenance pass and the healer
// interleave over the table, one committed transaction at a time. A dispatcher may die between
// any two transactions. A run is the log of events that happened.
module RebuildProtocol {
  import opened Common
  import opened RebuildRows

  datatype Config = Config(staleSeconds: int, deferSeconds: int, fullAfter: int)

  // A dispatcher between its claim and the end of its execution. `committed` means that its
  // success has been committed and only the in-process bookkeeping is left.
  datatype Flight = Flight(row: nat, at: Time, committed: bool)

  datatype State = State(now: Time, rows: map<nat, Row>, inflight: map<nat, Flight>)

  datatype Event =
    | Ticked(to: Time)
    | Requested(row: Row)
    | Claimed(dispatcher: nat, id: nat)
    | Completed(dispatcher: nat, id: nat)
    | LockBusy(dispatcher: nat, id: nat)
    | Errored(dispatcher: nat, id: nat, error: string)
    | Crashed(dispatcher: nat, id: nat)
    | Finished(dispatcher: nat, id: nat)
    // An exception in the bookkeeping after the commit is caught by the same handler.
    | LateError(dispatcher: nat, id: nat, error: string)
    // The cutoff is computed before the transaction, so from an earlier clock reading.
    | StaleReset(tenant: nat, sampledAt: Time)
    | BackoffFilled(tenant: nat)
    // The healer defers a few waiting rows of an overloaded tenant.
    | Throttled(tenant: nat, ids: set<nat>)

  predicate Executes(s: State, d: nat, id: nat) {
    d in s.inflight && s.inflight[d].row == id && !s.inflight[d].committed && id in s.rows
  }

  predicate HasCommitted(s: State, d: nat, id: nat) {
    d in s.inflight && s.inflight[d].row == id && s.inflight[d].committed && id in s.rows
  }

  predicate Enabled(s: State, e: Event) {
    match e
    case Ticked(to) => s.now <= to
    case Requested(r) => IsFresh(r) && r.id !in s.rows
    case Claimed(d, id) => d !in s.inflight && id in s.rows && IsEligible(s.rows[id], s.now)
    case Completed(d, id) => Executes(s, d, id)
    case LockBusy(d, id) => Executes(s, d, id)
    case Errored(d, id, _) => Executes(s, d, id)
    case Crashed(d, id) => Executes(s, d, id)
    case Finished(d, id) => HasCommitted(s, d, id)
    case LateError(d, id, _) => HasCommitted(s, d, id)
    case StaleReset(_, sampledAt) => sampledAt <= s.now
    case BackoffFilled(_) => true
    case Throttled(tenant, ids) =>
      && |ids| <= 2
      && forall id | id in ids :: id in s.rows && s.rows[id].tenant == tenant
                                  && s.rows[id].requiresRebuild && s.rows[id].status in {Pending, Queued}
  }

  function Without(inflight: map<nat, Flight>, d: nat): map<nat, Flight> {
    map x | x in inflight && x != d :: inflight[x]
  }

  function Next(cfg: Config, s: State, e: Event): State
    requires Enabled(s, e)
  {
    match e
    case Ticked(to) => s.(now := to)
    case Requested(r) => s.(rows := s.rows[r.id := r])
    case Claimed(d, id) =>
      s.(rows := s.rows[id := Claim(s.rows[id], s.now, cfg.fullAfter)],
         inflight := s.inflight[d := Flight(id, s.now, false)])
    case Completed(d, id) =>
      s.(rows := s.rows[id := Succeed(s.rows[id], s.now)],
         inflight := s.inflight[d := s.inflight[d].(committed := true)])
    case LockBusy(d, id) =>
      s.(rows := s.rows[id := DeferBusy(s.rows[id], s.now, cfg.deferSeconds)],
         inflight := Without(s.inflight, d))
    case Errored(d, id, error) =>
      s.(rows := s.rows[id := Fail(s.rows[id], s.now, error)], inflight := Without(s.inflight, d))
    case Crashed(d, _) => s.(inflight := Without(s.inflight, d))
    case Finished(d, _) => s.(inflight := Without(s.inflight, d))
    case LateError(d, id, error) =>
      s.(rows := s.rows[id := Fail(s.rows[id], s.now, error)], inflight := Without(s.inflight, d))
    case StaleReset(tenant, sampledAt) =>
      s.(rows := map id | id in s.rows ::
           if s.rows[id].tenant == tenant
           then ResetIfStale(s.rows[id], sampledAt - SECOND * cfg.staleSeconds, s.now)
           else s.rows[id])
    case BackoffFilled(tenant) =>
      s.(rows := map id | id in s.rows ::
           if s.rows[id].tenant == tenant then FillBackoff(s.rows[id], s.now) else s.rows[id])
    case Throttled(_, ids) =>
      s.(rows := map id | id in s.rows ::
           if id in ids then DeferBusy(s.rows[id], s.now, 2 * cfg.deferSeconds) else s.rows[id])
  }

  // ---------------------------------------------------------------- runs

  predicate Valid(cfg: Config, s0: State, es: seq<Event>)
    decreases |es|, 0
  {
    es == [] ||
    var n := |es| - 1;
    Valid(cfg, s0, es[..n]) && Enabled(Run(cfg, s0, es[..n]), es[n])
  }

  function Run(cfg: Config, s0: State, es: seq<Event>): State
    requires Valid(cfg, s0, es)
    decreases |es|, 1
  {
    if es == [] then s0
    else
      var n := |es| - 1;
      Next(cfg, Run(cfg, s0, es[..n]), es[n])
  }

  lemma Extend(cfg: Config, s0: State, es: seq<Event>, e: Event)
    requires Valid(cfg, s0, es) && Enabled(Run(cfg, s0, es), e)
    ensures Valid(cfg, s0, es + [e])
    ensures Run(cfg, s0, es + [e]) == Next(cfg, Run(cfg, s0, es), e)
  {
    assert (es + [e])[..|es|] == es;
  }

  // ---------------------------------------------------------------- the log's own counts

  predicate ClaimsRow(e: Event, id: nat) {
    e.Claimed? && e.id == id
  }

  predicate RefundsRow(e: Event, id: nat) {
    e.LockBusy? && e.id == id
  }

  // Executions that used up an attempt: a success, a failure, or a crash before any verdict.
  predicate Consumes(e: Event) {
    e.Completed? || e.Errored? || e.Crashed?
  }

  predicate ConsumesRow(e: Event, id: nat) {
    Consumes(e) && e.id == id
  }

  function One(b: bool): nat {
    if b then 1 else 0
  }

  function ClaimsOf(es: seq<Event>, id: nat): nat {
    if es == [] then 0 else ClaimsOf(es[..|es| - 1], id) + One(ClaimsRow(es[|es| - 1], id))
  }

  function RefundsOf(es: seq<Event>, id: nat): nat {
    if es == [] then 0 else RefundsOf(es[..|es| - 1], id) + One(RefundsRow(es[|es| - 1], id))
  }

  function ConsumedOf(es: seq<Event>, id: nat): nat {
    if es == [] then 0 else ConsumedOf(es[..|es| - 1], id) + One(ConsumesRow(es[|es| - 1], id))
  }

  lemma CountsSnoc(es: seq<Event>, e: Event, id: nat)
    ensures ClaimsOf(es + [e], id) == ClaimsOf(es, id) + One(ClaimsRow(e, id))
    ensures RefundsOf(es + [e], id) == RefundsOf(es, id) + One(RefundsRow(e, id))
    ensures ConsumedOf(es + [e], id) == ConsumedOf(es, id) + One(ConsumesRow(e, id))
  {
    assert (es + [e])[..|es|] == es;
  }

  function Executing(s: State, id: nat): set<nat> {
    set d | d in s.inflight && s.inflight[d].row == id && !s.inflight[d].committed
  }

  // ---------------------------------------------------------------- the invariant

  // What a stored row looks like at every transaction boundary.
  predicate Shape(r: Row) {
    && r.attempts <= r.maxAttempts
    && r.status != Queued
    && (r.status == Pending ==> r.attempts == 0)
    && (r.status == Failed ==> r.attempts == r.maxAttempts)
    && (r.status == Deferred ==> r.nextEligibleAt.Some?)
    && (r.status == Running ==> r.startedAt.Some? && r.requiresRebuild)
    && (r.status == Succeeded ==> !r.requiresRebuild)
  }

  // A quiet table of well-shaped rows; a table of default rows, or none, is one.
  ghost predicate Init(s: State) {
    s.inflight == map[] && RowsOk(s)
  }

  ghost predicate RowsOk(s: State) {
    forall id | id in s.rows :: RowOk(s, id)
  }

  ghost predicate FlightsOk(s: State) {
    forall d | d in s.inflight ::
      && s.inflight[d].row in s.rows
      && s.inflight[d].at <= s.now
      && (s.inflight[d].committed ==> !s.rows[s.inflight[d].row].requiresRebuild)
  }

  ghost predicate BudgetOk(s: State) {
    forall id | id in s.rows :: |Executing(s, id)| <= s.rows[id].attempts
  }

  ghost predicate Inv(s: State) {
    RowsOk(s) && FlightsOk(s) && BudgetOk(s)
  }

  // An event adds its dispatcher to the executions, takes it away, or leaves them alone.
  ghost predicate Moves(before: set<nat>, after: set<nat>, d: nat, adds: bool, takes: bool) {
    && (adds ==> d !in before && after == before + {d})
    && (takes ==> d in before && after == before - {d})
    && (!adds && !takes ==> after == before)
  }

  function DispatcherOf(e: Event): nat {
    if e.Claimed? || e.LockBusy? || Consumes(e) then e.dispatcher else 0
  }

  lemma SizeMoves(before: set<nat>, after: set<nat>, d: nat, adds: bool, takes: bool)
    requires Moves(before, after, d, adds, takes) && !(adds && takes)
    ensures |after| == |before| + One(adds) - One(takes)
  {
  }

  lemma ExecutingMoves(cfg: Config, s: State, e: Event, id: nat)
    requires Enabled(s, e)
    ensures Moves(Executing(s, id), Executing(Next(cfg, s, e), id), DispatcherOf(e),
                  ClaimsRow(e, id), RefundsRow(e, id) || ConsumesRow(e, id))
  {
  }

  // How each event moves the number of executions in flight on a row.
  lemma ExecutingStep(cfg: Config, s: State, e: Event, id: nat)
    requires Enabled(s, e)
    ensures |Executing(Next(cfg, s, e), id)|
            == |Executing(s, id)| + One(ClaimsRow(e, id)) - One(RefundsRow(e, id)) - One(ConsumesRow(e, id))
  {
    ExecutingMoves(cfg, s, e, id);
    SizeMoves(Executing(s, id), Executing(Next(cfg, s, e), id), DispatcherOf(e),
              ClaimsRow(e, id), RefundsRow(e, id) || ConsumesRow(e, id));
  }

  // How each event moves the attempt count of a row.
  lemma AttemptsStep(cfg: Config, s: State, e: Event, id: nat)
    requires Enabled(s, e) && Inv(s) && id in s.rows
    ensures id in Next(cfg, s, e).rows
    ensures Next(cfg, s, e).rows[id].attempts
            == s.rows[id].attempts + One(ClaimsRow(e, id)) - One(RefundsRow(e, id))
  {
    if RefundsRow(e, id) {
      assert e.dispatcher in Executing(s, id);
    }
    assert RowOk(s, id);
  }

  ghost predicate RowOk(s: State, id: nat)
    requires id in s.rows
  {
    var r := s.rows[id];
    r.id == id && Shape(r) && (r.startedAt.Some? ==> r.startedAt.value <= s.now)
  }

  // One event's effect on one row: first the events of a dispatcher, then all others.
  lemma RowStepOfDispatcher(cfg: Config, s: State, e: Event)
    requires Inv(s) && Enabled(s, e)
    requires (e.Claimed? || e.Completed? || e.LockBusy? || e.Errored? || e.LateError?) && e.id in s.rows
    ensures RowOk(Next(cfg, s, e), e.id)
  {
    assert RowOk(s, e.id);
    if e.LockBusy? {
      assert e.dispatcher in Executing(s, e.id);
    }
  }

  lemma RowStepOfMaintenance(cfg: Config, s: State, e: Event, id: nat)
    requires Inv(s) && Enabled(s, e) && id in s.rows
    requires e.StaleReset? || e.BackoffFilled? || e.Throttled?
    ensures id in Next(cfg, s, e).rows && RowOk(Next(cfg, s, e), id)
  {
    assert RowOk(s, id);
  }

  lemma RowStep(cfg: Config, s: State, e: Event, id: nat)
    requires Inv(s) && Enabled(s, e) && id in Next(cfg, s, e).rows
    ensures RowOk(Next(cfg, s, e), id)
  {
    if id in s.rows {
      assert RowOk(s, id);
    }
    match e
    case Claimed(_, x) => if x == id { RowStepOfDispatcher(cfg, s, e); }
    case Completed(_, x) => if x == id { RowStepOfDispatcher(cfg, s, e); }
    case LockBusy(_, x) => if x == id { RowStepOfDispatcher(cfg, s, e); }
    case Errored(_, x, _) => if x == id { RowStepOfDispatcher(cfg, s, e); }
    case LateError(_, x, _) => if x == id { RowStepOfDispatcher(cfg, s, e); }
    case StaleReset(_, _) => RowStepOfMaintenance(cfg, s, e, id);
    case BackoffFilled(_) => RowStepOfMaintenance(cfg, s, e, id);
    case Throttled(_, _) => RowStepOfMaintenance(cfg, s, e, id);
    case _ =>
  }

  lemma FlightsStep(cfg: Config, s: State, e: Event)
    requires Inv(s) && Enabled(s, e)
    ensures FlightsOk(Next(cfg, s, e))
  {
    var t := Next(cfg, s, e);
    forall id | id in s.rows
      ensures id in t.rows && (t.rows[id].requiresRebuild ==> s.rows[id].requiresRebuild)
    {
    }
  }

  lemma InvStep(cfg: Config, s: State, e: Event)
    requires Inv(s) && Enabled(s, e)
    ensures Inv(Next(cfg, s, e))
  {
    var t := Next(cfg, s, e);
    forall id | id in t.rows ensures RowOk(t, id) {
      RowStep(cfg, s, e, id);
    }
    FlightsStep(cfg, s, e);
    forall id | id in t.rows ensures |Executing(t, id)| <= t.rows[id].attempts {
      ExecutingStep(cfg, s, e, id);
      if id in s.rows {
        AttemptsStep(cfg, s, e, id);
      } else {
        assert Executing(s, id) == {};
      }
    }
  }

  // What follows a prefix of a run is a run of its own.
  lemma {:induction false} RunConcat(cfg: Config, s0: State, a: seq<Event>, b: seq<Event>)
    requires Valid(cfg, s0, a + b)
    ensures Valid(cfg, s0, a) && Valid(cfg, Run(cfg, s0, a), b)
    ensures Run(cfg, Run(cfg, s0, a), b) == Run(cfg, s0, a + b)
  {
    if b == [] {
      assert a + b == a;
    } else {
      var n := |b| - 1;
      assert (a + b)[..|a + b| - 1] == a + b[..n];
      RunConcat(cfg, s0, a, b[..n]);
    }
  }

  // Conversely two runs, one starting where the other ends, make one run.
  lemma {:induction false} RunJoin(cfg: Config, s0: State, a: seq<Event>, b: seq<Event>)
    requires Valid(cfg, s0, a) && Valid(cfg, Run(cfg, s0, a), b)
    ensures Valid(cfg, s0, a + b) && Run(cfg, s0, a + b) == Run(cfg, Run(cfg, s0, a), b)
  {
    if b == [] {
      assert a + b == a;
    } else {
      var n := |b| - 1;
      assert (a + b)[..|a + b| - 1] == a + b[..n];
      RunJoin(cfg, s0, a, b[..n]);
    }
  }

  // Every reachable state satisfies the invariant, whatever the interleaving.
  lemma {:induction false} InvariantHolds(cfg: Config, s0: State, es: seq<Event>)
    requires Init(s0) && Valid(cfg, s0, es)
    ensures Inv(Run(cfg, s0, es))
  {
    if es != [] {
      var n := |es| - 1;
      InvariantHolds(cfg, s0, es[..n]);
      InvStep(cfg, Run(cfg, s0, es[..n]), es[n]);
    } else {
      assert forall id :: Executing(s0, id) == {};
    }
  }

  lemma RowPersistsStep(cfg: Config, s: State, e: Event, id: nat)
    requires Enabled(s, e) && id in s.rows
    ensures id in Next(cfg, s, e).rows && Persists(s.rows[id], Next(cfg, s, e).rows[id])
  {
  }

  // Rows keep their identity, their limit and their tenant, are never dropped, and their mode
  // only ever moves to FULL.
  predicate Persists(before: Row, after: Row) {
    && after.maxAttempts == before.maxAttempts && after.tenant == before.tenant
    && after.priority == before.priority && after.createdAt == before.createdAt
    && (after.mode == before.mode || after.mode == Full)
    && (after.requiresRebuild ==> before.requiresRebuild)
  }

  lemma {:induction false} RowsPersist(cfg: Config, s0: State, es: seq<Event>, id: nat)
    requires Valid(cfg, s0, es) && id in s0.rows
    ensures id in Run(cfg, s0, es).rows && Persists(s0.rows[id], Run(cfg, s0, es).rows[id])
  {
    if es != [] {
      var n := |es| - 1;
      RowsPersist(cfg, s0, es[..n], id);
      RowPersistsStep(cfg, Run(cfg, s0, es[..n]), es[n], id);
    }
  }

  // Which claim escalates: in every run the mode is FULL exactly if it was at the start, or some
  // claim of the row was at least its fullAfter-th counted attempt.
  lemma {:induction false} FullFromAttempt(cfg: Config, s0: State, es: seq<Event>, id: nat)
    requires Valid(cfg, s0, es) && id in s0.rows
    ensures id in Run(cfg, s0, es).rows
    ensures Run(cfg, s0, es).rows[id].mode == Full <==> s0.rows[id].mode == Full || Escalates(cfg, s0, es, id)
  {
    if es != [] {
      var n := |es| - 1;
      FullFromAttempt(cfg, s0, es[..n], id);
      ModeStep(cfg, Run(cfg, s0, es[..n]), es[n], id);
    }
  }

  ghost predicate Escalates(cfg: Config, s0: State, es: seq<Event>, id: nat)
    requires Valid(cfg, s0, es)
  {
    es != [] &&
    var n := |es| - 1;
    || Escalates(cfg, s0, es[..n], id)
    || (ClaimsRow(es[n], id) && Run(cfg, s0, es[..n]).rows[id].attempts + 1 >= cfg.fullAfter)
  }

  lemma ModeStep(cfg: Config, s: State, e: Event, id: nat)
    requires Enabled(s, e) && id in s.rows
    ensures id in Next(cfg, s, e).rows
    ensures Next(cfg, s, e).rows[id].mode == Full
            <==> s.rows[id].mode == Full || (ClaimsRow(e, id) && s.rows[id].attempts + 1 >= cfg.fullAfter)
  {
  }

  // ---------------------------------------------------------------- one dispatcher's view of a run

  predicate IsBy(e: Event, d: nat) {
    !(e.Ticked? || e.Requested? || e.StaleReset? || e.BackoffFilled? || e.Throttled?) && e.dispatcher == d
  }

  function StepsOf(es: seq<Event>, d: nat): seq<Event> {
    if es == [] then []
    else StepsOf(es[..|es| - 1], d) + (if IsBy(es[|es| - 1], d) then [es[|es| - 1]] else [])
  }

  lemma {:induction false} StepsConcat(a: seq<Event>, b: seq<Event>, d: nat)
    ensures StepsOf(a + b, d) == StepsOf(a, d) + StepsOf(b, d)
  {
    if b == [] {
      assert a + b == a;
    } else {
      assert (a + b)[..|a + b| - 1] == a + b[..|b| - 1];
      StepsConcat(a, b[..|b| - 1], d);
    }
  }

  // What a dispatcher holds, it keeps holding until a step of its own.
  lemma {:induction false} OthersKeepFlight(cfg: Config, s: State, es: seq<Event>, d: nat)
    requires Valid(cfg, s, es) && StepsOf(es, d) == []
    ensures d in Run(cfg, s, es).inflight <==> d in s.inflight
    ensures d in s.inflight ==> Run(cfg, s, es).inflight[d] == s.inflight[d]
  {
    if es != [] {
      var n := |es| - 1;
      assert !IsBy(es[n], d);
      OthersKeepFlight(cfg, s, es[..n], d);
    }
  }
}
