// The rebuild requirement row as a value, and each orchestration transition as a
// function of the row (app/operations/rebuild_orchestration.py and recovery.py).
module RebuildRows {
  import opened Common

  // Instants and durations are counted in microseconds, the resolution of `datetime`.
  type Time = int

  const SECOND: int := 1_000_000
  const BASE_DELAY_SECONDS: int := 30
  const MAX_DELAY_SECONDS: int := 3600

  datatype Status = Pending | Queued | Running | Succeeded | Failed | Deferred

  datatype Mode = Incremental | Full

  datatype Row = Row(
    id: nat,
    tenant: nat,
    priority: int,
    createdAt: Time,
    requiresRebuild: bool,
    status: Status,
    mode: Mode,
    attempts: nat,
    maxAttempts: int,
    lastError: Option<string>,
    lastAttemptedAt: Option<Time>,
    nextEligibleAt: Option<Time>,
    startedAt: Option<Time>,
    completedAt: Option<Time>)

  // The row that `request_rebuild` inserts; the column defaults supply the rest.
  predicate IsFresh(r: Row) {
    && r.requiresRebuild
    && r.status == Pending
    && r.mode == Incremental
    && r.attempts == 0
    && r.maxAttempts >= 0
    && r.nextEligibleAt == None
    && r.startedAt == None
  }

  function DelaySeconds(attempts: nat, base: int): int {
    Min(base * Pow2(attempts), MAX_DELAY_SECONDS)
  }

  function NextEligibleAt(attempts: nat, now: Time): Time {
    now + SECOND * DelaySeconds(attempts, BASE_DELAY_SECONDS)
  }

  predicate IsExhausted(r: Row) {
    r.attempts >= r.maxAttempts
  }

  // The statuses the dispatcher's query selects.
  predicate IsOpen(r: Row) {
    r.requiresRebuild && r.status in {Pending, Queued, Deferred, Failed}
  }

  predicate IsEligible(r: Row, now: Time) {
    if !r.requiresRebuild then false
    else if r.status in {Running, Succeeded} then false
    else if r.attempts >= r.maxAttempts then false
    else if r.nextEligibleAt.Some? && r.nextEligibleAt.value > now then false
    else r.status in {Pending, Queued, Failed, Deferred}
  }

  function Enqueue(r: Row): Row {
    r.(status := Queued)
  }

  function Start(r: Row, now: Time): Row {
    r.(status := Running, startedAt := Some(now), lastAttemptedAt := Some(now), attempts := r.attempts + 1)
  }

  // `should_escalate_to_full`, evaluated after the attempt was counted.
  function Escalate(r: Row, fullAfter: int): Row {
    if r.mode == Incremental && r.attempts >= fullAfter then r.(mode := Full) else r
  }

  // The claim transaction: queued, running and possibly escalated, committed together.
  function Claim(r: Row, now: Time, fullAfter: int): Row {
    Escalate(Start(Enqueue(r), now), fullAfter)
  }

  function Succeed(r: Row, now: Time): Row {
    r.(status := Succeeded, requiresRebuild := false, completedAt := Some(now), lastError := None)
  }

  function Fail(r: Row, now: Time, error: string): Row {
    var marked := r.(lastError := Some(error), lastAttemptedAt := Some(now));
    if r.attempts >= r.maxAttempts then
      marked.(status := Failed, completedAt := Some(now))
    else
      marked.(status := Deferred, nextEligibleAt := Some(NextEligibleAt(r.attempts, now)))
  }

  const BUSY_ERROR := "inventory rebuild advisory lock busy"

  function DeferBusy(r: Row, now: Time, deferSeconds: int): Row {
    r.(attempts := if r.attempts > 0 then r.attempts - 1 else r.attempts,
       status := Deferred,
       nextEligibleAt := Some(now + SECOND * deferSeconds),
       lastError := Some(BUSY_ERROR),
       lastAttemptedAt := Some(now),
       startedAt := None)
  }

  predicate IsStale(r: Row, cutoff: Time) {
    r.status == Running && r.startedAt.Some? && r.startedAt.value < cutoff
  }

  const STALE_ERROR := "stale RUNNING reset by recovery"

  function ResetIfStale(r: Row, cutoff: Time, now: Time): Row {
    if IsStale(r, cutoff) then
      r.(status := Deferred, lastError := Some(STALE_ERROR),
         nextEligibleAt := Some(NextEligibleAt(r.attempts, now)))
    else r
  }

  predicate LacksBackoff(r: Row) {
    && r.requiresRebuild
    && r.status in {Deferred, Failed, Pending}
    && r.attempts < r.maxAttempts
    && r.nextEligibleAt.None?
  }

  function FillBackoff(r: Row, now: Time): Row {
    if LacksBackoff(r) then
      var scheduled := r.(nextEligibleAt := Some(NextEligibleAt(r.attempts, now)));
      if r.status == Failed then scheduled.(status := Deferred) else scheduled
    else r
  }

  // Terminal failures reported by the poison check of the retry supervisor.
  predicate IsPoison(r: Row) {
    r.status == Failed && r.attempts >= r.maxAttempts
  }

  // A busy verdict on the row as claimed gives back exactly the attempt the claim took,
  // and leaves the row dispatchable again once the deferral is over.
  lemma BusyRefundsClaim(r: Row, claimedAt: Time, verdictAt: Time, fullAfter: int, deferSeconds: int, later: Time)
    requires IsEligible(r, claimedAt)
    ensures var after := DeferBusy(Claim(r, claimedAt, fullAfter), verdictAt, deferSeconds);
            && after.attempts == r.attempts
            && after.startedAt == None
            && (IsEligible(after, later) <==> verdictAt + SECOND * deferSeconds <= later)
  {
  }

  // Eligibility in one sentence: work to do, a status the query selects, attempts left, and no wait
  // that is still running.
  lemma EligibleExactly(r: Row, now: Time)
    ensures IsOpen(r) <==> r.requiresRebuild && r.status in {Pending, Queued, Deferred, Failed}
    ensures IsEligible(r, now) <==>
              && IsOpen(r) && r.attempts < r.maxAttempts
              && (r.nextEligibleAt.Some? ==> r.nextEligibleAt.value <= now)
  {
  }

  // A row without a backoff that is given one is eligible exactly from the end of that delay on.
  lemma BackoffDelaysExactly(r: Row, now: Time, later: Time)
    requires r.requiresRebuild && r.status in {Deferred, Failed, Pending} && r.attempts < r.maxAttempts
    requires r.nextEligibleAt == None
    ensures FillBackoff(r, now).nextEligibleAt == Some(now + SECOND * Min(30 * Pow2(r.attempts), 3600))
    ensures IsEligible(FillBackoff(r, now), later) <==> now + SECOND * Min(30 * Pow2(r.attempts), 3600) <= later
    ensures FillBackoff(r, now).status == if r.status == Failed then Deferred else r.status
  {
  }
}
