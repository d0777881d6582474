# Verified model of the rebuild orchestration, caches, limiters and ETL commit protocol

The project models, in Dafny 4.11, the parts of the platform whose correctness depends on
interleaving, clocks or pruning, and proves what they guarantee over every run.
`dafny verify dfyconfig.toml` checks everything.

| file | models |
|---|---|
| `RebuildRows.dfy`, `Backoff.dfy` | the rebuild requirement row, its transitions, the retry delay |
| `Orchestration.dfy` | the row as an object, the `mark_*` methods, one dispatcher execution |
| `RebuildProtocol.dfy`, `RebuildTheorems.dfy` | dispatchers, maintenance, healer and crashes interleaved; the theorems about all runs |
| `FairBatch.dfy`, `Selection.dfy`, `Starvation.dfy` | the fair batch, the dispatcher's choice, and which rows that choice can still reach over whole runs |
| `Maintenance.dfy` | the stale-reset and backoff loops over stored rows, and the whole maintenance pass |
| `RuntimeGuards.dfy`, `TtlCache.dfy`, `RateLimit.dfy` | windows and caches against complete logs |
| `DashboardCache.dfy` | the single-flight memo as interleaved steps |
| `WorkerProtocol.dfy`, `Worker.dfy` | claims, chunk commits, verdicts, retries and recovery of ETL jobs; the insight slot; the persist transaction with its rollback |
| `WorkerRefinement.dfy` | the worker's transactions as events of its protocol |
| `Common.dfy` | options, powers of two, sums over finite sets |

## How to read the models

- A run is a log of events. `Valid(s0, log)` says that each event was enabled, `Run(s0, log)` is the
  state it leads to, and the theorems quantify over all logs.
- Each database transaction is one atomic event that reads committed state and takes one clock
  reading. The exception is the cutoff of the stale reset, which the code computes before its
  transaction: the model lets it come from any earlier reading. Steps between transactions are where
  other events, including a dispatcher's crash, may happen.
- Instants of wall-clock datetimes are integers in microseconds; monotonic readings are reals.
- The rebuild itself, the advisory lock, the containment check and parsing are nondeterministic
  outcomes. The prioritizer is any reordering of the candidates. Tie order in the query is arbitrary.
- A claim of the protocol needs an eligible row only, not a selection, so theorems about all runs cover
  more than the dispatcher does. Where runs are claimed to exist, in `Starvation`, every claim in them is
  one that the selector must make at that moment.
- Rows start in any well-shaped table with nothing in flight; a table of default rows is one.
- The healer (`app/runtime/autonomy/healer.py`) also defers waiting rows, for twice the busy delay,
  so it is part of the protocol; the bounded wait is stated with and without it.
- After a success has been committed, the dispatcher's bookkeeping runs inside the same `try`, so an
  exception there marks the row failed. The protocol has that event too, and the worker's protocol
  has the corresponding one.
- The modelled code is proved to refine the protocols, so that the theorems about runs are theorems
  about it: `Orchestration.ExecuteRequirement` and the maintenance loops (`Maintenance.PassRefines`)
  refine `RebuildProtocol`, the worker's transactions `WorkerProtocol` (`WorkerRefinement`).
- Every insight payload is built from the job's own report id (`app/dto/analytics_dto.py:69`).

## Results where the code does less than its comments say

- The prioritizer's docstring promises a boost for starved tenants. `select_fair_batch` sorts again
  by the unadjusted keys, so the order given to it matters only if several candidates share the
  least key (`Selection.PrioritizerHasNoEffect`).
- The query's LIMIT is applied before eligibility. With distinct keys the least-keyed eligible row is
  dispatched if and only if fewer than `batchSize` open rows stand before it
  (`Selection.HeadOfLineBlocking`), and exhausted rows stay in the query for good. So a row with work
  and budget can still be dispatched if and only if fewer than `batchSize` of the rows before it block
  it for good (`Starvation.DispatchableExactly`); if every rebuild of the first `batchSize` default
  rows fails, the next row starves (`Starvation.StarvationReachable`).
- Exhausted rows need not be FAILED: a crash on the last attempt ends in DEFERRED and is not
  reported (`RebuildTheorems.CrashOnLastAttemptIsSilent`, `ResetRevivesExactly`).
- A stale reset may let a second dispatcher in. A run is exclusive if and only if no reset hits a row
  that is being executed (`RebuildTheorems.ExclusiveRunsExactly`); a deadline on executions ensures it.
- SUCCEEDED is absorbing as "never claimed again", not as a status. It is final if and only if no
  dispatcher holds the row any more (`RebuildTheorems.SucceededIsFinalExactly`).
- A job's claim commits one verdict unless an exception follows its commit inside the same `try`;
  then an acked job is failed as well (`WorkerProtocol.AtMostOneVerdict`, `AckThenFail`). A COMPLETED
  job stays so if and only if no claim of it is still open (`WorkerProtocol.CompletedIsFinalExactly`).
- The rate limiter reads its clocks before it takes the lock. Calls that take the lock out of order
  can exceed the limit; the counts are right if and only if no call that counts was dropped
  (`RateLimit.CountsExactly`), and readings out of order by at most a skew cost the windows exactly
  that much of their length (`RateLimit.BoundedBySkew`, `SkewBoundIsTight`).
- The guard's deque is pruned from the front only, so a clock that steps back can make it count too
  much or too little; `RuntimeGuards.AlwaysLastHourExactly` says exactly on which logs it is right.
- The TTL cache makes room even when it rewrites a stored key, so a key survives only fewer than
  `max_entries - 1` other keys, at every capacity (`TtlCaches.RetentionIsTight`).

## Model

| member | source | states |
|---|---|---|
| RebuildRows.BusyRefundsClaim | app/operations/rebuild_orchestration.py:156-169 | a busy verdict gives back exactly the attempt its claim took, clears the start time, and the row is eligible again exactly from the end of the deferral on |
| RebuildRows.EligibleExactly | app/operations/rebuild_orchestration.py:69-91 | a row is eligible exactly if it is open to the query, has attempts left, and is not waiting any more |
| RebuildRows.BackoffDelaysExactly | app/operations/recovery.py:256-262 | a row given a backoff is eligible exactly from min(30·2^attempts, 3600) seconds later on |
| Backoff.DelayMonotone | app/operations/rebuild_orchestration.py:55-57 | for every non-negative base the delay never shrinks with the attempt count |
| Backoff.DelayShape | app/operations/rebuild_orchestration.py:55-57 | at the default base the delay lies in [30, 3600], doubles through attempt 6 and is 3600 exactly from attempt 7 on |
| Backoff.FailureDelays | app/operations/rebuild_orchestration.py:133-154 | k consecutive non-terminal failures leave the row DEFERRED with k attempts, and their delays sum to 30·(2^(min(k,6)+1)−2) plus 3600 for each failure past the sixth |
| Orchestration.MarkQueued | app/operations/rebuild_orchestration.py:130-131 | the field updates are the Enqueue transition |
| Orchestration.MarkRunning | app/operations/rebuild_orchestration.py:133-138 | the field updates are the Start transition |
| Orchestration.MarkSucceeded | app/operations/rebuild_orchestration.py:140-144 | the field updates are the Succeed transition |
| Orchestration.MarkFailed | app/operations/rebuild_orchestration.py:146-154 | the field updates are the Fail transition, terminal exactly when the budget is spent |
| Orchestration.MarkDeferredLockBusy | app/operations/rebuild_orchestration.py:156-169 | the field updates are the DeferBusy transition, guarded decrement included |
| Orchestration.ClaimTransaction | app/runtime/rebuild_dispatcher.py:182-195 | queued, running and the escalation commit together: RUNNING since now, one attempt more, and FULL exactly if it was or the attempt reaches the limit |
| Orchestration.ExecuteRequirement | app/runtime/rebuild_dispatcher.py:138-299 | whatever other sessions do in between: a success leaves the row SUCCEEDED without need of a rebuild, a busy lock leaves it DEFERRED until the deferral and costs no attempt, a failure costs one and leaves it FAILED exactly if none is left and otherwise DEFERRED for the backoff; and the execution with those sessions is a run of the protocol with just these steps of its own |
| RebuildProtocol.InvariantHolds | app/runtime/rebuild_dispatcher.py:171-285 | every reachable state keeps row shape, flight bookkeeping and attempts at least the executions in flight, in every interleaving |
| RebuildProtocol.RowsPersist | app/runtime/rebuild_dispatcher.py:189-195 | no run drops a row or changes its tenant, key or limit; the mode only moves to FULL and requires_rebuild only to false |
| RebuildProtocol.FullFromAttempt | app/runtime/rebuild_dispatcher.py:186-195 | over every run the mode is FULL exactly if it was at the start or some claim of the row was counted at the escalation limit or beyond |
| RebuildTheorems.RetryBudgetConserved | app/operations/rebuild_orchestration.py:133-169 | in every run attempts = initial + claims − busy refunds = initial + in flight + consumed, within 0 and max_attempts |
| RebuildTheorems.RefundAlwaysCounts | app/runtime/rebuild_dispatcher.py:235-245 | the guard of the refund never fails for a dispatcher: a busy verdict takes exactly one attempt back |
| RebuildTheorems.ReachableShape | app/operations/recovery.py:256-262 | FAILED means the budget is spent, so the branch reviving FAILED rows never fires, and DEFERRED, RUNNING, SUCCEEDED and QUEUED rows have their promised shape |
| RebuildTheorems.CrashOnLastAttemptIsSilent | app/operations/recovery.py:61-64 | a stale reset of an exhausted row leaves it DEFERRED, open, unreported and never eligible at any time |
| RebuildTheorems.SilentStepExactly | app/operations/recovery.py:49-64 | an event makes a row open, exhausted and DEFERRED exactly if it is a stale reset hitting an exhausted row, or the healer deferring a row with no attempts to begin with |
| RebuildTheorems.ThrottleExactly | app/runtime/autonomy/healer.py:94-118 | the healer defers for twice the busy delay at no cost in attempts, and touches no other row |
| RebuildTheorems.ResetRevivesExactly | app/operations/recovery.py:61-64 | a reset row becomes eligible at some instant if and only if it has budget left, and then from the end of its backoff on |
| RebuildTheorems.SilentExhaustionReachable | app/operations/recovery.py:61-64 | such a row is reachable from a default row |
| RebuildTheorems.ExhaustedForever | app/operations/rebuild_orchestration.py:82-83 | an exhausted row with nobody executing it is never claimed in any continuation and keeps being selected by the query |
| RebuildTheorems.DoneForever | app/operations/rebuild_orchestration.py:75-76 | once requires_rebuild is false no continuation claims the row or sets the flag again |
| RebuildTheorems.SuccessIsAbsorbing | app/runtime/rebuild_dispatcher.py:206-216 | after any dispatcher's success in any run, no later step claims the row, whatever late verdicts follow |
| RebuildTheorems.TwoInFlightWithoutDeadline | app/operations/recovery.py:49-64 | a concrete run in which a stale reset leaves two dispatchers executing one row |
| RebuildTheorems.ExclusiveStepExactly | app/operations/recovery.py:49-64 | the one event that can end exclusivity is a stale reset hitting a row that is being executed, and it always does |
| RebuildTheorems.ExclusiveRunsExactly | app/operations/recovery.py:49-64 | a run has at most one dispatcher in flight on every row throughout, the row RUNNING since its claim, if and only if no stale reset in it hits such a row |
| RebuildTheorems.LateVerdictOverwritesSuccess | app/runtime/rebuild_dispatcher.py:235-246 | a concrete run in which a late busy verdict turns a SUCCEEDED row into DEFERRED |
| RebuildTheorems.SucceededIsFinalExactly | app/runtime/rebuild_dispatcher.py:235-285 | SUCCEEDED is final in every continuation if and only if no dispatcher holds the row any more |
| RebuildTheorems.IdleDoneRowIsFrozen | app/operations/rebuild_orchestration.py:75-81 | a row that needs no rebuild and that nobody holds is never written again, in any field |
| RebuildTheorems.TimedMutualExclusion | app/operations/recovery.py:49-64 | if every execution ends within the stale limit, at most one dispatcher is in flight on a row in every run, and until its verdict the row is RUNNING since its claim time |
| RebuildTheorems.TimelySuccessIsFinal | app/operations/rebuild_orchestration.py:140-144 | under that deadline a committed success stays SUCCEEDED if and only if the bookkeeping of the same dispatch does not raise |
| RebuildTheorems.ScheduleBounded | app/operations/rebuild_orchestration.py:55-57 | next_eligible_at never exceeds its last write by more than the longest delay the run's events can schedule |
| RebuildTheorems.NoLostRow | app/operations/rebuild_orchestration.py:69-91 | at every transaction boundary each row is done, exhausted, RUNNING with a start time, or eligible from max(3600, defer) seconds after its last scheduling write on (twice the deferral if the healer acted) |
| RebuildTheorems.BecomesEligible | app/operations/recovery.py:43-64 | from every reachable state a row with work and budget passes the eligibility check within three events and unclaimed, at a bounded time; whether it is then selected is `Starvation.DispatchableExactly` |
| RebuildTheorems.PotentialStep | app/runtime/rebuild_dispatcher.py:138-299 | each non-busy execution lowers the remaining potential by one; claims, refunds, resets, backoff and the healer leave it unchanged |
| RebuildTheorems.PotentialBalance | app/runtime/rebuild_dispatcher.py:138-299 | over any run consumed executions plus remaining potential equal the initial potential plus requested budgets |
| RebuildTheorems.DispatchesAreBounded | app/operations/rebuild_orchestration.py:133-169 | in any run the succeeded and failed dispatches number at most the sum of max_attempts − initial attempts plus the budgets of rows added |
| FairBatch.SortIsStable | app/operations/rebuild_orchestration.py:102-105 | the sort is ordered by (priority, created_at), a permutation, and keeps equal keys in order |
| FairBatch.GreedyDominates | app/operations/rebuild_orchestration.py:94-116 | the batch is feasible, no feasible batch is longer, and its i-th key is at most any feasible batch's i-th key |
| FairBatch.SelectionLength | app/operations/rebuild_orchestration.py:106-116 | its length is min(limit, sum over tenants of min(rows, cap)) |
| FairBatch.SelectionIgnoresOrder | app/operations/rebuild_orchestration.py:94-116 | with distinct keys every permutation of the input gives the same batch |
| FairBatch.SelectFairBatch | app/operations/rebuild_orchestration.py:106-116 | the loop with its dictionary of counts and its early exit computes that batch |
| Selection.ChoiceIsLeast | app/runtime/rebuild_dispatcher.py:129-136 | the first row of a non-empty batch has the least key of all candidates |
| Selection.NoPriorityInversion | app/runtime/rebuild_dispatcher.py:103-136 | a chosen row is eligible and least-keyed among all eligible rows of the table, whatever the prioritizer did; nothing is chosen exactly when the window has no eligible row |
| Selection.PrioritizerHasNoEffect | app/runtime/rebuild_dispatcher.py:128-136 | no reordering by the prioritizer changes the choice if and only if a single candidate holds the least key, or the limit is below one |
| Selection.HeadOfLineBlocking | app/runtime/rebuild_dispatcher.py:119-125 | with distinct keys the least eligible row is dispatched if and only if fewer than the batch size of open rows precede it |
| Selection.BlockedWitness | app/runtime/rebuild_dispatcher.py:119-127 | a table with an eligible row on which nothing is dispatched |
| Selection.SelectRequirementId | app/runtime/rebuild_dispatcher.py:103-136 | returns the id of a least-keyed eligible row, or none exactly when the window holds none or the limit is below one |
| Starvation.ChosenIsNearFront | app/runtime/rebuild_dispatcher.py:119-136 | a chosen row has fewer than the batch size of open rows before it, ties or not |
| Starvation.StarvedForever | app/runtime/rebuild_dispatcher.py:103-136 | with a full batch of blockers (out of attempts, held by nobody, before the row, and in the query or bound to enter it when the row itself is reset) no selection in any continuation may return the row |
| Starvation.Progress | app/runtime/rebuild_dispatcher.py:70-136 | with fewer blockers and distinct keys the row is claimed within 4·rows+4 events by a run in which every claim is what the selector must return |
| Starvation.DispatchableExactly | app/runtime/rebuild_dispatcher.py:70-136 | so a row with work and budget can still be dispatched, by whatever continuation, if and only if its blockers number fewer than the batch size |
| Starvation.CanStarve | app/runtime/rebuild_dispatcher.py:103-136 | from any quiet state with a full batch of open rows before a row, a run of the selector starves the row without touching it |
| Starvation.StarvationReachable | app/runtime/rebuild_dispatcher.py:103-136 | for every batch size: a run of the selector from default rows to a state in which an untouched row is never selected again in any continuation |
| Maintenance.MaintenanceFrame | app/operations/recovery.py:256-262 | attempts, flags and non-matching rows are untouched, a row changes exactly if one of the passes matches it, and afterwards neither does |
| Maintenance.MaintenanceFixpoint | app/runtime/retry_supervisor.py:38-56 | with the same cutoffs a second pass changes nothing and counts nothing, whatever its other readings; the first pass's counters are the numbers of rows changed |
| Maintenance.ResetMeaning | app/operations/recovery.py:43-64 | a reset changes exactly the tenants' rows RUNNING for longer than the stale limit at their tenant's reading, and defers each by its backoff |
| Maintenance.BackoffMeaning | app/operations/recovery.py:238-262 | a backoff is given to exactly the tenants' rows waiting without one with attempts left |
| Maintenance.StaleTenantsMeaning | app/runtime/retry_supervisor.py:70-85 | the tenants visited are those with a row beyond the limit at the reading of the query |
| Maintenance.ResetRefines | app/operations/recovery.py:43-64 | one tenant's loop is the protocol's stale reset |
| Maintenance.BackoffRefines | app/operations/recovery.py:238-262 | one tenant's loop is the protocol's backoff event |
| Maintenance.PassRefines | app/runtime/retry_supervisor.py:38-56 | with the clock held still the whole pass over the rebuild table is a run of those events |
| Maintenance.ResetStaleRunningRebuilds | app/operations/recovery.py:43-79 | the loop resets exactly the tenant's rows stale at its own cutoff, each scheduled by its own clock reading, and returns their number |
| Maintenance.ApplyRebuildRetryBackoff | app/operations/recovery.py:238-272 | the loop schedules exactly the tenant's rows without a backoff, each by its own clock reading, and returns their number |
| Maintenance.ResetStaleRunningGlobally | app/runtime/retry_supervisor.py:58-85 | of the tenants found stale by the query's reading, every row stale at the tenant's own later cutoff is reset once and counted once |
| Maintenance.ApplyMissingBackoff | app/runtime/retry_supervisor.py:87-115 | tenant by tenant, every row of the table without a backoff is scheduled once and counted once |
| Maintenance.RunMaintenance | app/runtime/retry_supervisor.py:38-56 | the pass is reset, backoff, poison count and job recovery with all their own clock readings; each of the four counters is the number of rows concerned |
| Maintenance.RunMaintenanceTwice | app/runtime/retry_supervisor.py:28-56 | the second of two passes at one instant reports zero for the rebuild rows, the first the number of changed rows |
| RuntimeGuards.WindowIsLastHour | app/runtime/runtime_guards.py:23-28 | under a non-decreasing clock the front-pruned deque is sorted and equals all completions ever recorded filtered to the last hour |
| RuntimeGuards.LastHourMeaning | app/runtime/runtime_guards.py:23-28 | that window holds exactly the completions at most 3600 seconds older than the last |
| RuntimeGuards.SlideExactly | app/runtime/runtime_guards.py:23-28 | whatever the next reading, a right deque stays right exactly if no entry outside the hour stands behind one inside, or, if the clock stepped back, if no completion lies between the two cutoffs |
| RuntimeGuards.AlwaysLastHourExactly | app/runtime/runtime_guards.py:23-28 | over whole logs with a clock that may jump either way, the deque is the last hour of all completions throughout if and only if every reading satisfies that condition |
| RuntimeGuards.BackwardClockOvercounts | app/runtime/runtime_guards.py:23-28 | if the clock steps back, a completion outside the hour is still counted |
| RuntimeGuards.BusyCounterIsSinceSuccess | app/runtime/runtime_guards.py:46-63 | the counter equals the busy outcomes since the last success, or since the start |
| RuntimeGuards.RuntimeGuardState.RecordRebuildCompleted | app/runtime/runtime_guards.py:23-43 | the pruning loop pops exactly the old front, and the alarms compare the window's size with their thresholds |
| RuntimeGuards.RuntimeGuardState.RecordBusyDefer | app/runtime/runtime_guards.py:46-58 | counts one more busy outcome and reports a storm from ten on |
| RuntimeGuards.ReportAll | app/runtime/runtime_guards.py:14-63 | reporting any list of outcomes leaves the guard as the reference definitions of the list say |
| TtlCaches.HitsAgreeWithLog | app/core/ttl_cache.py:26-48 | under any clock readings a hit returns the latest set's value, unexpired and not invalidated since |
| TtlCaches.HitMeaning | app/core/ttl_cache.py:26-48 | in positions of the log: a hit returns the value of a set less than the ttl ago, after which the key was neither set nor matched by an invalidated prefix |
| TtlCaches.LatestMeaning | app/core/ttl_cache.py:37-48 | that latest set, in terms of positions in the operation log |
| TtlCaches.SetSinceMeaning | app/core/ttl_cache.py:37-42 | the keys that count against retention, in positions of the log |
| TtlCaches.CapacityHolds | app/core/ttl_cache.py:37-56 | with max_entries ≥ 1 the entry count never exceeds it in any run |
| TtlCaches.VictimIsLeastRecent | app/core/ttl_cache.py:50-56 | with increasing set times the capacity victim is the strictly least recently set live key, and all other live keys were set since |
| TtlCaches.Retained | app/core/ttl_cache.py:37-56 | an unexpired, uninvalidated key is still stored while fewer than max_entries − 1 other keys were set since |
| TtlCaches.GetIsExact | app/core/ttl_cache.py:26-35 | within that reach a get answers exactly as an unlimited cache |
| TtlCaches.RetentionIsTight | app/core/ttl_cache.py:37-42 | for every capacity of at least two and every ttl: after filling the cache within one ttl and rewriting the newest key, the first key is gone with only max_entries − 1 other keys set since |
| TtlCaches.TtlCache.Read | app/core/ttl_cache.py:26-35 | the method's hits and, within reach, its misses agree with the unlimited cache over the log |
| TtlCaches.TtlCache.Write | app/core/ttl_cache.py:37-42 | stores the value with its expiry within capacity, or raises exactly when the capacity is below one |
| TtlCaches.TtlCache.EvictExpiredLocked | app/core/ttl_cache.py:50-56 | drops the expired entries and, if still full, exactly one that expires soonest |
| TtlCaches.TtlCache.InvalidatePrefix | app/core/ttl_cache.py:44-48 | afterwards no key that starts with the prefix is stored, and every other key is as before |
| RateLimit.PruningIsExact | app/ai/rate_limit.py:18-35 | with advancing clocks the pruned lists decide every call as counting the complete accepted history would |
| RateLimit.VerdictMeaning | app/ai/rate_limit.py:26-35 | with advancing clocks: refused for the platform exactly if the closed hour is full, that test first, and for the tenant exactly if otherwise its closed minute is |
| RateLimit.CountsExactly | app/ai/rate_limit.py:22-35 | with clock readings in any order against the lock, the pruned lists never count more than the complete accepted history, and as much if and only if no call to be counted was dropped by the pruning of another |
| RateLimit.BoundedUnlessLost | app/ai/rate_limit.py:22-35 | as long as no accepted call decided on such a shortened list, the bounds hold for readings in any order |
| RateLimit.BoundedBySkew | app/ai/rate_limit.py:22-35 | if no reading is behind that of an earlier lock holder by more than a skew, every closed window of a minute, or an hour, minus the skew holds at most the limit of accepted calls |
| RateLimit.SkewBoundIsTight | app/ai/rate_limit.py:22-35 | for every skew up to a minute a log within it on which a window longer than a minute minus the skew, by however little, holds three accepted calls at a limit of two |
| RateLimit.WindowsAreBounded | app/ai/rate_limit.py:26-35 | the limiter accepts the same calls as one with unlimited memory, and every closed minute holds at most the tenant limit of them, every closed hour at most the platform limit |
| RateLimit.RateLimiter.CheckTenantRateLimit | app/ai/rate_limit.py:18-35 | the call's verdict is the full-history verdict; a non-positive limit allows all and records nothing |
| RateLimit.RateLimiter.DecideAndRecord | app/ai/rate_limit.py:26-35 | prunes, decides and records in the code's order, also on the rejecting paths |
| DashboardCache.InvariantHolds | app/services/dashboard_query_cache.py:45-155 | lock ownership, one task per key, and every held value being that task's result, in every interleaving |
| DashboardCache.StartedAtMostOnce | app/services/dashboard_query_cache.py:45-155 | no key's computation is started twice, failures and cancellations included |
| DashboardCache.SameValueForAll | app/services/dashboard_query_cache.py:131-155 | all normally returning callers of a key get the same value at any two times, None included |
| DashboardCache.FreshnessSharesRuntime | app/services/dashboard_query_cache.py:73-107 | a returned freshness record rests on the one runtime computation every runtime caller got |
| DashboardCache.NoAwaitUnderLock | app/services/dashboard_query_cache.py:46-55 | the lock holder is inside a critical section and can always leave it |
| DashboardCache.NoDeadlock | app/services/dashboard_query_cache.py:45-155 | while a caller is unfinished some step other than an arrival or a cancellation is possible |
| DashboardCache.ProgressIsBounded | app/services/dashboard_query_cache.py:45-155 | in every run the progress steps number at most fifteen for each caller that arrived, and where none is possible any more every caller has finished |
| DashboardCache.AllCanFinish | app/services/dashboard_query_cache.py:45-155 | from every reachable state all callers finish by progress steps alone, within that bound, with no failure but that of a freshness build given no runtime summary |
| DashboardCache.RaisedOnlyIf | app/services/dashboard_query_cache.py:45-155 | a finished caller raised only if it was cancelled or a computation it depends on broke; otherwise it returned its task's result |
| DashboardCache.EveryoneIsServed | app/services/dashboard_query_cache.py:45-155 | every run can be completed so that each caller not cancelled, whose computation did not break, returns its task's result |
| DashboardCache.LaterCallersReturnAtOnce | app/services/dashboard_query_cache.py:47-49 | once a caller of a key has returned, later callers start nothing and return the stored value in their first section, None for integrity keys only |
| WorkerProtocol.AckCommitsResult | app/etl/worker.py:213-248 | a job becomes COMPLETED only in the step that commits its business result for a ticket of that job, leaving an insight that names the report |
| WorkerProtocol.CompletedHasResult | app/etl/worker.py:237-248 | in every run a COMPLETED job has a committed result |
| WorkerProtocol.AtMostOneVerdict | app/etl/worker.py:133-289 | a claim commits at most one ack and at most two verdicts, none while it works, and at most one verdict if and only if no exception reaches the failure handler after its commit |
| WorkerProtocol.FailuresExactly | app/core/queue/postgres_backend.py:104-143 | a failure or recovery dead-letters exactly when the budget it goes by is spent, requeues otherwise, and commits nothing |
| WorkerProtocol.AttemptsWithinBudget | app/core/queue/postgres_backend.py:61-93 | no run counts more attempts of a job than its budget |
| WorkerProtocol.AckThenFail | app/etl/worker.py:212-266 | a concrete run with a single claim whose ack and later failure both commit, so that the completed job is requeued |
| WorkerProtocol.InsightsAreCounted | app/etl/pipeline.py:237-274 | for payloads of any kind: insights number the attempts up to the first whose payload names the report, so at most one exactly if the first one does or is the only one |
| WorkerProtocol.OneInsightPerReport | app/etl/pipeline.py:237-274 | in every run a report has exactly one insight once it was ever committed, and none before, however often its jobs are retried |
| WorkerProtocol.CountDecidesCompleteness | app/etl/wb/persist.py:136-190 | in every run the row count agrees exactly if all rows of the streamed file are stored, and a claim that parsed the whole file passes the count whatever failed or concurrent claims left behind |
| WorkerProtocol.CommittedIsWhole | app/etl/wb/persist.py:87-107 | a streamed report that was ever committed has every row of its file stored, and nothing else |
| WorkerProtocol.CompletedStays | app/core/queue/postgres_backend.py:95-102 | with no claim of the job open any more, COMPLETED is final in every continuation |
| WorkerProtocol.CompletedIsFinalExactly | app/core/queue/postgres_backend.py:104-143 | and exactly then: any open claim can undo it, the acking one included until its block has ended |
| WorkerProtocol.CompletedCanBeUndone | app/core/queue/postgres_backend.py:158-194 | a concrete run in which a superseded claim fails late and requeues a job completed by another |
| Worker.RecoveryIsComplete | app/operations/recovery.py:126-152 | after recovery nothing is stuck at that or any later time, budgets are untouched, a stuck job is pending exactly if it has budget left and dead-lettered exactly otherwise, and other jobs are as before |
| Worker.StuckExactly | app/core/queue/stale.py:10-22 | a job is stuck exactly if it is PROCESSING and its heartbeat, or else its claim, is older than its visibility timeout |
| Worker.RecoverStuckProcessingJobs | app/operations/recovery.py:126-168 | the loop recovers exactly the tenant's stale PROCESSING jobs and returns their ids in order |
| Worker.RecoverStaleProcessingSample | app/runtime/retry_supervisor.py:145-161 | the loop recovers exactly the stuck jobs of the sampled tenants, each tenant at its own reading, and returns their number |
| Worker.Database.PrepareAiContextIdempotent | app/etl/pipeline.py:237-274 | the scan inserts one insight unless a stored one of the user names the report |
| Worker.Database.StoreChunks | app/etl/wb/stream_pipeline.py:61-132 | wherever parsing stops, exactly the chunks before are committed and stay; the raw row follows the last |
| Worker.Database.PersistSteps | app/etl/pipeline.py:129-213 | the statements of the persist transaction in order, and what they have written when an exception leaves them at any stage |
| Worker.Database.PersistAndAck | app/etl/worker.py:212-248 | the transaction commits result, insight, rows and ack together, or restores tables and job completely; an exception after the commit is still raised |
| Worker.FailJob | app/core/queue/postgres_backend.py:104-143 | dead-letters exactly when the claim's budget is spent, otherwise requeues with the retry time |
| Worker.ProcessClaimedJob | app/etl/worker.py:106-289 | acks exactly on the all-good path, and then the report has its result, its complete rows and its insight and the job is COMPLETED; otherwise the tables keep only what parsing a stream had committed; an exception after the commit fails the acked job; no verdict leaves the job as it was |
| WorkerRefinement.RecoveryRefines | app/operations/recovery.py:144-151 | a recovered job is what the protocol's recovery event makes of it |
| WorkerRefinement.ParseRefines | app/etl/wb/stream_pipeline.py:61-132 | parsing a stream up to any point is a run of the protocol's chunk events |
| WorkerRefinement.PersistRefines | app/etl/worker.py:212-248 | the persist transaction is the protocol's commit event |
| WorkerRefinement.ProcessAsRun | app/etl/worker.py:106-289 | a claimed job handled to its end is a run of the protocol ending in the events of its verdict, and tables and job are as that run says |

## Left out

- Maintenance.RunMaintenance: no other session acts between the transactions of the pass; interleaved passes are in `RebuildProtocol`. The tenants sampled for job recovery are an input.
- TtlCaches.TtlCache.EvictExpiredLocked: among entries with equal expiry any may be the victim, where Python takes the first inserted; values are integers standing for any type.
- RuntimeGuards.RuntimeGuardState.RecordRebuildCompleted: the alarms are returned; metrics and the circuit breaker they drive are not modelled.
- Worker.Database.PersistSteps: of what the persist phase writes, the normalized rows, raw rows, results and insights; ledgers, aggregates, snapshots and best-effort anomalies are only places where it may raise.
- WorkerRefinement.ProcessAsRun: no other session acts between the transactions of the claim, each of which is an event of the protocol and so covered in any interleaving; a job failed inside the persist block appears as one failure.
- The retry time of a requeued job in `WorkerProtocol`: a pending job may be claimed at any time.
- Deletion of rows by cascade when a user is removed, and with it the `refreshed is None` branches of the dispatcher.
- Database isolation below one atomic step per transaction: two transactions that both find the insight slot empty are serialised here.
- The rebuild services, advisory lock, kill switches, circuit breaker, containment guard, lease service, heartbeats and post-report AI hook: outcomes or enabling conditions only.
- The job status FAILED of the queue, which no modelled transition reaches, and the retry endpoint that resets it.
- The scoring inside the prioritizer; only that it reorders the candidates is used.
- Idle-cycle and queue-overload warnings, poison logging, metrics, correlation ids and audit records.
- Routes, schemas, migrations (used for initial values only), authentication, file loading, LLM calls and the frontend.
