// The worker's objects: queue jobs with their recovery loop, the tables a job writes with the
// transactions that write them, and the control flow of one claimed job (app/etl/worker.py, app/etl/pipeline.py,
// app/operations/recovery.py).
module Worker {
  import opened Common
  import opened RebuildRows
  import P = WorkerProtocol

  // ---------------------------------------------------------------- jobs

  datatype JobRow = JobRow(
    id: nat, tenant: nat, status: P.Status, attempts: nat, maxAttempts: int, visibilitySeconds: int,
    claimedAt: Option<Time>, processingStartedAt: Option<Time>, lastHeartbeatAt: Option<Time>,
    lastError: Option<string>)

  predicate IsEtlJobStale(j: JobRow, now: Time) {
    match j.lastHeartbeatAt
    case Some(beat) => now > beat + SECOND * j.visibilitySeconds
    case None => j.claimedAt.Some? && now > j.claimedAt.value + SECOND * j.visibilitySeconds
  }

  predicate IsStuck(j: JobRow, tenant: nat, now: Time) {
    j.tenant == tenant && j.status == P.Processing && j.claimedAt.Some? && IsEtlJobStale(j, now)
  }

  const REQUEUED_ERROR := "Visibility timeout expired; tenant recovery requeued"
  const EXPIRED_ERROR := "Max attempts exceeded after visibility timeout"

  function Recovered(j: JobRow): JobRow {
    if j.attempts < j.maxAttempts then
      j.(status := P.Pending, claimedAt := None, processingStartedAt := None, lastError := Some(REQUEUED_ERROR))
    else j.(status := P.DeadLetter, lastError := Some(EXPIRED_ERROR))
  }

  function Acknowledged(j: JobRow, now: Time): JobRow {
    j.(status := P.Completed, claimedAt := None, lastHeartbeatAt := Some(now))
  }

  function RecoverIfStuck(j: JobRow, tenant: nat, now: Time): JobRow {
    if IsStuck(j, tenant, now) then Recovered(j) else j
  }

  function RecoverAll(jobs: seq<JobRow>, tenant: nat, now: Time): seq<JobRow> {
    seq(|jobs|, i requires 0 <= i < |jobs| => RecoverIfStuck(jobs[i], tenant, now))
  }

  function StuckIds(jobs: seq<JobRow>, tenant: nat, now: Time): seq<nat> {
    if jobs == [] then []
    else
      var n := |jobs| - 1;
      StuckIds(jobs[..n], tenant, now) + (if IsStuck(jobs[n], tenant, now) then [jobs[n].id] else [])
  }

  lemma {:induction false} NoneStuck(jobs: seq<JobRow>, tenant: nat, now: Time)
    requires forall i | 0 <= i < |jobs| :: !IsStuck(jobs[i], tenant, now)
    ensures StuckIds(jobs, tenant, now) == []
  {
    if jobs != [] {
      NoneStuck(jobs[..|jobs| - 1], tenant, now);
    }
  }

  lemma {:induction false} StuckIdsMeaning(jobs: seq<JobRow>, tenant: nat, now: Time, id: nat)
    ensures id in StuckIds(jobs, tenant, now)
            <==> exists i :: 0 <= i < |jobs| && jobs[i].id == id && IsStuck(jobs[i], tenant, now)
  {
    if jobs != [] {
      var n := |jobs| - 1;
      StuckIdsMeaning(jobs[..n], tenant, now, id);
      forall i | 0 <= i < n ensures jobs[i] == jobs[..n][i] {
      }
    }
  }

  // A job is stuck exactly if it is being processed and its last sign of life, the heartbeat or else
  // the claim, is older than its visibility timeout.
  lemma StuckExactly(j: JobRow, tenant: nat, now: Time)
    ensures IsStuck(j, tenant, now) <==>
              && j.tenant == tenant && j.status == P.Processing && j.claimedAt.Some?
              && (if j.lastHeartbeatAt.Some? then j.lastHeartbeatAt.value + SECOND * j.visibilitySeconds < now
                  else j.claimedAt.value + SECOND * j.visibilitySeconds < now)
  {
  }

  // Recovery leaves nothing for a second pass at any later time: no recovered job is PROCESSING,
  // the budget is untouched, and a job may be retried exactly if it has budget left; all others are
  // dead-lettered, and none is completed.
  lemma RecoveryIsComplete(jobs: seq<JobRow>, tenant: nat, now: Time)
    ensures StuckIds(RecoverAll(jobs, tenant, now), tenant, now) == []
    ensures RecoverAll(RecoverAll(jobs, tenant, now), tenant, now) == RecoverAll(jobs, tenant, now)
    ensures forall i | 0 <= i < |jobs| && IsStuck(jobs[i], tenant, now) ::
              var r := RecoverAll(jobs, tenant, now)[i];
              && r.attempts == jobs[i].attempts
              && (r.status == P.Pending <==> jobs[i].attempts < jobs[i].maxAttempts)
              && (r.status == P.DeadLetter <==> jobs[i].attempts >= jobs[i].maxAttempts)
              && (r.status == P.Pending ==> r.claimedAt == None && r.processingStartedAt == None)
              && forall later: Time :: !IsStuck(r, tenant, later)
    ensures forall i | 0 <= i < |jobs| && !IsStuck(jobs[i], tenant, now) ::
              RecoverAll(jobs, tenant, now)[i] == jobs[i]
  {
    var out := RecoverAll(jobs, tenant, now);
    forall i | 0 <= i < |out| ensures !IsStuck(out[i], tenant, now) {
    }
    NoneStuck(out, tenant, now);
    assert RecoverAll(out, tenant, now) == out;
  }

  class EtlJob {
    const id: nat
    const tenant: nat
    const maxAttempts: int
    const visibilitySeconds: int
    var status: P.Status
    var attemptCount: nat
    var claimedAt: Option<Time>
    var processingStartedAt: Option<Time>
    var lastHeartbeatAt: Option<Time>
    var lastError: Option<string>

    constructor (id: nat, tenant: nat, maxAttempts: int, visibilitySeconds: int)
      ensures View() == JobRow(id, tenant, P.Pending, 0, maxAttempts, visibilitySeconds, None, None, None, None)
    {
      this.id, this.tenant, this.maxAttempts, this.visibilitySeconds := id, tenant, maxAttempts, visibilitySeconds;
      status, attemptCount := P.Pending, 0;
      claimedAt, processingStartedAt, lastHeartbeatAt, lastError := None, None, None, None;
    }

    function View(): JobRow
      reads this
    {
      JobRow(id, tenant, status, attemptCount, maxAttempts, visibilitySeconds, claimedAt, processingStartedAt,
             lastHeartbeatAt, lastError)
    }

    // Back to what the row was when the transaction began.
    method Restore(saved: JobRow)
      requires saved.id == id && saved.tenant == tenant
      requires saved.maxAttempts == maxAttempts && saved.visibilitySeconds == visibilitySeconds
      modifies this
      ensures View() == saved
    {
      status, attemptCount, claimedAt := saved.status, saved.attempts, saved.claimedAt;
      processingStartedAt, lastHeartbeatAt := saved.processingStartedAt, saved.lastHeartbeatAt;
      lastError := saved.lastError;
    }

    method Ack(now: Time)
      modifies this
      ensures View() == Acknowledged(old(View()), now)
    {
      status := P.Completed;
      claimedAt := None;
      lastHeartbeatAt := Some(now);
    }

    method Recover()
      modifies this
      ensures View() == Recovered(old(View()))
    {
      if attemptCount < maxAttempts {
        status := P.Pending;
        claimedAt := None;
        processingStartedAt := None;
        lastError := Some(REQUEUED_ERROR);
      } else {
        status := P.DeadLetter;
        lastError := Some(EXPIRED_ERROR);
      }
    }
  }

  function JobViews(table: seq<EtlJob>): (rows: seq<JobRow>)
    reads table
    ensures |rows| == |table| && forall i | 0 <= i < |table| :: rows[i] == table[i].View()
  {
    seq(|table|, i requires 0 <= i < |table| reads table => table[i].View())
  }

  ghost predicate DistinctJobs(table: seq<EtlJob>) {
    forall i, j | 0 <= i < j < |table| :: table[i] != table[j]
  }

  method RecoverStuckProcessingJobs(table: seq<EtlJob>, tenant: nat, now: Time) returns (recoveredIds: seq<nat>)
    requires DistinctJobs(table)
    modifies table
    ensures JobViews(table) == RecoverAll(old(JobViews(table)), tenant, now)
    ensures recoveredIds == StuckIds(old(JobViews(table)), tenant, now)
  {
    ghost var before := JobViews(table);
    recoveredIds := [];
    for i := 0 to |table|
      invariant forall k | 0 <= k < i :: table[k].View() == RecoverIfStuck(before[k], tenant, now)
      invariant forall k | i <= k < |table| :: table[k].View() == before[k]
      invariant recoveredIds == StuckIds(before[..i], tenant, now)
    {
      assert before[..i + 1][..i] == before[..i];
      var job := table[i];
      if job.tenant == tenant && job.status == P.Processing && job.claimedAt.Some? {
        if !IsEtlJobStale(job.View(), now) {
          continue;
        }
        job.Recover();
        recoveredIds := recoveredIds + [job.id];
      }
    }
    assert before[..|table|] == before;
  }

  // ---------------------------------------------------------------- recovery of several tenants

  predicate DistinctTenants(sample: seq<nat>) {
    forall i, j | 0 <= i < j < |sample| :: sample[i] != sample[j]
  }

  // Each tenant of the sample is recovered with its own reading of the clock.
  function RecoverSample(jobs: seq<JobRow>, sample: seq<nat>, clock: nat -> Time): seq<JobRow> {
    seq(|jobs|, i requires 0 <= i < |jobs| =>
      if jobs[i].tenant in sample then RecoverIfStuck(jobs[i], jobs[i].tenant, clock(jobs[i].tenant)) else jobs[i])
  }

  function StuckCount(jobs: seq<JobRow>, sample: seq<nat>, clock: nat -> Time): nat {
    if jobs == [] then 0
    else
      var j := jobs[|jobs| - 1];
      StuckCount(jobs[..|jobs| - 1], sample, clock)
      + (if j.tenant in sample && IsStuck(j, j.tenant, clock(j.tenant)) then 1 else 0)
  }

  lemma {:induction false} NoSample(jobs: seq<JobRow>, clock: nat -> Time)
    ensures RecoverSample(jobs, [], clock) == jobs && StuckCount(jobs, [], clock) == 0
  {
    if jobs != [] {
      NoSample(jobs[..|jobs| - 1], clock);
    }
  }

  // One more tenant: its jobs are as they were, and they are the ones counted in addition.
  lemma {:induction false} NextOfSample(jobs: seq<JobRow>, done: seq<nat>, t: nat, clock: nat -> Time)
    requires t !in done
    ensures RecoverAll(RecoverSample(jobs, done, clock), t, clock(t)) == RecoverSample(jobs, done + [t], clock)
    ensures StuckCount(jobs, done + [t], clock)
            == StuckCount(jobs, done, clock) + |StuckIds(RecoverSample(jobs, done, clock), t, clock(t))|
  {
    if jobs != [] {
      var n := |jobs| - 1;
      NextOfSample(jobs[..n], done, t, clock);
      assert RecoverSample(jobs, done, clock)[..n] == RecoverSample(jobs[..n], done, clock);
    }
  }

  method RecoverStaleProcessingSample(table: seq<EtlJob>, sample: seq<nat>, clock: nat -> Time)
    returns (recovered: nat)
    requires DistinctJobs(table) && DistinctTenants(sample)
    modifies table
    ensures JobViews(table) == RecoverSample(old(JobViews(table)), sample, clock)
    ensures recovered == StuckCount(old(JobViews(table)), sample, clock)
  {
    ghost var before := JobViews(table);
    NoSample(before, clock);
    recovered := 0;
    for i := 0 to |sample|
      invariant JobViews(table) == RecoverSample(before, sample[..i], clock)
      invariant recovered == StuckCount(before, sample[..i], clock)
    {
      assert sample[..i + 1] == sample[..i] + [sample[i]];
      NextOfSample(before, sample[..i], sample[i], clock);
      var ids := RecoverStuckProcessingJobs(table, sample[i], clock(sample[i]));
      recovered := recovered + |ids|;
    }
    assert sample[..|sample|] == sample;
  }

  // ---------------------------------------------------------------- the tables

  datatype AiInsight = AiInsight(user: nat, kind: string, payloadReport: Option<nat>, payloadJob: Option<nat>)

  const SUMMARY_KIND := "report_summary"

  predicate NamesReport(i: AiInsight, user: nat, report: nat) {
    i.user == user && i.kind == SUMMARY_KIND && i.payloadReport == Some(report)
  }

  ghost predicate SlotTaken(rows: seq<AiInsight>, user: nat, report: nat) {
    exists i | 0 <= i < |rows| :: NamesReport(rows[i], user, report)
  }

  // The tables a job writes: insights, the row count of each report with a business result, the
  // normalized rows of each report by their index in its file, and the reports with a raw row.
  datatype Tables = Tables(
    insights: seq<AiInsight>, results: map<nat, nat>, rows: map<nat, set<nat>>, rawReports: set<nat>)

  function RowsOf(t: Tables, report: nat): set<nat> {
    if report in t.rows then t.rows[report] else {}
  }

  // A claimed job's file: of another marketplace, a Wildberries file parsed as a stream that stores
  // its rows chunk by chunk, or one read at once whose rows are stored with the result.
  datatype File = Plain(rowCount: nat) | Streamed(rowCount: nat) | Whole(rowCount: nat)

  // The points of the persist transaction at which an exception may leave it.
  datatype Stage = BeforeRows | AfterRows | AfterSlot | AfterResult | AfterAck | AfterCommit

  // The rows committed by parsing, and kept whatever happens later: the chunks before the one at
  // which parsing stops, and the raw row after the last chunk.
  function AfterParse(t: Tables, report: nat, file: File, stop: Option<nat>): Tables {
    if !file.Streamed? then t
    else
      var parsed := if stop.Some? then Min(stop.value * P.CHUNK_ROWS, file.rowCount) else file.rowCount;
      var stored := if parsed == 0 then t
                    else t.(rows := t.rows[report := RowsOf(t, report) + P.RowsFrom(0, parsed)]);
      if ParseSucceeds(file, stop) then stored.(rawReports := stored.rawReports + {report}) else stored
  }

  // A streamed file without data rows raises at the end.
  predicate ParseSucceeds(file: File, stop: Option<nat>) {
    stop.None? && (file.Streamed? ==> file.rowCount > 0)
  }

  function WithRows(t: Tables, report: nat, file: File): Tables {
    if file.Whole? then
      t.(rows := t.rows[report := RowsOf(t, report) + P.RowsFrom(0, file.rowCount)],
         rawReports := t.rawReports + {report})
    else t
  }

  // The row counts the persist phase insists on.
  predicate CountsAgree(t: Tables, report: nat, file: File) {
    match file
    case Plain(_) => true
    case Whole(total) => |RowsOf(WithRows(t, report, file), report)| == total
    case Streamed(total) =>
      |RowsOf(t, report)| == total && (report in t.results ==> t.results[report] == total)
  }

  ghost function WithSlot(t: Tables, user: nat, report: nat, job: nat): Tables {
    if SlotTaken(t.insights, user, report) then t
    else t.(insights := t.insights + [AiInsight(user, SUMMARY_KIND, Some(report), Some(job))])
  }

  function WithResult(t: Tables, report: nat, file: File): Tables {
    t.(results := t.results[report := file.rowCount])
  }

  // Everything the persist transaction writes.
  ghost function Persisted(t: Tables, user: nat, report: nat, job: nat, file: File): Tables {
    WithResult(WithSlot(WithRows(t, report, file), user, report, job), report, file)
  }

  // What an open transaction has written when it is left at a stage.
  ghost function WrittenAt(t: Tables, user: nat, report: nat, job: nat, file: File, stage: Stage): Tables {
    match stage
    case BeforeRows => t
    case AfterRows => WithRows(t, report, file)
    case AfterSlot => WithSlot(WithRows(t, report, file), user, report, job)
    case _ => Persisted(t, user, report, job, file)
  }

  class Database {
    var insights: seq<AiInsight>
    var results: map<nat, nat>
    var rows: map<nat, set<nat>>
    var rawReports: set<nat>

    constructor ()
      ensures View() == Tables([], map[], map[], {})
    {
      insights, results, rows, rawReports := [], map[], map[], {};
    }

    function View(): Tables
      reads this
    {
      Tables(insights, results, rows, rawReports)
    }

    // Back to what the tables were when the transaction began.
    method Restore(saved: Tables)
      modifies this
      ensures View() == saved
    {
      insights, results, rows, rawReports := saved.insights, saved.results, saved.rows, saved.rawReports;
    }

    method PrepareAiContextIdempotent(user: nat, report: nat, job: nat)
      modifies this`insights
      ensures View() == WithSlot(old(View()), user, report, job)
      ensures SlotTaken(insights, user, report)
      ensures (exists i | 0 <= i < |old(insights)| :: old(insights)[i].user == user
                 && old(insights)[i].kind == "report_summary" && old(insights)[i].payloadReport == Some(report))
              <==> insights == old(insights)
      ensures insights != old(insights) ==>
                insights == old(insights) + [AiInsight(user, "report_summary", Some(report), Some(job))]
    {
      var i := 0;
      while i < |insights|
        invariant 0 <= i <= |insights| && insights == old(insights)
        invariant forall k | 0 <= k < i :: !NamesReport(insights[k], user, report)
      {
        if NamesReport(insights[i], user, report) {
          return;
        }
        i := i + 1;
      }
      insights := insights + [AiInsight(user, SUMMARY_KIND, Some(report), Some(job))];
      assert NamesReport(insights[|insights| - 1], user, report);
    }

    // The chunk loop of a streamed file. Each chunk is a transaction of its own; parsing stops with
    // an exception at chunk `stop`, by a parse error, a failed insert or a shutdown after the last.
    method StoreChunks(report: nat, total: nat, stop: Option<nat>) returns (raised: bool)
      modifies this`rows, this`rawReports
      ensures View() == AfterParse(old(View()), report, Streamed(total), stop)
      ensures raised <==> stop.Some? || total == 0
      ensures if raised then rawReports == old(rawReports) else rawReports == old(rawReports) + {report}
    {
      var parsed, chunks := 0, 0;
      ghost var had := RowsOf(View(), report);
      assert P.RowsFrom(0, 0) == {};
      while parsed < total && stop != Some(chunks)
        invariant parsed == Min(chunks * P.CHUNK_ROWS, total)
        invariant stop.Some? ==> chunks <= stop.value
        invariant RowsOf(View(), report) == had + P.RowsFrom(0, parsed)
        invariant rows == if parsed == 0 then old(rows) else old(rows)[report := had + P.RowsFrom(0, parsed)]
        invariant rawReports == old(rawReports)
        decreases total - parsed
      {
        var upTo := Min(parsed + P.CHUNK_ROWS, total);
        assert P.RowsFrom(0, upTo) == P.RowsFrom(0, parsed) + P.RowsFrom(parsed, upTo);
        rows := rows[report := RowsOf(View(), report) + P.RowsFrom(parsed, upTo)];
        parsed, chunks := upTo, chunks + 1;
      }
      if stop.Some? || total == 0 {
        return true;
      }
      rawReports := rawReports + {report};
      raised := false;
    }

    // The rows of a file read at once are stored here, and the stored rows of either kind counted.
    method StoreAndCountRows(report: nat, file: File) returns (raised: bool)
      modifies this`rows, this`rawReports
      ensures View() == WithRows(old(View()), report, file)
      ensures raised <==> !CountsAgree(old(View()), report, file)
    {
      if file.Whole? {
        rawReports := rawReports + {report};
        rows := rows[report := RowsOf(View(), report) + P.RowsFrom(0, file.rowCount)];
      }
      if !file.Plain? && |RowsOf(View(), report)| != file.rowCount {
        return true;
      }
      raised := file.Streamed? && report in results && results[report] != file.rowCount;
    }

    // The statements of the persist transaction in order. An exception leaves whatever was written
    // up to that point in the open transaction.
    method PersistSteps(job: EtlJob, report: nat, file: File, now: Time, fault: Option<Stage>) returns (raised: bool)
      modifies this, job
      ensures var before := old(View());
              raised <==> !CountsAgree(before, report, file) || (fault.Some? && fault.value != AfterCommit)
      ensures !raised ==> View() == Persisted(old(View()), job.tenant, report, job.id, file)
      ensures raised && CountsAgree(old(View()), report, file) ==>
                View() == WrittenAt(old(View()), job.tenant, report, job.id, file, fault.value)
      ensures !raised || (CountsAgree(old(View()), report, file) && fault == Some(AfterAck)) ==>
                job.View() == Acknowledged(old(job.View()), now)
    {
      if fault == Some(BeforeRows) {
        return true;
      }
      raised := StoreAndCountRows(report, file);
      if raised || fault == Some(AfterRows) {
        return true;
      }
      PrepareAiContextIdempotent(job.tenant, report, job.id);
      if fault == Some(AfterSlot) {
        return true;
      }
      results := results[report := file.rowCount];
      if fault == Some(AfterResult) {
        return true;
      }
      job.Ack(now);
      return fault == Some(AfterAck);
    }

    // The transaction around them: committed as a whole, or rolled back to where it began. An
    // exception after the commit still reaches the caller.
    method PersistAndAck(job: EtlJob, report: nat, file: File, now: Time, fault: Option<Stage>)
      returns (raised: bool, committed: bool)
      modifies this, job
      ensures committed <==> CountsAgree(old(View()), report, file) && (fault.None? || fault == Some(AfterCommit))
      ensures raised <==> !committed || fault == Some(AfterCommit)
      ensures View() == if committed then Persisted(old(View()), job.tenant, report, job.id, file) else old(View())
      ensures job.View() == if committed then Acknowledged(old(job.View()), now) else old(job.View())
      ensures committed ==> SlotTaken(insights, job.tenant, report)
      ensures committed ==>
                && report in results && results[report] == file.rowCount && job.status == P.Completed
                && (file.Whole? ==> report in rawReports)
    {
      var savedTables, savedJob := View(), job.View();
      raised := PersistSteps(job, report, file, now, fault);
      committed := !raised;
      if raised {
        Restore(savedTables);
        job.Restore(savedJob);
      } else {
        SlotIsTaken(savedTables, job.tenant, report, job.id, file);
        raised := fault == Some(AfterCommit);
      }
    }
  }

  lemma SlotIsTaken(t: Tables, user: nat, report: nat, job: nat, file: File)
    ensures SlotTaken(Persisted(t, user, report, job, file).insights, user, report)
  {
    var rows := WithRows(t, report, file);
    if !SlotTaken(t.insights, user, report) {
      assert NamesReport(WithSlot(rows, user, report, job).insights[|t.insights|], user, report);
    }
  }

  // If the slot is free, an exception inside the persist transaction would leave traces without the
  // rollback: at every stage from the slot on, some table differs from what it was.
  lemma RollbackIsNeeded(t: Tables, user: nat, report: nat, job: nat, file: File, stage: Stage)
    requires !SlotTaken(t.insights, user, report) && stage !in {BeforeRows, AfterRows}
    ensures WrittenAt(t, user, report, job, file, stage) != t
  {
    SlotIsTaken(t, user, report, job, file);
  }

  // ---------------------------------------------------------------- one claimed job

  datatype Verdict = Acked | AckedThenFailed | FailedOrRetried | NoVerdict

  method FailJob(job: EtlJob, ticket: P.Ticket, retryAt: Time, error: string)
    modifies job
    ensures job.status == (if ticket.attempts >= ticket.maxAttempts then P.DeadLetter else P.Pending)
    ensures job.lastError == Some(error) && job.claimedAt == None && job.attemptCount == old(job.attemptCount)
    ensures job.processingStartedAt == if job.status == P.Pending then Some(retryAt) else None
  {
    job.lastError := Some(error);
    job.claimedAt := None;
    if ticket.attempts >= ticket.maxAttempts {
      job.status := P.DeadLetter;
      job.processingStartedAt := None;
    } else {
      job.status := P.Pending;
      job.processingStartedAt := Some(retryAt);
    }
  }

  method MarkJobFailedOrRetry(job: EtlJob, ticket: P.Ticket, userExists: bool, retryAt: Time, error: string)
    returns (verdict: Verdict)
    modifies job
    ensures verdict == if userExists then FailedOrRetried else NoVerdict
    ensures userExists ==> job.status == (if ticket.attempts >= ticket.maxAttempts then P.DeadLetter else P.Pending)
    ensures !userExists ==> job.View() == old(job.View())
    ensures job.attemptCount == old(job.attemptCount)
  {
    if !userExists {
      return NoVerdict;
    }
    FailJob(job, ticket, retryAt, error);
    return FailedOrRetried;
  }

  // The persist block when the report or its user is gone: the job is failed in the block's own
  // transaction if there is a user, and an exception leaving the block fails it once more.
  method FailMissingTarget(job: EtlJob, ticket: P.Ticket, userExists: bool, fault: Option<Stage>,
                           userAtHandler: bool, retryAt: Time)
    returns (verdict: Verdict)
    modifies job
    ensures var inBlock := userExists && (fault.None? || fault == Some(AfterCommit));
            verdict == if inBlock || (fault.Some? && userAtHandler) then FailedOrRetried else NoVerdict
    ensures verdict == FailedOrRetried ==>
              job.status == (if ticket.attempts >= ticket.maxAttempts then P.DeadLetter else P.Pending)
    ensures verdict == NoVerdict ==> job.View() == old(job.View())
    ensures job.attemptCount == old(job.attemptCount)
  {
    var saved := job.View();
    verdict := MarkJobFailedOrRetry(job, ticket, userExists, retryAt, "Persist target missing");
    if fault.Some? {
      if fault != Some(AfterCommit) {
        job.Restore(saved);
        verdict := NoVerdict;
      }
      var again := MarkJobFailedOrRetry(job, ticket, userAtHandler, retryAt, "persist failed");
      if again == FailedOrRetried {
        verdict := again;
      }
    }
  }

  // The all-good path of a claimed job, up to and including the commit.
  predicate Commits(t: Tables, report: nat, tenantAllowed: bool, file: File, stop: Option<nat>, shutdown: bool,
                    reportExists: bool, userExists: bool, fault: Option<Stage>) {
    && tenantAllowed && ParseSucceeds(file, stop) && !shutdown && reportExists && userExists
    && CountsAgree(AfterParse(t, report, file, stop), report, file)
    && (fault.None? || fault == Some(AfterCommit))
  }

  // A file that is stored for the first time passes the row counts.
  lemma FreshFileAgrees(t: Tables, report: nat, file: File)
    requires !file.Plain? && file.rowCount > 0 && report !in t.rows && report !in t.results
    ensures CountsAgree(AfterParse(t, report, file, None), report, file)
  {
    P.RangeSize(0, file.rowCount);
    assert {} + P.RowsFrom(0, file.rowCount) == P.RowsFrom(0, file.rowCount);
  }

  // Whether a failed claim finds the user whose job it fails: inside the persist block if only the
  // report is gone, and in the failure handler otherwise.
  predicate FindsUser(tenantAllowed: bool, file: File, stop: Option<nat>, shutdown: bool, reportExists: bool,
                      userExists: bool, fault: Option<Stage>, userAtHandler: bool) {
    if tenantAllowed && ParseSucceeds(file, stop) && !shutdown && (!reportExists || !userExists) then
      (userExists && (fault.None? || fault == Some(AfterCommit))) || (fault.Some? && userAtHandler)
    else userAtHandler
  }

  // process_next_job after the claim. The job is acked together with its result exactly on the
  // all-good path. Otherwise the only trace in the tables is what parsing a stream had committed
  // before. An exception after the commit fails the acked job. No verdict means that nobody was
  // found to fail the job for, and leaves the job as it was. `stop` is where parsing raises, and
  // `fault` where the persist block does.
  method ProcessClaimedJob(db: Database, job: EtlJob, ticket: P.Ticket, tenantAllowed: bool, file: File,
                           stop: Option<nat>, shutdown: bool, reportExists: bool, userExists: bool,
                           fault: Option<Stage>, userAtHandler: bool, now: Time, retryAt: Time)
    returns (verdict: Verdict)
    modifies db, job
    ensures var t, report := old(db.View()), ticket.report;
            && (verdict in {Acked, AckedThenFailed}
                <==> Commits(t, report, tenantAllowed, file, stop, shutdown, reportExists, userExists, fault))
            && (verdict == AckedThenFailed ==> fault == Some(AfterCommit) && userAtHandler)
            && (var parsed := if tenantAllowed then AfterParse(t, report, file, stop) else t;
                db.View() == if verdict in {Acked, AckedThenFailed}
                             then Persisted(parsed, job.tenant, report, job.id, file) else parsed)
    ensures verdict == NoVerdict <==>
              && !Commits(old(db.View()), ticket.report, tenantAllowed, file, stop, shutdown, reportExists, userExists,
                          fault)
              && !FindsUser(tenantAllowed, file, stop, shutdown, reportExists, userExists, fault, userAtHandler)
    ensures verdict == Acked ==> job.View() == Acknowledged(old(job.View()), now)
    ensures verdict in {AckedThenFailed, FailedOrRetried} ==>
              job.status == (if ticket.attempts >= ticket.maxAttempts then P.DeadLetter else P.Pending)
    ensures verdict == NoVerdict ==> job.View() == old(job.View())
    ensures job.attemptCount == old(job.attemptCount)
    // In the job's and the tables' own fields:
    ensures verdict in {Acked, AckedThenFailed} ==>
              && tenantAllowed && stop.None? && !shutdown && reportExists && userExists
              && ticket.report in db.results && db.results[ticket.report] == file.rowCount
              && (!file.Plain? ==> ticket.report in db.rows && |db.rows[ticket.report]| == file.rowCount)
              && (exists i | 0 <= i < |db.insights| :: db.insights[i].user == job.tenant
                    && db.insights[i].kind == "report_summary" && db.insights[i].payloadReport == Some(ticket.report))
    ensures verdict == Acked ==>
              job.status == P.Completed && job.claimedAt == None && job.lastHeartbeatAt == Some(now)
    ensures verdict !in {Acked, AckedThenFailed} ==> db.results == old(db.results) && db.insights == old(db.insights)
    ensures tenantAllowed && stop.None? && !shutdown && reportExists && userExists && fault.None?
            && (file.Plain?
                || (file.rowCount > 0 && ticket.report !in old(db.rows) && ticket.report !in old(db.results)))
            ==> verdict == Acked
  {
    if stop.None? && !file.Plain? && file.rowCount > 0 && ticket.report !in db.rows && ticket.report !in db.results {
      FreshFileAgrees(db.View(), ticket.report, file);
    }
    ghost var parsed := if tenantAllowed then AfterParse(db.View(), ticket.report, file, stop) else db.View();
    verdict := HandleClaimedJob(db, job, ticket, tenantAllowed, file, stop, shutdown, reportExists, userExists,
                                fault, userAtHandler, now, retryAt);
    if verdict in {Acked, AckedThenFailed} {
      PersistedMeans(parsed, job.tenant, ticket.report, job.id, file);
    } else {
      ParsingKeeps(old(db.View()), ticket.report, file, stop);
    }
  }

  // What a commit leaves in the tables.
  lemma PersistedMeans(t: Tables, user: nat, report: nat, job: nat, file: File)
    requires CountsAgree(t, report, file) && (file.Streamed? ==> file.rowCount > 0)
    ensures var after := Persisted(t, user, report, job, file);
            && report in after.results && after.results[report] == file.rowCount
            && (!file.Plain? ==> report in after.rows && |after.rows[report]| == file.rowCount)
            && exists i | 0 <= i < |after.insights| :: after.insights[i].user == user
                 && after.insights[i].kind == "report_summary" && after.insights[i].payloadReport == Some(report)
  {
    SlotIsTaken(t, user, report, job, file);
  }

  lemma ParsingKeeps(t: Tables, report: nat, file: File, stop: Option<nat>)
    ensures AfterParse(t, report, file, stop).results == t.results
    ensures AfterParse(t, report, file, stop).insights == t.insights
  {
  }

  method HandleClaimedJob(db: Database, job: EtlJob, ticket: P.Ticket, tenantAllowed: bool, file: File,
                          stop: Option<nat>, shutdown: bool, reportExists: bool, userExists: bool,
                          fault: Option<Stage>, userAtHandler: bool, now: Time, retryAt: Time)
    returns (verdict: Verdict)
    modifies db, job
    ensures var t, report := old(db.View()), ticket.report;
            var commits := Commits(t, report, tenantAllowed, file, stop, shutdown, reportExists, userExists, fault);
            && verdict == (if commits then
                             if fault == Some(AfterCommit) && userAtHandler then AckedThenFailed else Acked
                           else if FindsUser(tenantAllowed, file, stop, shutdown, reportExists, userExists, fault,
                                             userAtHandler)
                           then FailedOrRetried else NoVerdict)
            && (var parsed := if tenantAllowed then AfterParse(t, report, file, stop) else t;
                db.View() == if commits then Persisted(parsed, job.tenant, report, job.id, file) else parsed)
    ensures verdict == Acked ==> job.View() == Acknowledged(old(job.View()), now)
    ensures verdict in {AckedThenFailed, FailedOrRetried} ==>
              job.status == (if ticket.attempts >= ticket.maxAttempts then P.DeadLetter else P.Pending)
    ensures verdict == NoVerdict ==> job.View() == old(job.View())
    ensures job.attemptCount == old(job.attemptCount)
  {
    if !tenantAllowed {
      verdict := MarkJobFailedOrRetry(job, ticket, userAtHandler, retryAt, "tenant contained");
      return;
    }
    var raised := stop.Some?;
    if file.Streamed? {
      raised := db.StoreChunks(ticket.report, file.rowCount, stop);
    }
    if raised {
      verdict := MarkJobFailedOrRetry(job, ticket, userAtHandler, retryAt, "parse failed");
      return;
    }
    if shutdown {
      verdict := MarkJobFailedOrRetry(job, ticket, userAtHandler, retryAt,
                                      "Worker shutdown during processing (post-parse)");
      return;
    }
    if !reportExists || !userExists {
      verdict := FailMissingTarget(job, ticket, userExists, fault, userAtHandler, retryAt);
      return;
    }
    var committed;
    raised, committed := db.PersistAndAck(job, ticket.report, file, now, fault);
    if !raised {
      return Acked;
    }
    verdict := MarkJobFailedOrRetry(job, ticket, userAtHandler, retryAt, "persist failed");
    if committed {
      verdict := if userAtHandler then AckedThenFailed else Acked;
    }
  }
}
