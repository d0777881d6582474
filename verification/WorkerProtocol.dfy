// The ETL worker's commit protocol (app/etl/worker.py) over the queue's claim, ack, fail and recover
// transitions: workers, crashes, stale recovery and operator replays interleave one transaction at
// a time. A claim is known by its ticket, so late verdicts of superseded claims are visible.
module WorkerProtocol {
  import opened Common

  const CHUNK_ROWS: nat := 1000

  datatype Status = Pending | Processing | Completed | DeadLetter

  datatype Job = Job(report: nat, status: Status, attempts: nat, maxAttempts: int)

  // The claimed record a worker works from: a copy, never refreshed. `parsed` counts the rows of a
  // streamed file that this claim has stored so far. `settled` means that a verdict has been
  // committed and only the end of the block around that commit is left.
  datatype Ticket = Ticket(job: nat, report: nat, attempts: nat, maxAttempts: int, parsed: nat, settled: bool)

  // A `report_summary` insight: the report it was made for, and the one its payload names.
  datatype Insight = Insight(report: nat, payloadReport: Option<nat>)

  datatype Commit = Commit(job: nat, report: nat)

  datatype State = State(
    // The number of rows in the file of each report that is parsed as a stream; never changed.
    fileRows: map<nat, nat>,
    // The normalized rows stored for a report, by their index in the file.
    stored: map<nat, set<nat>>,
    jobs: map<nat, Job>,
    open: map<nat, Ticket>,
    issued: set<nat>,
    commits: seq<Commit>,
    insights: seq<Insight>)

  datatype Event =
    | Enqueue(job: nat, report: nat, maxAttempts: int)
    | ClaimJob(ticket: nat, job: nat)
    // One chunk of a streamed file, in a transaction of its own during parsing.
    | ChunkStored(ticket: nat)
    // Business result, insight slot and acknowledgement in one transaction.
    | PersistAndAck(ticket: nat)
    // The report is gone: the job is failed inside the same block that would have persisted it.
    | FailMissing(ticket: nat)
    // The failure handler, after a parse error, a rolled-back persist, a shutdown or a contained tenant.
    | FailOrRetry(ticket: nat)
    // The same handler, reached by an exception after a verdict was committed: the session fails to
    // close, or the commit's confirmation is lost.
    | LateFail(ticket: nat)
    | Finish(ticket: nat)
    // A crash before any verdict, or no user to fail the job for.
    | Vanish(ticket: nat)
    | RecoverStale(job: nat)
    // Operator replay: the counter may be reset in a first transaction, the requeue is a second.
    | ResetAttempts(job: nat)
    | Requeue(job: nat)

  predicate Working(s: State, ticket: nat) {
    ticket in s.open && !s.open[ticket].settled && s.open[ticket].job in s.jobs
  }

  predicate Settled(s: State, ticket: nat) {
    ticket in s.open && s.open[ticket].settled && s.open[ticket].job in s.jobs
  }

  function StoredOf(s: State, report: nat): set<nat> {
    if report in s.stored then s.stored[report] else {}
  }

  // What the persist phase of a streamed report demands: the file was parsed to its end, it had
  // rows, and the number of stored rows is the number parsed. An earlier result has the same count,
  // because the file is the same.
  predicate Validates(s: State, t: Ticket) {
    t.report in s.fileRows ==>
      0 < s.fileRows[t.report] == t.parsed && |StoredOf(s, t.report)| == t.parsed
  }

  predicate Enabled(s: State, e: Event) {
    match e
    case Enqueue(job, _, _) => job !in s.jobs
    case ClaimJob(ticket, job) =>
      ticket !in s.issued && job in s.jobs && s.jobs[job].status == Pending
      && s.jobs[job].attempts < s.jobs[job].maxAttempts
    case ChunkStored(ticket) =>
      Working(s, ticket) && s.open[ticket].report in s.fileRows
      && s.open[ticket].parsed < s.fileRows[s.open[ticket].report]
    case PersistAndAck(ticket) => Working(s, ticket) && Validates(s, s.open[ticket])
    case FailMissing(ticket) => Working(s, ticket)
    case FailOrRetry(ticket) => Working(s, ticket)
    case LateFail(ticket) => Settled(s, ticket)
    case Finish(ticket) => Settled(s, ticket)
    case Vanish(ticket) => Working(s, ticket)
    case RecoverStale(job) => job in s.jobs && s.jobs[job].status == Processing
    case ResetAttempts(job) => job in s.jobs && s.jobs[job].status == DeadLetter
    case Requeue(job) =>
      job in s.jobs && s.jobs[job].status == DeadLetter && s.jobs[job].attempts < s.jobs[job].maxAttempts
  }

  function Close(open: map<nat, Ticket>, ticket: nat): map<nat, Ticket> {
    map t | t in open && t != ticket :: open[t]
  }

  predicate Covers(i: Insight, report: nat) {
    i.payloadReport == Some(report)
  }

  predicate HasSlot(insights: seq<Insight>, report: nat) {
    exists i | 0 <= i < |insights| :: Covers(insights[i], report)
  }

  // The idempotent slot: nothing is added if some stored payload names the report.
  function WithSlot(insights: seq<Insight>, added: Insight): seq<Insight> {
    if HasSlot(insights, added.report) then insights else insights + [added]
  }

  // Every payload is built from the job's own report id.
  function InsightOf(report: nat): Insight {
    Insight(report, Some(report))
  }

  predicate Within(a: nat, i: nat, b: nat) {
    a <= i < b
  }

  function RowsFrom(a: nat, b: nat): set<nat> {
    set i: nat | i < b && Within(a, i, b)
  }

  function FailVerdict(t: Ticket): Status {
    if t.attempts >= t.maxAttempts then DeadLetter else Pending
  }

  function WithStatus(s: State, job: nat, status: Status): State
    requires job in s.jobs
  {
    s.(jobs := s.jobs[job := s.jobs[job].(status := status)])
  }

  function Next(s: State, e: Event): State
    requires Enabled(s, e)
  {
    match e
    case Enqueue(job, report, maxAttempts) => s.(jobs := s.jobs[job := Job(report, Pending, 0, maxAttempts)])
    case ClaimJob(ticket, job) =>
      var claimed := s.jobs[job].(status := Processing, attempts := s.jobs[job].attempts + 1);
      s.(jobs := s.jobs[job := claimed],
         open := s.open[ticket := Ticket(job, claimed.report, claimed.attempts, claimed.maxAttempts, 0, false)],
         issued := s.issued + {ticket})
    case ChunkStored(ticket) =>
      var t := s.open[ticket];
      var upTo := Min(t.parsed + CHUNK_ROWS, s.fileRows[t.report]);
      s.(stored := s.stored[t.report := StoredOf(s, t.report) + RowsFrom(t.parsed, upTo)],
         open := s.open[ticket := t.(parsed := upTo)])
    case PersistAndAck(ticket) =>
      var t := s.open[ticket];
      WithStatus(s, t.job, Completed).(
        open := s.open[ticket := t.(settled := true)],
        commits := s.commits + [Commit(t.job, t.report)],
        insights := WithSlot(s.insights, InsightOf(t.report)))
    case FailMissing(ticket) =>
      var t := s.open[ticket];
      WithStatus(s, t.job, FailVerdict(t)).(open := s.open[ticket := t.(settled := true)])
    case FailOrRetry(ticket) =>
      WithStatus(s, s.open[ticket].job, FailVerdict(s.open[ticket])).(open := Close(s.open, ticket))
    case LateFail(ticket) =>
      WithStatus(s, s.open[ticket].job, FailVerdict(s.open[ticket])).(open := Close(s.open, ticket))
    case Finish(ticket) => s.(open := Close(s.open, ticket))
    case Vanish(ticket) => s.(open := Close(s.open, ticket))
    case RecoverStale(job) =>
      WithStatus(s, job, if s.jobs[job].attempts < s.jobs[job].maxAttempts then Pending else DeadLetter)
    case ResetAttempts(job) => s.(jobs := s.jobs[job := s.jobs[job].(attempts := 0)])
    case Requeue(job) => WithStatus(s, job, Pending)
  }

  predicate Initial(s: State) {
    s == State(s.fileRows, map[], map[], map[], {}, [], [])
  }

  predicate Valid(s0: State, es: seq<Event>)
    decreases |es|, 0
  {
    es == [] ||
    var n := |es| - 1;
    Valid(s0, es[..n]) && Enabled(Run(s0, es[..n]), es[n])
  }

  function Run(s0: State, es: seq<Event>): State
    requires Valid(s0, es)
    decreases |es|, 1
  {
    if es == [] then s0
    else
      var n := |es| - 1;
      Next(Run(s0, es[..n]), es[n])
  }

  lemma Extend(s0: State, es: seq<Event>, e: Event)
    requires Valid(s0, es) && Enabled(Run(s0, es), e)
    ensures Valid(s0, es + [e]) && Run(s0, es + [e]) == Next(Run(s0, es), e)
  {
    assert (es + [e])[..|es|] == es;
  }

  // ---------------------------------------------------------------- acknowledgements

  // A job becomes COMPLETED only in the step that also commits its business result, on behalf of a
  // ticket issued for that very job, and leaves an insight whose payload names the report.
  lemma AckCommitsResult(s: State, e: Event, job: nat)
    requires Enabled(s, e) && job in s.jobs
    requires s.jobs[job].status != Completed && Next(s, e).jobs[job].status == Completed
    ensures e.PersistAndAck? && e.ticket in s.open && s.open[e.ticket].job == job
    ensures Next(s, e).commits == s.commits + [Commit(job, s.open[e.ticket].report)]
    ensures HasSlot(Next(s, e).insights, s.open[e.ticket].report)
  {
    var r := s.open[e.ticket].report;
    if !HasSlot(s.insights, r) {
      assert Covers(Next(s, e).insights[|s.insights|], r);
    }
  }

  // Conversely every COMPLETED job has a committed result, in every run.
  lemma {:induction false} CompletedHasResult(s0: State, es: seq<Event>, job: nat)
    requires Initial(s0) && Valid(s0, es) && job in Run(s0, es).jobs
    requires Run(s0, es).jobs[job].status == Completed
    ensures exists c :: c in Run(s0, es).commits && c.job == job
  {
    var n := |es| - 1;
    var s := Run(s0, es[..n]);
    if job in s.jobs && s.jobs[job].status == Completed {
      CompletedHasResult(s0, es[..n], job);
      var c :| c in s.commits && c.job == job;
      assert c in Run(s0, es).commits;
    } else if job in s.jobs {
      AckCommitsResult(s, es[n], job);
      assert Commit(job, s.open[es[n].ticket].report) in Run(s0, es).commits;
    }
  }

  // ---------------------------------------------------------------- verdicts of one claim

  predicate IsVerdict(e: Event, ticket: nat) {
    (e.PersistAndAck? || e.FailMissing? || e.FailOrRetry? || e.LateFail?) && e.ticket == ticket
  }

  function VerdictsOf(es: seq<Event>, ticket: nat): nat {
    if es == [] then 0
    else VerdictsOf(es[..|es| - 1], ticket) + (if IsVerdict(es[|es| - 1], ticket) then 1 else 0)
  }

  function AcksOf(es: seq<Event>, ticket: nat): nat {
    if es == [] then 0
    else AcksOf(es[..|es| - 1], ticket) + (if es[|es| - 1] == PersistAndAck(ticket) then 1 else 0)
  }

  // The verdicts a claim has committed, by what has become of it.
  predicate VerdictsFit(s: State, ticket: nat, verdicts: nat, acks: nat, late: bool) {
    && (ticket in s.open ==> ticket in s.issued)
    && verdicts <= (if late then 2 else 1)
    && (late ==> verdicts == 2 && ticket in s.issued && ticket !in s.open)
    && (ticket !in s.issued ==> verdicts == 0)
    && (ticket in s.open ==> verdicts == if s.open[ticket].settled then 1 else 0)
    && acks <= verdicts && acks <= 1
  }

  lemma VerdictStep(s: State, e: Event, ticket: nat, verdicts: nat, acks: nat, late: bool)
    requires Enabled(s, e) && VerdictsFit(s, ticket, verdicts, acks, late)
    ensures VerdictsFit(Next(s, e), ticket, verdicts + (if IsVerdict(e, ticket) then 1 else 0),
                        acks + (if e == PersistAndAck(ticket) then 1 else 0), late || e == LateFail(ticket))
  {
  }

  lemma {:induction false} VerdictsByPhase(s0: State, es: seq<Event>, ticket: nat)
    requires Initial(s0) && Valid(s0, es)
    ensures VerdictsFit(Run(s0, es), ticket, VerdictsOf(es, ticket), AcksOf(es, ticket), LateFail(ticket) in es)
  {
    if es != [] {
      var n := |es| - 1;
      assert es == es[..n] + [es[n]];
      VerdictsByPhase(s0, es[..n], ticket);
      VerdictStep(Run(s0, es[..n]), es[n], ticket, VerdictsOf(es[..n], ticket), AcksOf(es[..n], ticket),
                  LateFail(ticket) in es[..n]);
    }
  }

  // A claim commits at most one ack, and at most one verdict of any kind if and only if no
  // exception reaches the failure handler after its verdict. While it works it has committed none.
  lemma AtMostOneVerdict(s0: State, es: seq<Event>, ticket: nat)
    requires Initial(s0) && Valid(s0, es)
    ensures VerdictsOf(es, ticket) <= 1 <==> LateFail(ticket) !in es
    ensures AcksOf(es, ticket) <= 1 && VerdictsOf(es, ticket) <= 2
    ensures Working(Run(s0, es), ticket) ==> VerdictsOf(es, ticket) == 0
  {
    VerdictsByPhase(s0, es, ticket);
  }

  // What a failure verdict and a recovery do to the job: back to the queue if its budget lasts, by
  // the claim's own count for a verdict and by the job's for a recovery, and dead-lettered otherwise.
  lemma FailuresExactly(s: State, e: Event, job: nat)
    requires Enabled(s, e)
    requires ((e.FailOrRetry? || e.FailMissing? || e.LateFail?) && s.open[e.ticket].job == job)
             || (e.RecoverStale? && e.job == job)
    ensures var attempts, limit := if e.RecoverStale? then s.jobs[job].attempts else s.open[e.ticket].attempts,
                                   if e.RecoverStale? then s.jobs[job].maxAttempts else s.open[e.ticket].maxAttempts;
            && job in Next(s, e).jobs && Next(s, e).jobs[job].attempts == s.jobs[job].attempts
            && Next(s, e).jobs[job].status == (if attempts < limit then Pending else DeadLetter)
    ensures Next(s, e).commits == s.commits && Next(s, e).insights == s.insights
  {
  }

  // No run counts more attempts of a job than its budget.
  lemma {:induction false} AttemptsWithinBudget(s0: State, es: seq<Event>, job: nat)
    requires Initial(s0) && Valid(s0, es) && job in Run(s0, es).jobs
    ensures Run(s0, es).jobs[job].attempts <= Max(Run(s0, es).jobs[job].maxAttempts, 0)
  {
    if es != [] {
      var n := |es| - 1;
      if job in Run(s0, es[..n]).jobs {
        AttemptsWithinBudget(s0, es[..n], job);
      }
      AttemptStep(Run(s0, es[..n]), es[n], job);
    }
  }

  lemma AttemptStep(s: State, e: Event, job: nat)
    requires Enabled(s, e) && job in Next(s, e).jobs
    requires job in s.jobs ==> s.jobs[job].attempts <= Max(s.jobs[job].maxAttempts, 0)
    ensures Next(s, e).jobs[job].attempts <= Max(Next(s, e).jobs[job].maxAttempts, 0)
  {
  }

  // ---------------------------------------------------------------- the insight slot

  function InsightsFor(insights: seq<Insight>, report: nat): nat {
    if insights == [] then 0
    else
      InsightsFor(insights[..|insights| - 1], report)
      + (if insights[|insights| - 1].report == report then 1 else 0)
  }

  // The insights after a list of attempts to add one.
  function SlotsAfter(attempts: seq<Insight>): seq<Insight> {
    if attempts == [] then [] else WithSlot(SlotsAfter(attempts[..|attempts| - 1]), attempts[|attempts| - 1])
  }

  // Whether the payloads of a report's attempts named it, in order.
  function NamesItself(attempts: seq<Insight>, report: nat): seq<bool> {
    if attempts == [] then []
    else
      var last := attempts[|attempts| - 1];
      NamesItself(attempts[..|attempts| - 1], report) + (if last.report == report then [Covers(last, report)] else [])
  }

  // The length of the list up to and including its first true.
  function ThroughFirstTrue(flags: seq<bool>): nat {
    if flags == [] then 0
    else if flags[0] then 1
    else 1 + ThroughFirstTrue(flags[1..])
  }

  lemma {:induction false} ThroughSnoc(flags: seq<bool>, last: bool)
    ensures ThroughFirstTrue(flags + [last]) == ThroughFirstTrue(flags) + (if true in flags then 0 else 1)
  {
    if flags == [] {
      assert flags + [last] == [last];
      assert [last][1..] == [];
    } else if !flags[0] {
      assert (flags + [last])[1..] == flags[1..] + [last];
      assert true in flags <==> true in flags[1..];
      ThroughSnoc(flags[1..], last);
    }
  }

  lemma SlotSnoc(insights: seq<Insight>, added: Insight, report: nat)
    ensures HasSlot(insights + [added], report) <==> HasSlot(insights, report) || Covers(added, report)
    ensures InsightsFor(insights + [added], report)
            == InsightsFor(insights, report) + (if added.report == report then 1 else 0)
  {
    var next := insights + [added];
    assert next[..|insights|] == insights && next[|insights|] == added;
    if i :| 0 <= i < |insights| && Covers(insights[i], report) {
      assert next[i] == insights[i];
    }
  }

  // No payload names a report other than the one the insight is made for.
  predicate NoneNamesAnother(attempts: seq<Insight>) {
    forall a | a in attempts && a.payloadReport.Some? :: a.payloadReport.value == a.report
  }

  // Why the slot keeps retries apart: a report gets one insight for each attempt up to the first
  // whose payload names it, so at most one in all if and only if the first attempt's payload does
  // or there is only one attempt.
  lemma {:induction false} InsightsAreCounted(attempts: seq<Insight>, report: nat)
    requires NoneNamesAnother(attempts)
    ensures InsightsFor(SlotsAfter(attempts), report) == ThroughFirstTrue(NamesItself(attempts, report))
    ensures HasSlot(SlotsAfter(attempts), report) <==> true in NamesItself(attempts, report)
    ensures var flags := NamesItself(attempts, report);
            InsightsFor(SlotsAfter(attempts), report) <= 1 <==> |flags| <= 1 || flags[0]
  {
    if attempts != [] {
      var n := |attempts| - 1;
      assert attempts == attempts[..n] + [attempts[n]];
      InsightsAreCounted(attempts[..n], report);
      SlotSnoc(SlotsAfter(attempts[..n]), attempts[n], report);
      var flags, flag := NamesItself(attempts[..n], report), Covers(attempts[n], report);
      ThroughSnoc(flags, flag);
      assert true in flags + [flag] <==> true in flags || flag;
      assert attempts[n].report != report ==> NamesItself(attempts, report) == flags;
    }
    ThroughFirst(NamesItself(attempts, report));
  }

  lemma ThroughFirst(flags: seq<bool>)
    ensures ThroughFirstTrue(flags) <= 1 <==> |flags| <= 1 || flags[0]
    ensures flags != [] ==> ThroughFirstTrue(flags) >= 1
  {
    if |flags| > 1 && !flags[0] {
      assert flags[1..] != [];
    }
  }

  ghost predicate WasCommitted(s: State, report: nat) {
    exists c :: c in s.commits && c.report == report
  }

  ghost predicate SlotsOk(s: State, report: nat) {
    && InsightsFor(s.insights, report) == (if WasCommitted(s, report) then 1 else 0)
    && (HasSlot(s.insights, report) <==> WasCommitted(s, report))
  }

  lemma CommitIsLogged(s: State, ticket: nat, report: nat)
    requires Enabled(s, PersistAndAck(ticket))
    ensures WasCommitted(Next(s, PersistAndAck(ticket)), report)
            <==> WasCommitted(s, report) || s.open[ticket].report == report
  {
    var after := Next(s, PersistAndAck(ticket)).commits;
    var added := Commit(s.open[ticket].job, s.open[ticket].report);
    assert after == s.commits + [added];
    assert added in after;
    if c :| c in s.commits && c.report == report {
      assert c in after;
    }
  }

  lemma SlotsStep(s: State, ticket: nat, report: nat)
    requires Enabled(s, PersistAndAck(ticket))
    requires SlotsOk(s, report) && SlotsOk(s, s.open[ticket].report)
    ensures SlotsOk(Next(s, PersistAndAck(ticket)), report)
  {
    CommitIsLogged(s, ticket, report);
    SlotSnoc(s.insights, InsightOf(s.open[ticket].report), report);
  }

  lemma OnlyCommitsFillSlots(s: State, e: Event)
    requires Enabled(s, e) && !e.PersistAndAck?
    ensures Next(s, e).commits == s.commits && Next(s, e).insights == s.insights
  {
  }

  // Retry-safety: in every run, however often a report's jobs are claimed, retried and committed,
  // the report has one insight if it was ever committed, and none before.
  lemma {:induction false} OneInsightPerReport(s0: State, es: seq<Event>, report: nat)
    requires Initial(s0) && Valid(s0, es)
    ensures InsightsFor(Run(s0, es).insights, report) == if WasCommitted(Run(s0, es), report) then 1 else 0
    ensures HasSlot(Run(s0, es).insights, report) <==> WasCommitted(Run(s0, es), report)
  {
    if es != [] {
      var n := |es| - 1;
      OneInsightPerReport(s0, es[..n], report);
      if es[n].PersistAndAck? {
        OneInsightPerReport(s0, es[..n], Run(s0, es[..n]).open[es[n].ticket].report);
        SlotsStep(Run(s0, es[..n]), es[n].ticket, report);
      } else {
        OnlyCommitsFillSlots(Run(s0, es[..n]), es[n]);
      }
    }
  }

  // ---------------------------------------------------------------- streamed files

  lemma {:induction false} RangeSize(a: nat, b: nat)
    requires a <= b
    ensures |RowsFrom(a, b)| == b - a
  {
    if a < b {
      RangeSize(a, b - 1);
      assert RowsFrom(a, b) == RowsFrom(a, b - 1) + {b - 1};
    }
  }

  lemma SubsetOfSameSize(a: set<nat>, b: set<nat>)
    requires a <= b && |a| == |b|
    ensures a == b
  {
    assert |b - a| == |b| - |a|;
  }

  // Only rows of the file are stored, and what a claim has parsed is stored.
  ghost predicate ChunksOk(s: State) {
    && (forall report | report in s.stored ::
          report in s.fileRows && s.stored[report] <= RowsFrom(0, s.fileRows[report]))
    && forall t | t in s.open && s.open[t].parsed > 0 :: ParsedIsStored(s, s.open[t])
  }

  predicate ParsedIsStored(s: State, t: Ticket) {
    t.report in s.fileRows && t.parsed <= s.fileRows[t.report] && RowsFrom(0, t.parsed) <= StoredOf(s, t.report)
  }

  lemma ChunkStep(s: State, ticket: nat)
    requires ChunksOk(s) && Enabled(s, ChunkStored(ticket))
    ensures var next, report := Next(s, ChunkStored(ticket)), s.open[ticket].report;
            && StoredOf(s, report) <= StoredOf(next, report) <= RowsFrom(0, s.fileRows[report])
            && (forall other | other != report :: StoredOf(next, other) == StoredOf(s, other))
            && ParsedIsStored(next, next.open[ticket])
  {
    var t := s.open[ticket];
    var upTo := Min(t.parsed + CHUNK_ROWS, s.fileRows[t.report]);
    assert RowsFrom(0, upTo) == RowsFrom(0, t.parsed) + RowsFrom(t.parsed, upTo);
    assert RowsFrom(0, upTo) <= RowsFrom(0, s.fileRows[t.report]);
    assert t.parsed == 0 ==> RowsFrom(0, t.parsed) == {};
    assert t.parsed > 0 ==> ParsedIsStored(s, t);
  }

  lemma ParsedStep(s: State, e: Event, x: nat)
    requires ChunksOk(s) && Enabled(s, e) && x in Next(s, e).open && Next(s, e).open[x].parsed > 0
    ensures ParsedIsStored(Next(s, e), Next(s, e).open[x])
  {
    if x in s.open && s.open[x].parsed > 0 {
      assert ParsedIsStored(s, s.open[x]);
    }
    if e.ChunkStored? {
      ChunkStep(s, e.ticket);
    }
  }

  lemma ChunksStep(s: State, e: Event)
    requires ChunksOk(s) && Enabled(s, e)
    ensures ChunksOk(Next(s, e)) && Next(s, e).fileRows == s.fileRows
    ensures forall report :: StoredOf(s, report) <= StoredOf(Next(s, e), report)
  {
    var next := Next(s, e);
    if e.ChunkStored? {
      ChunkStep(s, e.ticket);
    } else {
      assert next.stored == s.stored;
    }
    forall x | x in next.open && next.open[x].parsed > 0 ensures ParsedIsStored(next, next.open[x]) {
      ParsedStep(s, e, x);
    }
  }

  lemma {:induction false} ChunksHold(s0: State, es: seq<Event>)
    requires Initial(s0) && Valid(s0, es)
    ensures ChunksOk(Run(s0, es)) && Run(s0, es).fileRows == s0.fileRows
  {
    if es != [] {
      var n := |es| - 1;
      ChunksHold(s0, es[..n]);
      ChunksStep(Run(s0, es[..n]), es[n]);
    }
  }

  // Counting is enough: in every run the stored rows of a report number those of its file exactly
  // if they are all stored. And rows left behind by failed, crashed or concurrent claims never make
  // a claim that parsed the whole file fail the count.
  lemma CountDecidesCompleteness(s0: State, es: seq<Event>, report: nat, ticket: nat)
    requires Initial(s0) && Valid(s0, es) && report in s0.fileRows
    ensures var s := Run(s0, es);
            && (|StoredOf(s, report)| == s0.fileRows[report]
                <==> StoredOf(s, report) == RowsFrom(0, s0.fileRows[report]))
            && (Working(s, ticket) && s.open[ticket].report == report ==>
                  (Enabled(s, PersistAndAck(ticket)) <==> 0 < s0.fileRows[report] == s.open[ticket].parsed))
  {
    ChunksHold(s0, es);
    var s := Run(s0, es);
    var file := RowsFrom(0, s0.fileRows[report]);
    RangeSize(0, s0.fileRows[report]);
    if |StoredOf(s, report)| == |file| {
      SubsetOfSameSize(StoredOf(s, report), file);
    }
    if ticket in s.open && s.open[ticket].parsed > 0 {
      assert ParsedIsStored(s, s.open[ticket]);
    }
  }

  // A report that was committed even once has every row of its file stored, in every later state.
  lemma {:induction false} CommittedIsWhole(s0: State, es: seq<Event>, report: nat)
    requires Initial(s0) && Valid(s0, es) && report in s0.fileRows && WasCommitted(Run(s0, es), report)
    ensures StoredOf(Run(s0, es), report) == RowsFrom(0, s0.fileRows[report])
  {
    var n := |es| - 1;
    var s, e := Run(s0, es[..n]), es[n];
    ChunksHold(s0, es[..n]);
    ChunksHold(s0, es);
    ChunksStep(s, e);
    if WasCommitted(s, report) {
      CommittedIsWhole(s0, es[..n], report);
    } else {
      var c :| c in Run(s0, es).commits && c.report == report;
      assert c !in s.commits;
      CountDecidesCompleteness(s0, es[..n], report, e.ticket);
    }
  }

  // ---------------------------------------------------------------- when COMPLETED is final

  ghost predicate NoTicketFor(s: State, job: nat) {
    forall t | t in s.open :: s.open[t].job != job
  }

  lemma CompletedStaysStep(s: State, e: Event, job: nat)
    requires Enabled(s, e) && job in s.jobs && s.jobs[job].status == Completed && NoTicketFor(s, job)
    ensures job in Next(s, e).jobs && Next(s, e).jobs[job].status == Completed && NoTicketFor(Next(s, e), job)
  {
  }

  // With no claim of the job open any more, COMPLETED is final.
  lemma {:induction false} CompletedStays(s0: State, es: seq<Event>, job: nat)
    requires Valid(s0, es) && job in s0.jobs && s0.jobs[job].status == Completed && NoTicketFor(s0, job)
    ensures job in Run(s0, es).jobs && Run(s0, es).jobs[job].status == Completed && NoTicketFor(Run(s0, es), job)
  {
    if es != [] {
      var n := |es| - 1;
      CompletedStays(s0, es[..n], job);
      CompletedStaysStep(Run(s0, es[..n]), es[n], job);
    }
  }

  // And only then: any claim of the job still open, the acking one included until its block has
  // ended, can take it back to the queue or dead-letter it.
  lemma CompletedIsFinalExactly(s: State, job: nat)
    requires job in s.jobs && s.jobs[job].status == Completed
    ensures NoTicketFor(s, job)
            <==> forall es | Valid(s, es) :: job in Run(s, es).jobs && Run(s, es).jobs[job].status == Completed
  {
    if NoTicketFor(s, job) {
      forall es | Valid(s, es) ensures job in Run(s, es).jobs && Run(s, es).jobs[job].status == Completed {
        CompletedStays(s, es, job);
      }
    } else {
      var t :| t in s.open && s.open[t].job == job;
      var late := if s.open[t].settled then LateFail(t) else FailOrRetry(t);
      Extend(s, [], late);
      assert Run(s, [] + [late]).jobs[job].status != Completed;
    }
  }

  // A job of a report that is not streamed, claimed once.
  lemma OneClaim() returns (s0: State, es: seq<Event>)
    ensures Initial(s0) && Valid(s0, es) && s0.fileRows == map[]
    ensures VerdictsOf(es, 0) == 0
    ensures Run(s0, es) == State(map[], map[], map[0 := Job(0, Processing, 1, 3)],
                                 map[0 := Ticket(0, 0, 1, 3, 0, false)], {0}, [], [])
  {
    s0 := State(map[], map[], map[], map[], {}, [], []);
    Extend(s0, [], Enqueue(0, 0, 3));
    es := [] + [Enqueue(0, 0, 3)];
    Extend(s0, es, ClaimJob(0, 0));
    es := es + [ClaimJob(0, 0)];
    VerdictsByPhase(s0, es, 0);
  }

  // One claim, two verdicts: the ack commits, the session fails to close, and the handler requeues
  // the completed job although no other claim of it was ever made.
  lemma AckThenFail() returns (s0: State, es: seq<Event>)
    ensures Initial(s0) && Valid(s0, es) && VerdictsOf(es, 0) == 2 && AcksOf(es, 0) == 1
    ensures Run(s0, es).issued == {0} && 0 in Run(s0, es).jobs && Run(s0, es).jobs[0].status == Pending
    ensures Commit(0, 0) in Run(s0, es).commits
  {
    s0, es := OneClaim();
    Extend(s0, es, PersistAndAck(0));
    es := es + [PersistAndAck(0)];
    ghost var acked := es;
    assert AcksOf(acked, 0) >= 1;
    Extend(s0, es, LateFail(0));
    es := es + [LateFail(0)];
    assert es[..|acked|] == acked;
    VerdictsByPhase(s0, es, 0);
  }

  // Two claims: after a stale recovery two tickets are open, one acks and ends, and the other's
  // failure requeues the completed job.
  lemma CompletedCanBeUndone() returns (s0: State, es: seq<Event>)
    ensures Initial(s0) && Valid(s0, es) && |es| > 3 && es[|es| - 3..] == [PersistAndAck(1), Finish(1), FailOrRetry(0)]
    ensures 0 in Run(s0, es).jobs && Run(s0, es).jobs[0].status == Pending
    ensures Commit(0, 0) in Run(s0, es).commits
  {
    s0, es := OneClaim();
    Extend(s0, es, RecoverStale(0));
    es := es + [RecoverStale(0)];
    Extend(s0, es, ClaimJob(1, 0));
    es := es + [ClaimJob(1, 0)];
    Extend(s0, es, PersistAndAck(1));
    es := es + [PersistAndAck(1)];
    Extend(s0, es, Finish(1));
    es := es + [Finish(1)];
    Extend(s0, es, FailOrRetry(0));
    es := es + [FailOrRetry(0)];
  }
}
