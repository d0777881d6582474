// The worker's objects refine its protocol: each of their transactions is one of the protocol's
// events, and a claimed job handled to its end is a run of them.
module WorkerRefinement {
  import opened Common
  import opened RebuildRows
  import P = WorkerProtocol
  import opened Worker

  // The tables of one user hold what the protocol's state says: the rows of streamed reports, the
  // insight slots, and which reports have a result.
  ghost predicate Mirrors(t: Tables, user: nat, s: P.State) {
    && (forall report | report in s.fileRows :: RowsOf(t, report) == P.StoredOf(s, report))
    && (forall report :: SlotTaken(t.insights, user, report) <==> P.HasSlot(s.insights, report))
    && (forall report :: report in t.results <==> P.WasCommitted(s, report))
    && forall report | report in t.results && report in s.fileRows :: t.results[report] == s.fileRows[report]
  }

  predicate JobMirrors(j: JobRow, s: P.State) {
    && j.id in s.jobs
    && s.jobs[j.id].status == j.status && s.jobs[j.id].attempts == j.attempts
    && s.jobs[j.id].maxAttempts == j.maxAttempts
  }

  // The file is the one the protocol knows the report by.
  predicate IsFileOf(file: File, report: nat, s: P.State) {
    (file.Streamed? <==> report in s.fileRows) && (file.Streamed? ==> file.rowCount == s.fileRows[report])
  }

  predicate IsClaimOf(s: P.State, tk: nat, j: JobRow) {
    P.Working(s, tk) && s.open[tk].job == j.id
  }

  // ---------------------------------------------------------------- recovery

  // A recovered job is what the protocol's recovery event makes of it.
  lemma RecoveryRefines(s: P.State, j: JobRow, tenant: nat, now: Time)
    requires JobMirrors(j, s) && IsStuck(j, tenant, now)
    ensures P.Enabled(s, P.RecoverStale(j.id))
    ensures JobMirrors(RecoverIfStuck(j, tenant, now), P.Next(s, P.RecoverStale(j.id)))
  {
  }

  // ---------------------------------------------------------------- parsing

  // The state in which the claim has stored the rows before `upTo`, and nothing else has changed.
  function WithParsed(s: P.State, tk: nat, upTo: nat): P.State
    requires tk in s.open
  {
    var t := s.open[tk];
    s.(stored := if upTo == 0 then s.stored
                 else s.stored[t.report := P.StoredOf(s, t.report) + P.RowsFrom(0, upTo)],
       open := s.open[tk := t.(parsed := upTo)])
  }

  lemma OneChunk(s: P.State, tk: nat, parsed: nat, upTo: nat)
    requires P.Working(s, tk) && s.open[tk].report in s.fileRows
    requires parsed < s.fileRows[s.open[tk].report] && upTo == Min(parsed + P.CHUNK_ROWS, s.fileRows[s.open[tk].report])
    ensures P.Enabled(WithParsed(s, tk, parsed), P.ChunkStored(tk))
    ensures P.Next(WithParsed(s, tk, parsed), P.ChunkStored(tk)) == WithParsed(s, tk, upTo)
  {
    var t, before := s.open[tk], WithParsed(s, tk, parsed);
    var rows := P.StoredOf(s, t.report) + P.RowsFrom(0, upTo);
    assert P.RowsFrom(0, upTo) == P.RowsFrom(0, parsed) + P.RowsFrom(parsed, upTo);
    assert P.RowsFrom(0, 0) == {};
    assert P.StoredOf(before, t.report) + P.RowsFrom(parsed, upTo) == rows;
    assert before.stored[t.report := rows] == s.stored[t.report := rows];
  }

  // m chunk transactions are m events of the protocol, fewer if the file ends before.
  lemma {:induction false} ChunksRun(s: P.State, tk: nat, m: nat) returns (es: seq<P.Event>)
    requires P.Working(s, tk) && s.open[tk].parsed == 0 && s.open[tk].report in s.fileRows
    ensures P.Valid(s, es) && forall e | e in es :: e == P.ChunkStored(tk)
    ensures P.Run(s, es) == WithParsed(s, tk, Min(m * P.CHUNK_ROWS, s.fileRows[s.open[tk].report]))
  {
    var total := s.fileRows[s.open[tk].report];
    es := [];
    if m == 0 {
      assert s.open[tk := s.open[tk].(parsed := 0)] == s.open;
    } else {
      es := ChunksRun(s, tk, m - 1);
      var parsed: nat := Min((m - 1) * P.CHUNK_ROWS, total);
      if parsed < total {
        OneChunk(s, tk, parsed, Min(m * P.CHUNK_ROWS, total));
        P.Extend(s, es, P.ChunkStored(tk));
        es := es + [P.ChunkStored(tk)];
      }
    }
  }

  // Enough chunks for the whole file.
  function ChunksOf(file: File, stop: Option<nat>): nat {
    if stop.Some? then stop.value else file.rowCount
  }

  lemma ParseRefines(t: Tables, user: nat, s: P.State, tk: nat, file: File, stop: Option<nat>)
    returns (es: seq<P.Event>)
    requires Mirrors(t, user, s) && P.Working(s, tk) && s.open[tk].parsed == 0
    requires IsFileOf(file, s.open[tk].report, s)
    ensures P.Valid(s, es) && forall e | e in es :: e == P.ChunkStored(tk)
    ensures var u := P.Run(s, es);
            && Mirrors(AfterParse(t, s.open[tk].report, file, stop), user, u)
            && u.jobs == s.jobs && u.fileRows == s.fileRows && P.Working(u, tk)
            && u.open[tk] == s.open[tk].(parsed := u.open[tk].parsed)
            && (file.Streamed? && stop.None? ==> u.open[tk].parsed == file.rowCount)
  {
    var report := s.open[tk].report;
    if file.Streamed? {
      es := ChunksRun(s, tk, ChunksOf(file, stop));
      assert s.open[tk].(parsed := 0) == s.open[tk];
      ParsedMirrors(t, user, s, P.Run(s, es), report, file, stop);
    } else {
      es := [];
    }
  }

  lemma ParsedMirrors(t: Tables, user: nat, s: P.State, u: P.State, report: nat, file: File, stop: Option<nat>)
    requires Mirrors(t, user, s) && file.Streamed? && report in s.fileRows && file.rowCount == s.fileRows[report]
    requires u.fileRows == s.fileRows && u.insights == s.insights && u.commits == s.commits
    requires var upTo: nat := Min(ChunksOf(file, stop) * P.CHUNK_ROWS, file.rowCount);
             u.stored == if upTo == 0 then s.stored
                         else s.stored[report := P.StoredOf(s, report) + P.RowsFrom(0, upTo)]
    ensures Mirrors(AfterParse(t, report, file, stop), user, u)
  {
    var after := AfterParse(t, report, file, stop);
    assert after.insights == t.insights && after.results == t.results;
    assert forall r :: P.WasCommitted(u, r) <==> P.WasCommitted(s, r);
    forall r | r in u.fileRows ensures RowsOf(after, r) == P.StoredOf(u, r) {
      assert RowsOf(t, r) == P.StoredOf(s, r);
    }
  }

  // ---------------------------------------------------------------- the verdicts

  // The row counts agree exactly if the protocol lets the claim persist, once a stream was parsed to
  // its end.
  lemma CountsRefine(t: Tables, user: nat, s: P.State, tk: nat, file: File)
    requires Mirrors(t, user, s) && P.Working(s, tk) && IsFileOf(file, s.open[tk].report, s)
    requires file.Streamed? ==> s.open[tk].parsed == file.rowCount > 0
    ensures CountsAgree(t, s.open[tk].report, file) ==> P.Enabled(s, P.PersistAndAck(tk))
    ensures !file.Whole? ==> (CountsAgree(t, s.open[tk].report, file) <==> P.Enabled(s, P.PersistAndAck(tk)))
  {
  }

  lemma PersistRefines(t: Tables, s: P.State, tk: nat, j: JobRow, file: File, now: Time)
    requires Mirrors(t, j.tenant, s) && JobMirrors(j, s) && IsClaimOf(s, tk, j)
    requires IsFileOf(file, s.open[tk].report, s) && P.Enabled(s, P.PersistAndAck(tk))
    ensures Mirrors(Persisted(t, j.tenant, s.open[tk].report, j.id, file), j.tenant, P.Next(s, P.PersistAndAck(tk)))
    ensures JobMirrors(Acknowledged(j, now), P.Next(s, P.PersistAndAck(tk)))
  {
    var report := s.open[tk].report;
    var after, u := Persisted(t, j.tenant, report, j.id, file), P.Next(s, P.PersistAndAck(tk));
    forall r ensures SlotTaken(after.insights, j.tenant, r) <==> P.HasSlot(u.insights, r) {
      SlotsAfterPersist(t, s, tk, j, file, r);
    }
    forall r ensures r in after.results <==> P.WasCommitted(u, r) {
      P.CommitIsLogged(s, tk, r);
    }
  }

  lemma SlotsAfterPersist(t: Tables, s: P.State, tk: nat, j: JobRow, file: File, r: nat)
    requires Mirrors(t, j.tenant, s) && P.Enabled(s, P.PersistAndAck(tk))
    ensures SlotTaken(Persisted(t, j.tenant, s.open[tk].report, j.id, file).insights, j.tenant, r)
            <==> P.HasSlot(P.Next(s, P.PersistAndAck(tk)).insights, r)
  {
    var report := s.open[tk].report;
    var added := AiInsight(j.tenant, SUMMARY_KIND, Some(report), Some(j.id));
    P.SlotSnoc(s.insights, P.InsightOf(report), r);
    TakenSnoc(t.insights, added, j.tenant, r);
    assert SlotTaken(t.insights, j.tenant, report) <==> P.HasSlot(s.insights, report);
  }

  lemma TakenSnoc(rows: seq<AiInsight>, added: AiInsight, user: nat, report: nat)
    ensures SlotTaken(rows + [added], user, report)
            <==> SlotTaken(rows, user, report) || NamesReport(added, user, report)
  {
    var next := rows + [added];
    assert next[|rows|] == added;
    if i :| 0 <= i < |rows| && NamesReport(rows[i], user, report) {
      assert next[i] == rows[i];
    }
  }

  // The protocol's way of failing a claim of the job, in whatever phase it is.
  predicate Fails(e: P.Event, tk: nat) {
    e == P.FailOrRetry(tk) || e == P.FailMissing(tk) || e == P.LateFail(tk)
  }

  lemma FailRefines(t: Tables, user: nat, s: P.State, e: P.Event, tk: nat, j: JobRow, after: JobRow)
    requires Mirrors(t, user, s) && JobMirrors(j, s) && Fails(e, tk) && P.Enabled(s, e) && s.open[tk].job == j.id
    requires after == j.(status := after.status, lastError := after.lastError, claimedAt := after.claimedAt,
                         processingStartedAt := after.processingStartedAt, lastHeartbeatAt := after.lastHeartbeatAt)
    requires after.status == if s.open[tk].attempts >= s.open[tk].maxAttempts then P.DeadLetter else P.Pending
    ensures Mirrors(t, user, P.Next(s, e)) && JobMirrors(after, P.Next(s, e))
  {
    var u := P.Next(s, e);
    assert u.insights == s.insights && u.commits == s.commits && u.stored == s.stored && u.fileRows == s.fileRows;
    assert forall r :: P.WasCommitted(u, r) <==> P.WasCommitted(s, r);
  }

  // The end of a claim that changes nothing.
  lemma EndRefines(t: Tables, user: nat, s: P.State, e: P.Event, j: JobRow)
    requires Mirrors(t, user, s) && JobMirrors(j, s) && (e.Finish? || e.Vanish?) && P.Enabled(s, e)
    ensures Mirrors(t, user, P.Next(s, e)) && JobMirrors(j, P.Next(s, e))
  {
    assert forall r :: P.WasCommitted(P.Next(s, e), r) <==> P.WasCommitted(s, r);
  }

  // ---------------------------------------------------------------- a claimed job as a run

  // How the protocol records the end of the claim.
  ghost predicate EndsAs(es: seq<P.Event>, tk: nat, verdict: Verdict) {
    match verdict
    case Acked => |es| >= 2 && es[|es| - 2..] == [P.PersistAndAck(tk), P.Finish(tk)]
    case AckedThenFailed => |es| >= 2 && es[|es| - 2..] == [P.PersistAndAck(tk), P.LateFail(tk)]
    case FailedOrRetried => es != [] && es[|es| - 1] == P.FailOrRetry(tk)
    case NoVerdict => es != [] && es[|es| - 1] == P.Vanish(tk)
  }

  lemma AckLogged(s: P.State, es: seq<P.Event>, t: Tables, tk: nat, j: JobRow, file: File, now: Time)
    returns (log: seq<P.Event>, v: P.State)
    requires P.Valid(s, es) && Mirrors(t, j.tenant, P.Run(s, es)) && JobMirrors(j, P.Run(s, es))
    requires var u := P.Run(s, es);
             IsClaimOf(u, tk, j) && IsFileOf(file, u.open[tk].report, u) && P.Enabled(u, P.PersistAndAck(tk))
    ensures log == es + [P.PersistAndAck(tk)] && P.Valid(s, log) && v == P.Run(s, log)
    ensures var u := P.Run(s, es);
            && P.Settled(v, tk) && v.open[tk] == u.open[tk].(settled := true)
            && Mirrors(Persisted(t, j.tenant, u.open[tk].report, j.id, file), j.tenant, v)
    ensures JobMirrors(Acknowledged(j, now), v)
  {
    PersistRefines(t, P.Run(s, es), tk, j, file, now);
    P.Extend(s, es, P.PersistAndAck(tk));
    log := es + [P.PersistAndAck(tk)];
    v := P.Run(s, log);
  }

  lemma CommitEnds(s: P.State, es: seq<P.Event>, t: Tables, tk: nat, j: JobRow, after: JobRow, file: File,
                   now: Time, failed: bool) returns (log: seq<P.Event>)
    requires P.Valid(s, es) && Mirrors(t, j.tenant, P.Run(s, es)) && JobMirrors(j, P.Run(s, es))
    requires var u := P.Run(s, es);
             && IsClaimOf(u, tk, j) && IsFileOf(file, u.open[tk].report, u)
             && P.Enabled(u, P.PersistAndAck(tk))
             && (failed ==> after.status
                            == if u.open[tk].attempts >= u.open[tk].maxAttempts then P.DeadLetter else P.Pending)
             && (!failed ==> after == Acknowledged(j, now))
    requires after.id == j.id && after.tenant == j.tenant && after.visibilitySeconds == j.visibilitySeconds
    requires after.attempts == j.attempts && after.maxAttempts == j.maxAttempts
    ensures P.Valid(s, log) && es <= log && EndsAs(log, tk, if failed then AckedThenFailed else Acked)
    ensures var report := P.Run(s, es).open[tk].report;
            Mirrors(Persisted(t, j.tenant, report, j.id, file), j.tenant, P.Run(s, log))
    ensures JobMirrors(after, P.Run(s, log))
  {
    var persisted := Persisted(t, j.tenant, P.Run(s, es).open[tk].report, j.id, file);
    var acked, v := AckLogged(s, es, t, tk, j, file, now);
    var last := if failed then P.LateFail(tk) else P.Finish(tk);
    if failed {
      FailRefines(persisted, j.tenant, v, last, tk, Acknowledged(j, now), after);
    } else {
      EndRefines(persisted, j.tenant, v, last, after);
    }
    P.Extend(s, acked, last);
    log := acked + [last];
  }

  lemma FailEnds(s: P.State, es: seq<P.Event>, t: Tables, tk: nat, j: JobRow, after: JobRow, failed: bool)
    returns (log: seq<P.Event>)
    requires P.Valid(s, es) && Mirrors(t, j.tenant, P.Run(s, es)) && JobMirrors(j, P.Run(s, es))
    requires var u := P.Run(s, es);
             && IsClaimOf(u, tk, j)
             && (failed ==> after.status
                            == if u.open[tk].attempts >= u.open[tk].maxAttempts then P.DeadLetter else P.Pending)
             && (!failed ==> after == j)
    requires after.id == j.id && after.tenant == j.tenant && after.visibilitySeconds == j.visibilitySeconds
    requires after.attempts == j.attempts && after.maxAttempts == j.maxAttempts
    ensures P.Valid(s, log) && es <= log && EndsAs(log, tk, if failed then FailedOrRetried else NoVerdict)
    ensures Mirrors(t, j.tenant, P.Run(s, log)) && JobMirrors(after, P.Run(s, log))
  {
    var last := if failed then P.FailOrRetry(tk) else P.Vanish(tk);
    if failed {
      FailRefines(t, j.tenant, P.Run(s, es), last, tk, j, after);
    } else {
      EndRefines(t, j.tenant, P.Run(s, es), last, after);
    }
    P.Extend(s, es, last);
    log := es + [last];
  }

  // A claimed job handled to its end, seen as a run of the protocol: chunk events while parsing, then
  // the events of its verdict, and tables and job as that run leaves them. Each transaction is an
  // event of its own, so the theorems about interleaved runs are about these transactions. Where
  // the persist block itself fails a job whose report is gone, the run records it as one failure.
  method ProcessAsRun(db: Database, job: EtlJob, ticket: P.Ticket, tenantAllowed: bool, file: File,
                      stop: Option<nat>, shutdown: bool, reportExists: bool, userExists: bool,
                      fault: Option<Stage>, userAtHandler: bool, now: Time, retryAt: Time,
                      ghost s: P.State, ghost tk: nat)
    returns (verdict: Verdict, ghost log: seq<P.Event>)
    requires Mirrors(db.View(), job.tenant, s) && JobMirrors(job.View(), s)
    requires IsClaimOf(s, tk, job.View()) && s.open[tk] == ticket && ticket.parsed == 0
    requires IsFileOf(file, ticket.report, s)
    modifies db, job
    ensures P.Valid(s, log) && EndsAs(log, tk, verdict)
    ensures Mirrors(db.View(), job.tenant, P.Run(s, log)) && JobMirrors(job.View(), P.Run(s, log))
  {
    ghost var t, j := db.View(), job.View();
    ghost var es := [];
    ghost var parsed := t;
    if tenantAllowed {
      es := ParseRefines(t, job.tenant, s, tk, file, stop);
      parsed := AfterParse(t, ticket.report, file, stop);
    }
    verdict := ProcessClaimedJob(db, job, ticket, tenantAllowed, file, stop, shutdown, reportExists, userExists,
                                 fault, userAtHandler, now, retryAt);
    if verdict in {Acked, AckedThenFailed} {
      CountsRefine(parsed, job.tenant, P.Run(s, es), tk, file);
      log := CommitEnds(s, es, parsed, tk, j, job.View(), file, now, verdict == AckedThenFailed);
    } else {
      log := FailEnds(s, es, parsed, tk, j, job.View(), verdict == FailedOrRetried);
    }
  }
}
