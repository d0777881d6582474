// The maintenance pass: stale RUNNING rows are reset tenant by tenant, then rows without a backoff
// get one (app/operations/recovery.py, app/runtime/retry_supervisor.py).
module Maintenance {
  import opened Common
  import opened RebuildRows
  import opened Orchestration
  import opened FairBatch
  import P = RebuildProtocol
  import W = Worker

  // ---------------------------------------------------------------- specification on row values

  // The code reads the clock once per tenant for the cutoff and once per row for the new schedule:
  // `sampled` gives the reading by tenant, `clock` by row id. Each is read at most once in a pass.
  function StaleBefore(cutoffs: nat -> Time): Row -> bool {
    (r: Row) => IsStale(r, cutoffs(r.tenant))
  }

  function WithoutBackoff(): Row -> bool {
    (r: Row) => LacksBackoff(r)
  }

  function Poison(): Row -> bool {
    (r: Row) => IsPoison(r)
  }

  function Cutoffs(staleSeconds: int, sampled: nat -> Time): nat -> Time {
    (tenant: nat) => sampled(tenant) - SECOND * staleSeconds
  }

  // A clock that shows the same instant at every reading.
  function Still(now: Time): nat -> Time {
    (_: nat) => now
  }

  // A predicate restricted to the rows of some tenants.
  function Within(tenants: seq<nat>, p: Row -> bool): Row -> bool {
    (r: Row) => r.tenant in tenants && p(r)
  }

  function ResetRow(cutoffs: nat -> Time, clock: nat -> Time): Row -> Row {
    (r: Row) => ResetIfStale(r, cutoffs(r.tenant), clock(r.id))
  }

  function BackoffRow(clock: nat -> Time): Row -> Row {
    (r: Row) => FillBackoff(r, clock(r.id))
  }

  // The row functions above, applied.
  lemma Applied(r: Row, cutoffs: nat -> Time, clock: nat -> Time)
    ensures ResetRow(cutoffs, clock)(r) == ResetIfStale(r, cutoffs(r.tenant), clock(r.id))
    ensures BackoffRow(clock)(r) == FillBackoff(r, clock(r.id))
    ensures StaleBefore(cutoffs)(r) == IsStale(r, cutoffs(r.tenant))
  {
  }

  function PatchRow(r: Row, p: Row -> bool, f: Row -> Row): Row {
    if p(r) then f(r) else r
  }

  // f on the rows that satisfy p, the identity elsewhere.
  function Patch(rows: seq<Row>, p: Row -> bool, f: Row -> Row): seq<Row> {
    seq(|rows|, i requires 0 <= i < |rows| => PatchRow(rows[i], p, f))
  }

  function ResetAll(rows: seq<Row>, cutoffs: nat -> Time, clock: nat -> Time): seq<Row> {
    Patch(rows, StaleBefore(cutoffs), ResetRow(cutoffs, clock))
  }

  function BackoffAll(rows: seq<Row>, clock: nat -> Time): seq<Row> {
    Patch(rows, WithoutBackoff(), BackoffRow(clock))
  }

  function MaintainAll(rows: seq<Row>, cutoffs: nat -> Time, clock: nat -> Time): seq<Row> {
    BackoffAll(ResetAll(rows, cutoffs, clock), clock)
  }

  function ChangedCount(before: seq<Row>, after: seq<Row>): nat
    requires |before| == |after|
  {
    if before == [] then 0
    else
      var n := |before| - 1;
      ChangedCount(before[..n], after[..n]) + (if before[n] != after[n] then 1 else 0)
  }

  lemma {:induction false} CountNone(rows: seq<Row>, p: Row -> bool)
    requires forall r | r in rows :: !p(r)
    ensures CountIf(rows, p) == 0
  {
    if rows != [] {
      CountNone(rows[..|rows| - 1], p);
    }
  }

  lemma {:induction false} PatchChanges(rows: seq<Row>, p: Row -> bool, f: Row -> Row)
    requires forall r | p(r) :: f(r) != r
    ensures ChangedCount(rows, Patch(rows, p, f)) == CountIf(rows, p)
  {
    if rows != [] {
      var n := |rows| - 1;
      assert Patch(rows, p, f)[..n] == Patch(rows[..n], p, f);
      PatchChanges(rows[..n], p, f);
    }
  }

  // What the two passes leave alone: attempt counts, rebuild flags, and every row that neither of
  // them matches.
  lemma MaintenanceFrame(r: Row, cutoff: Time, now: Time)
    ensures var m := FillBackoff(ResetIfStale(r, cutoff, now), now);
            && m.attempts == r.attempts && m.requiresRebuild == r.requiresRebuild
            && m.maxAttempts == r.maxAttempts && m.mode == r.mode && m.startedAt == r.startedAt
            && (!IsStale(r, cutoff) && !LacksBackoff(r) ==> m == r)
            && (m != r <==> IsStale(r, cutoff) || LacksBackoff(r))
            && !IsStale(m, cutoff) && !LacksBackoff(m)
  {
  }

  // With the cutoffs held still a second pass over any table finds nothing to do, whatever its other
  // readings: both counters are zero and every row stays as the first pass left it. The first
  // pass's counters are the numbers of rows its two steps changed, and together the number of rows
  // that differ at the end.
  lemma MaintenanceFixpoint(rows: seq<Row>, cutoffs: nat -> Time, clock: nat -> Time, later: nat -> Time)
    ensures var once := MaintainAll(rows, cutoffs, clock);
            && CountIf(once, StaleBefore(cutoffs)) == 0
            && CountIf(ResetAll(once, cutoffs, later), WithoutBackoff()) == 0
            && MaintainAll(once, cutoffs, later) == once
    ensures CountIf(rows, StaleBefore(cutoffs)) == ChangedCount(rows, ResetAll(rows, cutoffs, clock))
    ensures var reset := ResetAll(rows, cutoffs, clock);
            CountIf(reset, WithoutBackoff()) == ChangedCount(reset, MaintainAll(rows, cutoffs, clock))
    ensures CountIf(rows, StaleBefore(cutoffs)) + CountIf(ResetAll(rows, cutoffs, clock), WithoutBackoff())
            == ChangedCount(rows, MaintainAll(rows, cutoffs, clock))
  {
    var once := MaintainAll(rows, cutoffs, clock);
    forall i | 0 <= i < |rows| ensures !StaleBefore(cutoffs)(once[i]) && !LacksBackoff(once[i]) {
      MaintenanceFrame(rows[i], cutoffs(rows[i].tenant), clock(rows[i].id));
    }
    CountNone(once, StaleBefore(cutoffs));
    assert ResetAll(once, cutoffs, later) == once;
    CountNone(once, WithoutBackoff());
    assert BackoffAll(once, later) == once;
    forall r: Row
      ensures StaleBefore(cutoffs)(r) ==> ResetRow(cutoffs, clock)(r) != r
      ensures LacksBackoff(r) ==> BackoffRow(clock)(r) != r
    {
      Applied(r, cutoffs, clock);
    }
    PatchChanges(rows, StaleBefore(cutoffs), ResetRow(cutoffs, clock));
    PatchChanges(ResetAll(rows, cutoffs, clock), WithoutBackoff(), BackoffRow(clock));
    ChangesAddUp(rows, cutoffs, clock);
  }

  lemma {:induction false} ChangesAddUp(rows: seq<Row>, cutoffs: nat -> Time, clock: nat -> Time)
    ensures ChangedCount(rows, ResetAll(rows, cutoffs, clock))
            + ChangedCount(ResetAll(rows, cutoffs, clock), MaintainAll(rows, cutoffs, clock))
            == ChangedCount(rows, MaintainAll(rows, cutoffs, clock))
  {
    if rows != [] {
      var n := |rows| - 1;
      ChangesAddUp(rows[..n], cutoffs, clock);
      assert ResetAll(rows, cutoffs, clock)[..n] == ResetAll(rows[..n], cutoffs, clock);
      assert MaintainAll(rows, cutoffs, clock)[..n] == MaintainAll(rows[..n], cutoffs, clock);
    }
  }

  // ---------------------------------------------------------------- what the passes mean

  // A reset changes exactly the rows of the given tenants that have been RUNNING for longer than the
  // stale limit at their tenant's reading of the clock, and defers each for its backoff.
  lemma ResetMeaning(rows: seq<Row>, tenants: seq<nat>, staleSeconds: int, sampled: nat -> Time, clock: nat -> Time,
                     i: nat)
    requires i < |rows|
    ensures var cutoffs := Cutoffs(staleSeconds, sampled);
            var r, after := rows[i], Patch(rows, Within(tenants, StaleBefore(cutoffs)), ResetRow(cutoffs, clock))[i];
            && (after != r <==> && r.tenant in tenants && r.status == Running && r.startedAt.Some?
                                && r.startedAt.value + SECOND * staleSeconds < sampled(r.tenant))
            && (after != r ==>
                  && after.status == Deferred && after.attempts == r.attempts
                  && after.requiresRebuild == r.requiresRebuild && after.startedAt == r.startedAt
                  && after.nextEligibleAt == Some(clock(r.id) + SECOND * Min(30 * Pow2(r.attempts), 3600)))
  {
    Applied(rows[i], Cutoffs(staleSeconds, sampled), clock);
  }

  // A backoff is given to exactly the open rows of the given tenants that have attempts left and no
  // wait yet.
  lemma BackoffMeaning(rows: seq<Row>, tenants: seq<nat>, clock: nat -> Time, i: nat)
    requires i < |rows|
    ensures var r, after := rows[i], Patch(rows, Within(tenants, WithoutBackoff()), BackoffRow(clock))[i];
            && (after != r <==> && r.tenant in tenants && r.requiresRebuild && r.status in {Deferred, Failed, Pending}
                                && r.attempts < r.maxAttempts && r.nextEligibleAt == None)
            && (after != r ==>
                  && after.status == (if r.status == Failed then Deferred else r.status)
                  && after.attempts == r.attempts && after.requiresRebuild
                  && after.nextEligibleAt == Some(clock(r.id) + SECOND * Min(30 * Pow2(r.attempts), 3600)))
  {
    Applied(rows[i], clock, clock);
  }

  // The list holds the rows of the protocol's table.
  ghost predicate Mirrors(rows: seq<Row>, table: map<nat, Row>) {
    && (forall i | 0 <= i < |rows| :: rows[i].id in table && table[rows[i].id] == rows[i])
    && forall id | id in table :: exists i :: 0 <= i < |rows| && rows[i].id == id
  }

  lemma MirrorsStep(rows: seq<Row>, table: map<nat, Row>, p: Row -> bool, f: Row -> Row, after: map<nat, Row>)
    requires Mirrors(rows, table) && after.Keys == table.Keys
    requires forall r | r in rows :: f(r).id == r.id
    requires forall r | r in rows :: after[r.id] == PatchRow(r, p, f)
    ensures Mirrors(Patch(rows, p, f), after)
  {
    var patched := Patch(rows, p, f);
    forall i | 0 <= i < |patched| ensures patched[i].id in after && after[patched[i].id] == patched[i] {
      assert rows[i] in rows;
    }
    forall id | id in after ensures exists i :: 0 <= i < |patched| && patched[i].id == id {
      var i :| 0 <= i < |rows| && rows[i].id == id;
      assert rows[i] in rows && patched[i].id == id;
    }
  }

  // One tenant's reset is the protocol's event, with the same earlier reading for the cutoff.
  lemma ResetRefines(cfg: P.Config, s: P.State, rows: seq<Row>, tenant: nat, sampledAt: Time)
    requires Mirrors(rows, s.rows) && sampledAt <= s.now
    ensures var cutoffs := Cutoffs(cfg.staleSeconds, Still(sampledAt));
            Mirrors(Patch(rows, Within([tenant], StaleBefore(cutoffs)), ResetRow(cutoffs, Still(s.now))),
                    P.Next(cfg, s, P.StaleReset(tenant, sampledAt)).rows)
  {
    var cutoffs := Cutoffs(cfg.staleSeconds, Still(sampledAt));
    forall r | r in rows ensures ResetRow(cutoffs, Still(s.now))(r) == ResetIfStale(r, cutoffs(r.tenant), s.now) {
      Applied(r, cutoffs, Still(s.now));
    }
    MirrorsStep(rows, s.rows, Within([tenant], StaleBefore(cutoffs)), ResetRow(cutoffs, Still(s.now)),
                P.Next(cfg, s, P.StaleReset(tenant, sampledAt)).rows);
  }

  lemma BackoffRefines(cfg: P.Config, s: P.State, rows: seq<Row>, tenant: nat)
    requires Mirrors(rows, s.rows)
    ensures Mirrors(Patch(rows, Within([tenant], WithoutBackoff()), BackoffRow(Still(s.now))),
                    P.Next(cfg, s, P.BackoffFilled(tenant)).rows)
  {
    forall r | r in rows ensures BackoffRow(Still(s.now))(r) == FillBackoff(r, s.now) {
      Applied(r, Still(s.now), Still(s.now));
    }
    MirrorsStep(rows, s.rows, Within([tenant], WithoutBackoff()), BackoffRow(Still(s.now)),
                P.Next(cfg, s, P.BackoffFilled(tenant)).rows);
  }

  // ---------------------------------------------------------------- the passes over stored rows

  ghost predicate Distinct(table: seq<SnapshotRebuildRequirement>) {
    forall i, j | 0 <= i < j < |table| :: table[i] != table[j]
  }

  function Views(table: seq<SnapshotRebuildRequirement>): (rows: seq<Row>)
    reads table
    ensures |rows| == |table| && forall i | 0 <= i < |table| :: rows[i] == table[i].View()
  {
    seq(|table|, i requires 0 <= i < |table| reads table => table[i].View())
  }

  lemma ViewsPatched(table: seq<SnapshotRebuildRequirement>, before: seq<Row>, p: Row -> bool, f: Row -> Row)
    requires |table| == |before|
    requires forall k | 0 <= k < |table| :: table[k].View() == PatchRow(before[k], p, f)
    ensures Views(table) == Patch(before, p, f)
  {
  }

  lemma CountNext(rows: seq<Row>, i: nat, p: Row -> bool)
    requires i < |rows|
    ensures CountIf(rows[..i + 1], p) == CountIf(rows[..i], p) + (if p(rows[i]) then 1 else 0)
  {
    assert rows[..i + 1][..i] == rows[..i];
  }

  method ResetRunning(row: SnapshotRebuildRequirement, tenant: nat, cutoffs: nat -> Time, clock: nat -> Time)
    returns (matched: bool)
    modifies row
    ensures row.View() == PatchRow(old(row.View()), Within([tenant], StaleBefore(cutoffs)), ResetRow(cutoffs, clock))
    ensures matched == Within([tenant], StaleBefore(cutoffs))(old(row.View()))
  {
    Applied(row.View(), cutoffs, clock);
    matched := row.tenant == tenant && row.orchestrationStatus == Running
               && row.startedAt.Some? && row.startedAt.value < cutoffs(tenant);
    if matched {
      row.orchestrationStatus := Deferred;
      row.lastError := Some(STALE_ERROR);
      row.nextEligibleAt := Some(NextEligibleAt(row.attemptCount, clock(row.id)));
    }
  }

  method ResetStaleRunningRebuilds(table: seq<SnapshotRebuildRequirement>, tenant: nat, staleSeconds: int,
                                   sampled: nat -> Time, clock: nat -> Time)
    returns (count: nat)
    requires Distinct(table)
    modifies table
    ensures var cutoffs := Cutoffs(staleSeconds, sampled);
            && Views(table)
               == Patch(old(Views(table)), Within([tenant], StaleBefore(cutoffs)), ResetRow(cutoffs, clock))
            && count == CountIf(old(Views(table)), Within([tenant], StaleBefore(cutoffs)))
  {
    var cutoffs := Cutoffs(staleSeconds, sampled);
    ghost var before := Views(table);
    ghost var p, f := Within([tenant], StaleBefore(cutoffs)), ResetRow(cutoffs, clock);
    count := 0;
    for i := 0 to |table|
      invariant forall k | 0 <= k < |table| :: table[k].View() == if k < i then PatchRow(before[k], p, f) else before[k]
      invariant count == CountIf(before[..i], p)
    {
      CountNext(before, i, p);
      var matched := ResetRunning(table[i], tenant, cutoffs, clock);
      if matched {
        count := count + 1;
      }
    }
    assert before[..|table|] == before;
    ViewsPatched(table, before, p, f);
  }

  // The loop tests the budget and the missing time once more, as the query's filter already did.
  method ScheduleBackoff(row: SnapshotRebuildRequirement, tenant: nat, clock: nat -> Time) returns (matched: bool)
    modifies row
    ensures row.View() == PatchRow(old(row.View()), Within([tenant], WithoutBackoff()), BackoffRow(clock))
    ensures matched == Within([tenant], WithoutBackoff())(old(row.View()))
  {
    matched := false;
    if row.tenant == tenant && row.requiresRebuild
       && row.orchestrationStatus in {Deferred, Failed, Pending} && row.attemptCount < row.maxAttempts {
      if row.nextEligibleAt == None && row.attemptCount < row.maxAttempts {
        row.nextEligibleAt := Some(NextEligibleAt(row.attemptCount, clock(row.id)));
        if row.orchestrationStatus == Failed {
          row.orchestrationStatus := Deferred;
        }
        matched := true;
      }
    }
  }

  method ApplyRebuildRetryBackoff(table: seq<SnapshotRebuildRequirement>, tenant: nat, clock: nat -> Time)
    returns (updated: nat)
    requires Distinct(table)
    modifies table
    ensures Views(table) == Patch(old(Views(table)), Within([tenant], WithoutBackoff()), BackoffRow(clock))
    ensures updated == CountIf(old(Views(table)), Within([tenant], WithoutBackoff()))
  {
    ghost var before := Views(table);
    ghost var p, f := Within([tenant], WithoutBackoff()), BackoffRow(clock);
    updated := 0;
    for i := 0 to |table|
      invariant forall k | 0 <= k < |table| :: table[k].View() == if k < i then PatchRow(before[k], p, f) else before[k]
      invariant updated == CountIf(before[..i], p)
    {
      CountNext(before, i, p);
      var matched := ScheduleBackoff(table[i], tenant, clock);
      if matched {
        updated := updated + 1;
      }
    }
    assert before[..|table|] == before;
    ViewsPatched(table, before, p, f);
  }

  // SELECT DISTINCT user_id of the rows that satisfy p.
  function DistinctTenants(rows: seq<Row>, p: Row -> bool): (ts: seq<nat>)
    ensures forall i, j | 0 <= i < j < |ts| :: ts[i] != ts[j]
    ensures forall t :: t in ts <==> exists r :: r in rows && p(r) && r.tenant == t
  {
    if rows == [] then []
    else
      var n := |rows| - 1;
      var front := DistinctTenants(rows[..n], p);
      assert rows == rows[..n] + [rows[n]];
      if p(rows[n]) && rows[n].tenant !in front then front + [rows[n].tenant] else front
  }

  lemma {:induction false} CountGrows(rows: seq<Row>, done: seq<nat>, t: nat, p: Row -> bool)
    requires t !in done
    ensures CountIf(rows, Within(done + [t], p)) == CountIf(rows, Within(done, p)) + CountIf(rows, Within([t], p))
  {
    if rows != [] {
      CountGrows(rows[..|rows| - 1], done, t, p);
    }
  }

  ghost predicate KeepsTenant(f: Row -> Row) {
    forall r :: f(r).tenant == r.tenant
  }

  lemma TransitionsKeepTenant(cutoffs: nat -> Time, clock: nat -> Time)
    ensures KeepsTenant(ResetRow(cutoffs, clock)) && KeepsTenant(BackoffRow(clock))
  {
    forall r: Row ensures ResetRow(cutoffs, clock)(r).tenant == BackoffRow(clock)(r).tenant == r.tenant {
      Applied(r, cutoffs, clock);
    }
  }

  lemma {:induction false} CountUnderPatch(rows: seq<Row>, done: seq<nat>, t: nat, p: Row -> bool, f: Row -> Row)
    requires t !in done && KeepsTenant(f)
    ensures CountIf(Patch(rows, Within(done, p), f), Within([t], p)) == CountIf(rows, Within([t], p))
  {
    if rows != [] {
      var n := |rows| - 1;
      assert Patch(rows, Within(done, p), f)[..n] == Patch(rows[..n], Within(done, p), f);
      CountUnderPatch(rows[..n], done, t, p, f);
    }
  }

  // Processing the next tenant extends the patch, and the count by that tenant's rows.
  lemma NextTenant(rows: seq<Row>, ts: seq<nat>, i: nat, p: Row -> bool, f: Row -> Row)
    requires i < |ts| && (forall j, k | 0 <= j < k < |ts| :: ts[j] != ts[k]) && KeepsTenant(f)
    ensures var soFar := Patch(rows, Within(ts[..i], p), f);
            && Patch(soFar, Within([ts[i]], p), f) == Patch(rows, Within(ts[..i + 1], p), f)
            && CountIf(rows, Within(ts[..i], p)) + CountIf(soFar, Within([ts[i]], p))
               == CountIf(rows, Within(ts[..i + 1], p))
  {
    assert ts[..i + 1] == ts[..i] + [ts[i]];
    assert ts[i] !in ts[..i];
    CountUnderPatch(rows, ts[..i], ts[i], p, f);
    CountGrows(rows, ts[..i], ts[i], p);
  }

  lemma {:induction false} AllTenants(rows: seq<Row>, done: seq<nat>, p: Row -> bool, f: Row -> Row)
    requires forall r | r in rows && p(r) :: r.tenant in done
    ensures CountIf(rows, Within(done, p)) == CountIf(rows, p)
    ensures Patch(rows, Within(done, p), f) == Patch(rows, p, f)
  {
    if rows != [] {
      var n := |rows| - 1;
      assert rows == rows[..n] + [rows[n]];
      AllTenants(rows[..n], done, p, f);
      assert rows[n] in rows;
      forall i | 0 <= i < |rows| ensures Patch(rows, Within(done, p), f)[i] == Patch(rows, p, f)[i] {
        assert rows[i] in rows;
      }
    }
  }

  lemma NoTenant(rows: seq<Row>, p: Row -> bool, f: Row -> Row)
    ensures Patch(rows, Within([], p), f) == rows && CountIf(rows, Within([], p)) == 0
  {
    CountNone(rows, Within([], p));
  }

  lemma DistinctTenantsCover(rows: seq<Row>, p: Row -> bool, f: Row -> Row)
    ensures CountIf(rows, Within(DistinctTenants(rows, p), p)) == CountIf(rows, p)
    ensures Patch(rows, Within(DistinctTenants(rows, p), p), f) == Patch(rows, p, f)
  {
    forall r | r in rows && p(r) ensures r.tenant in DistinctTenants(rows, p) {
    }
    AllTenants(rows, DistinctTenants(rows, p), p, f);
  }

  // The tenants found by the query with its own reading of the clock.
  function StaleTenants(rows: seq<Row>, staleSeconds: int, foundAt: Time): seq<nat> {
    DistinctTenants(rows, StaleBefore(Cutoffs(staleSeconds, Still(foundAt))))
  }

  lemma StaleTenantsMeaning(rows: seq<Row>, staleSeconds: int, foundAt: Time, tenant: nat)
    ensures tenant in StaleTenants(rows, staleSeconds, foundAt) <==>
              exists r :: r in rows && r.tenant == tenant && r.status == Running && r.startedAt.Some?
                          && r.startedAt.value + SECOND * staleSeconds < foundAt
  {
    var p := StaleBefore(Cutoffs(staleSeconds, Still(foundAt)));
    forall r: Row ensures p(r) <==> r.status == Running && r.startedAt.Some?
                                    && r.startedAt.value + SECOND * staleSeconds < foundAt
    {
      Applied(r, Cutoffs(staleSeconds, Still(foundAt)), Still(foundAt));
    }
  }

  // Only the tenants found stale are visited, each with its own cutoff; all their rows that are
  // stale by then are reset once and counted once.
  method ResetStaleRunningGlobally(table: seq<SnapshotRebuildRequirement>, staleSeconds: int, foundAt: Time,
                                   sampled: nat -> Time, clock: nat -> Time)
    returns (total: nat)
    requires Distinct(table)
    modifies table
    ensures var p := Within(StaleTenants(old(Views(table)), staleSeconds, foundAt),
                            StaleBefore(Cutoffs(staleSeconds, sampled)));
            && Views(table) == Patch(old(Views(table)), p, ResetRow(Cutoffs(staleSeconds, sampled), clock))
            && total == CountIf(old(Views(table)), p)
  {
    ghost var before := Views(table);
    ghost var cutoffs := Cutoffs(staleSeconds, sampled);
    ghost var p, f := StaleBefore(cutoffs), ResetRow(cutoffs, clock);
    var tenants := StaleTenants(Views(table), staleSeconds, foundAt);
    total := 0;
    NoTenant(before, p, f);
    TransitionsKeepTenant(cutoffs, clock);
    for i := 0 to |tenants|
      invariant Views(table) == Patch(before, Within(tenants[..i], p), f)
      invariant total == CountIf(before, Within(tenants[..i], p))
    {
      NextTenant(before, tenants, i, p, f);
      var count := ResetStaleRunningRebuilds(table, tenants[i], staleSeconds, sampled, clock);
      total := total + count;
    }
    assert tenants[..|tenants|] == tenants;
  }

  method ApplyMissingBackoff(table: seq<SnapshotRebuildRequirement>, clock: nat -> Time) returns (updated: nat)
    requires Distinct(table)
    modifies table
    ensures Views(table) == BackoffAll(old(Views(table)), clock)
    ensures updated == CountIf(old(Views(table)), WithoutBackoff())
  {
    ghost var before := Views(table);
    ghost var p, f := WithoutBackoff(), BackoffRow(clock);
    var tenants := DistinctTenants(Views(table), WithoutBackoff());
    updated := 0;
    NoTenant(before, p, f);
    TransitionsKeepTenant(clock, clock);
    for i := 0 to |tenants|
      invariant Views(table) == Patch(before, Within(tenants[..i], p), f)
      invariant updated == CountIf(before, Within(tenants[..i], p))
    {
      NextTenant(before, tenants, i, p, f);
      var count := ApplyRebuildRetryBackoff(table, tenants[i], clock);
      updated := updated + count;
    }
    assert tenants[..|tenants|] == tenants;
    DistinctTenantsCover(before, p, f);
  }

  const POISON_SAMPLE: nat := 50

  // The clock readings of one pass: when the tenants are looked up, each tenant's cutoff, each
  // reset row, each scheduled row, and each sampled tenant's job recovery.
  datatype Readings = Readings(
    foundAt: Time, sampled: nat -> Time, reset: nat -> Time, scheduled: nat -> Time, jobs: nat -> Time)

  function StillReadings(now: Time): Readings {
    Readings(now, Still(now), Still(now), Still(now), Still(now))
  }

  datatype Report = Report(staleReset: nat, backoffUpdated: nat, poisonRows: int, jobsRecovered: nat)

  // The rows after the reset step of a pass.
  function ResetStep(rows: seq<Row>, staleSeconds: int, r: Readings): seq<Row> {
    Patch(rows, StaleAndFound(rows, staleSeconds, r), ResetRow(Cutoffs(staleSeconds, r.sampled), r.reset))
  }

  function StaleAndFound(rows: seq<Row>, staleSeconds: int, r: Readings): Row -> bool {
    Within(StaleTenants(rows, staleSeconds, r.foundAt), StaleBefore(Cutoffs(staleSeconds, r.sampled)))
  }

  // The pass over the rebuild table.
  method MaintainTable(table: seq<SnapshotRebuildRequirement>, staleSeconds: int, r: Readings)
    returns (staleReset: nat, backoffUpdated: nat, poisonRows: int)
    requires Distinct(table)
    modifies table
    ensures Views(table) == BackoffAll(ResetStep(old(Views(table)), staleSeconds, r), r.scheduled)
    ensures staleReset == CountIf(old(Views(table)), StaleAndFound(old(Views(table)), staleSeconds, r))
    ensures backoffUpdated == CountIf(ResetStep(old(Views(table)), staleSeconds, r), WithoutBackoff())
    ensures poisonRows == Min(CountIf(Views(table), Poison()), POISON_SAMPLE)
  {
    staleReset := ResetStaleRunningGlobally(table, staleSeconds, r.foundAt, r.sampled, r.reset);
    backoffUpdated := ApplyMissingBackoff(table, r.scheduled);
    poisonRows := Min(CountIf(Views(table), Poison()), POISON_SAMPLE);
  }

  // The whole pass. `sample` holds the tenants with jobs in progress that its last query returned.
  method RunMaintenance(table: seq<SnapshotRebuildRequirement>, jobs: seq<W.EtlJob>, staleSeconds: int,
                        sample: seq<nat>, r: Readings)
    returns (report: Report)
    requires Distinct(table) && W.DistinctJobs(jobs) && W.DistinctTenants(sample)
    modifies table, jobs
    ensures Views(table) == BackoffAll(ResetStep(old(Views(table)), staleSeconds, r), r.scheduled)
    ensures report.staleReset == CountIf(old(Views(table)), StaleAndFound(old(Views(table)), staleSeconds, r))
    ensures report.backoffUpdated == CountIf(ResetStep(old(Views(table)), staleSeconds, r), WithoutBackoff())
    ensures report.poisonRows == Min(CountIf(Views(table), Poison()), POISON_SAMPLE)
    ensures W.JobViews(jobs) == W.RecoverSample(old(W.JobViews(jobs)), sample, r.jobs)
    ensures report.jobsRecovered == W.StuckCount(old(W.JobViews(jobs)), sample, r.jobs)
  {
    var staleReset, backoffUpdated, poisonRows := MaintainTable(table, staleSeconds, r);
    ghost var rows := Views(table);
    var jobsRecovered := W.RecoverStaleProcessingSample(jobs, sample, r.jobs);
    assert Views(table) == rows;
    report := Report(staleReset, backoffUpdated, poisonRows, jobsRecovered);
  }

  // With the clock held still the whole pass over the rebuild table is a run of the protocol: one
  // stale reset for each tenant found stale, then one backoff event for each tenant without one.
  lemma {:induction false} ResetsRefine(cfg: P.Config, s: P.State, rows: seq<Row>, tenants: seq<nat>)
    returns (es: seq<P.Event>)
    requires Mirrors(rows, s.rows) && forall i, j | 0 <= i < j < |tenants| :: tenants[i] != tenants[j]
    ensures |es| == |tenants| && forall i | 0 <= i < |es| :: es[i] == P.StaleReset(tenants[i], s.now)
    ensures P.Valid(cfg, s, es) && P.Run(cfg, s, es).now == s.now && P.Run(cfg, s, es).inflight == s.inflight
    ensures var cutoffs := Cutoffs(cfg.staleSeconds, Still(s.now));
            Mirrors(Patch(rows, Within(tenants, StaleBefore(cutoffs)), ResetRow(cutoffs, Still(s.now))),
                    P.Run(cfg, s, es).rows)
  {
    var cutoffs := Cutoffs(cfg.staleSeconds, Still(s.now));
    var p, f := StaleBefore(cutoffs), ResetRow(cutoffs, Still(s.now));
    if tenants == [] {
      es := [];
      NoTenant(rows, p, f);
    } else {
      var n := |tenants| - 1;
      var front := ResetsRefine(cfg, s, rows, tenants[..n]);
      var e, t := P.StaleReset(tenants[n], s.now), P.Run(cfg, s, front);
      P.Extend(cfg, s, front, e);
      ResetRefines(cfg, t, Patch(rows, Within(tenants[..n], p), f), tenants[n], s.now);
      TransitionsKeepTenant(cutoffs, Still(s.now));
      NextTenant(rows, tenants, n, p, f);
      assert tenants[..n + 1] == tenants;
      es := front + [e];
    }
  }

  lemma {:induction false} BackoffsRefine(cfg: P.Config, s: P.State, rows: seq<Row>, tenants: seq<nat>)
    returns (es: seq<P.Event>)
    requires Mirrors(rows, s.rows) && forall i, j | 0 <= i < j < |tenants| :: tenants[i] != tenants[j]
    ensures |es| == |tenants| && forall i | 0 <= i < |es| :: es[i] == P.BackoffFilled(tenants[i])
    ensures P.Valid(cfg, s, es) && P.Run(cfg, s, es).now == s.now && P.Run(cfg, s, es).inflight == s.inflight
    ensures Mirrors(Patch(rows, Within(tenants, WithoutBackoff()), BackoffRow(Still(s.now))), P.Run(cfg, s, es).rows)
  {
    var p, f := WithoutBackoff(), BackoffRow(Still(s.now));
    if tenants == [] {
      es := [];
      NoTenant(rows, p, f);
    } else {
      var n := |tenants| - 1;
      var front := BackoffsRefine(cfg, s, rows, tenants[..n]);
      var e, t := P.BackoffFilled(tenants[n]), P.Run(cfg, s, front);
      P.Extend(cfg, s, front, e);
      BackoffRefines(cfg, t, Patch(rows, Within(tenants[..n], p), f), tenants[n]);
      TransitionsKeepTenant(Still(s.now), Still(s.now));
      NextTenant(rows, tenants, n, p, f);
      assert tenants[..n + 1] == tenants;
      es := front + [e];
    }
  }

  lemma AllResetsRefine(cfg: P.Config, s: P.State, rows: seq<Row>) returns (es: seq<P.Event>, t: P.State)
    requires Mirrors(rows, s.rows)
    ensures P.Valid(cfg, s, es) && t == P.Run(cfg, s, es) && t.now == s.now && forall e | e in es :: e.StaleReset?
    ensures Mirrors(ResetAll(rows, Cutoffs(cfg.staleSeconds, Still(s.now)), Still(s.now)), t.rows)
  {
    var cutoffs := Cutoffs(cfg.staleSeconds, Still(s.now));
    DistinctTenantsCover(rows, StaleBefore(cutoffs), ResetRow(cutoffs, Still(s.now)));
    es := ResetsRefine(cfg, s, rows, DistinctTenants(rows, StaleBefore(cutoffs)));
    t := P.Run(cfg, s, es);
  }

  lemma AllBackoffsRefine(cfg: P.Config, s: P.State, rows: seq<Row>) returns (es: seq<P.Event>, t: P.State)
    requires Mirrors(rows, s.rows)
    ensures P.Valid(cfg, s, es) && t == P.Run(cfg, s, es) && forall e | e in es :: e.BackoffFilled?
    ensures Mirrors(BackoffAll(rows, Still(s.now)), t.rows)
  {
    DistinctTenantsCover(rows, WithoutBackoff(), BackoffRow(Still(s.now)));
    es := BackoffsRefine(cfg, s, rows, DistinctTenants(rows, WithoutBackoff()));
    t := P.Run(cfg, s, es);
  }

  lemma PassRefines(cfg: P.Config, s: P.State, rows: seq<Row>) returns (es: seq<P.Event>, t: P.State)
    requires Mirrors(rows, s.rows)
    ensures P.Valid(cfg, s, es) && t == P.Run(cfg, s, es) && forall e | e in es :: e.StaleReset? || e.BackoffFilled?
    ensures Mirrors(MaintainAll(rows, Cutoffs(cfg.staleSeconds, Still(s.now)), Still(s.now)), t.rows)
  {
    var first, u := AllResetsRefine(cfg, s, rows);
    var second;
    second, t := AllBackoffsRefine(cfg, u, ResetAll(rows, Cutoffs(cfg.staleSeconds, Still(s.now)), Still(s.now)));
    P.RunJoin(cfg, s, first, second);
    es := first + second;
  }

  // Running the pass twice at the same instant: the second changes nothing in the rebuild rows and
  // reports nothing for them.
  method RunMaintenanceTwice(table: seq<SnapshotRebuildRequirement>, jobs: seq<W.EtlJob>, staleSeconds: int,
                             sample: seq<nat>, again: seq<nat>, now: Time)
    returns (first: Report, second: Report)
    requires Distinct(table) && W.DistinctJobs(jobs) && W.DistinctTenants(sample) && W.DistinctTenants(again)
    modifies table, jobs
    ensures second.staleReset == second.backoffUpdated == 0 && second.poisonRows == first.poisonRows
    ensures Views(table) == MaintainAll(old(Views(table)), Cutoffs(staleSeconds, Still(now)), Still(now))
    ensures first.staleReset + first.backoffUpdated == ChangedCount(old(Views(table)), Views(table))
  {
    ghost var rows, cutoffs := Views(table), Cutoffs(staleSeconds, Still(now));
    MaintenanceFixpoint(rows, cutoffs, Still(now), Still(now));
    DistinctTenantsCover(rows, StaleBefore(cutoffs), ResetRow(cutoffs, Still(now)));
    first := RunMaintenance(table, jobs, staleSeconds, sample, StillReadings(now));
    ghost var once := Views(table);
    DistinctTenantsCover(once, StaleBefore(cutoffs), ResetRow(cutoffs, Still(now)));
    second := RunMaintenance(table, jobs, staleSeconds, again, StillReadings(now));
  }
}
