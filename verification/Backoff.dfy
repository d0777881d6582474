// Arithmetic of the retry delay (compute_next_eligible_at).
module Backoff {
  import opened Common
  import opened RebuildRows

  lemma {:induction false} Pow2Monotone(m: nat, n: nat)
    requires m <= n
    ensures Pow2(m) <= Pow2(n)
    decreases n - m
  {
    if m < n {
      Pow2Monotone(m, n - 1);
    }
  }

  lemma Pow2Values()
    ensures Pow2(6) == 64 && Pow2(7) == 128
  {
    assert Pow2(3) == 8;
    assert Pow2(6) == 64;
  }

  // For every non-negative base the delay never shrinks as attempts accumulate.
  lemma DelayMonotone(m: nat, n: nat, base: int)
    requires m <= n && base >= 0
    ensures DelaySeconds(m, base) <= DelaySeconds(n, base)
  {
    Pow2Monotone(m, n);
    assert base * Pow2(m) <= base * Pow2(n);
  }

  // At the default base: between 30 and 3600 seconds, doubling through attempt 6, and capped
  // exactly from attempt 7 on.
  lemma DelayShape(n: nat)
    ensures 30 <= DelaySeconds(n, BASE_DELAY_SECONDS) <= 3600
    ensures n < 6 ==> DelaySeconds(n + 1, BASE_DELAY_SECONDS) == 2 * DelaySeconds(n, BASE_DELAY_SECONDS)
    ensures DelaySeconds(n, BASE_DELAY_SECONDS) == 3600 <==> n >= 7
    ensures n <= 6 ==> DelaySeconds(n, BASE_DELAY_SECONDS) == 30 * Pow2(n)
  {
    Pow2Values();
    if n <= 6 {
      Pow2Monotone(n, 6);
    } else {
      Pow2Monotone(7, n);
    }
    if n < 6 {
      Pow2Monotone(n + 1, 6);
    }
  }

  // One claim at the first instant, failed at the second.
  datatype Cycle = Cycle(claimedAt: Time, failedAt: Time, error: string)

  function AfterFailures(r: Row, cycles: seq<Cycle>, fullAfter: int): Row {
    if cycles == [] then r
    else
      var c := cycles[|cycles| - 1];
      Fail(Claim(AfterFailures(r, cycles[..|cycles| - 1], fullAfter), c.claimedAt, fullAfter), c.failedAt, c.error)
  }

  // Sum over the cycles of the time between the failure and the next eligible instant.
  function TotalDelay(r: Row, cycles: seq<Cycle>, fullAfter: int): int {
    if cycles == [] then 0
    else
      var after := AfterFailures(r, cycles, fullAfter);
      TotalDelay(r, cycles[..|cycles| - 1], fullAfter)
      + (if after.nextEligibleAt.Some? then after.nextEligibleAt.value - cycles[|cycles| - 1].failedAt else 0)
  }

  // The sum of the first k delays after an attempt, in closed form.
  function GeometricDelay(k: nat): int {
    BASE_DELAY_SECONDS * (Pow2(Min(k, 6) + 1) - 2) + MAX_DELAY_SECONDS * Max(0, k - 6)
  }

  lemma GeometricStep(k: nat)
    requires k >= 1
    ensures GeometricDelay(k) == GeometricDelay(k - 1) + DelaySeconds(k, BASE_DELAY_SECONDS)
  {
    DelayShape(k);
    if k <= 6 {
      assert Pow2(k + 1) == 2 * Pow2(k);
    }
  }

  lemma FailureStep(r: Row, c: Cycle, fullAfter: int)
    requires r.attempts + 1 < r.maxAttempts
    ensures var after := Fail(Claim(r, c.claimedAt, fullAfter), c.failedAt, c.error);
            && after.attempts == r.attempts + 1 && after.maxAttempts == r.maxAttempts && after.status == Deferred
            && after.nextEligibleAt == Some(c.failedAt + SECOND * DelaySeconds(r.attempts + 1, BASE_DELAY_SECONDS))
  {
  }

  // k consecutive failures that do not use up the budget leave the row deferred with k attempts,
  // and the scheduled delays add up to a geometric sum that turns linear at the cap.
  lemma {:induction false} FailureDelays(r: Row, cycles: seq<Cycle>, fullAfter: int)
    requires r.attempts == 0 && |cycles| < r.maxAttempts
    ensures AfterFailures(r, cycles, fullAfter).attempts == |cycles|
    ensures AfterFailures(r, cycles, fullAfter).maxAttempts == r.maxAttempts
    ensures cycles != [] ==> AfterFailures(r, cycles, fullAfter).status == Deferred
    ensures TotalDelay(r, cycles, fullAfter)
            == SECOND * (BASE_DELAY_SECONDS * (Pow2(Min(|cycles|, 6) + 1) - 2)
                         + MAX_DELAY_SECONDS * Max(0, |cycles| - 6))
  {
    var k := |cycles|;
    if cycles == [] {
      assert Pow2(1) == 2;
    } else {
      FailureDelays(r, cycles[..k - 1], fullAfter);
      FailureStep(AfterFailures(r, cycles[..k - 1], fullAfter), cycles[k - 1], fullAfter);
      GeometricStep(k);
      assert TotalDelay(r, cycles, fullAfter) == SECOND * GeometricDelay(k - 1) + SECOND * DelaySeconds(k, BASE_DELAY_SECONDS);
    }
    assert TotalDelay(r, cycles, fullAfter) == SECOND * GeometricDelay(k);
  }
}
