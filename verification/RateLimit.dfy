// The AI rate limiter (app/ai/rate_limit.py): two pruned sliding windows that decide every call as
// counting the complete accepted history would.
module RateLimit {

  const MINUTE: real := 60.0
  const HOUR: real := 3600.0

  datatype Settings = Settings(perMinute: int, perHour: int)

  // A call with its readings of the monotonic and of the wall clock.
  datatype Call = Call(user: string, mono: real, wall: real)

  datatype Verdict = Allowed | Runaway | TenantLimited

  datatype Windows = Windows(tenants: map<string, seq<real>>, global: seq<real>)

  function Since(s: seq<real>, start: real): seq<real> {
    if s == [] then []
    else Since(s[..|s| - 1], start) + (if s[|s| - 1] >= start then [s[|s| - 1]] else [])
  }

  function HitsOf(w: Windows, user: string): seq<real> {
    if user in w.tenants then w.tenants[user] else []
  }

  function Pruned(w: Windows, c: Call): Windows {
    w.(global := Since(w.global, c.wall - HOUR))
  }

  function Decide(s: Settings, w: Windows, c: Call): Verdict {
    if s.perMinute <= 0 then Allowed
    else if |Since(w.global, c.wall - HOUR)| >= s.perHour then Runaway
    else if |Since(HitsOf(w, c.user), c.mono - MINUTE)| >= s.perMinute then TenantLimited
    else Allowed
  }

  // The windows after the call. A rejected call leaves the global list pruned and, when the tenant
  // limit rejected it, an entry for the tenant.
  function After(s: Settings, w: Windows, c: Call): Windows {
    if s.perMinute <= 0 then w
    else
      match Decide(s, w, c)
      case Runaway => Pruned(w, c)
      case TenantLimited => Pruned(w, c).(tenants := w.tenants[c.user := HitsOf(w, c.user)])
      case Allowed =>
        Windows(w.tenants[c.user := Since(HitsOf(w, c.user), c.mono - MINUTE) + [c.mono]],
                Since(w.global, c.wall - HOUR) + [c.wall])
  }

  function AfterAll(s: Settings, calls: seq<Call>): Windows {
    if calls == [] then Windows(map[], [])
    else After(s, AfterAll(s, calls[..|calls| - 1]), calls[|calls| - 1])
  }

  // The calls this limiter accepts, in the order in which they took the lock.
  function Admitted(s: Settings, calls: seq<Call>): seq<Call> {
    if calls == [] then []
    else
      var front, c := calls[..|calls| - 1], calls[|calls| - 1];
      if Decide(s, AfterAll(s, front), c) == Allowed then Admitted(s, front) + [c] else Admitted(s, front)
  }

  // ---------------------------------------------------------------- reference: complete history

  function CountTenant(h: seq<Call>, user: string, from: real, to: real): nat {
    if h == [] then 0
    else
      var c := h[|h| - 1];
      CountTenant(h[..|h| - 1], user, from, to) + (if c.user == user && from <= c.mono <= to then 1 else 0)
  }

  function CountAll(h: seq<Call>, from: real, to: real): nat {
    if h == [] then 0
    else
      var c := h[|h| - 1];
      CountAll(h[..|h| - 1], from, to) + (if from <= c.wall <= to then 1 else 0)
  }

  // The decision by counting every accepted call of the trailing hour and minute.
  function Judge(s: Settings, accepted: seq<Call>, c: Call): Verdict {
    if CountAll(accepted, c.wall - HOUR, c.wall) >= s.perHour then Runaway
    else if CountTenant(accepted, c.user, c.mono - MINUTE, c.mono) >= s.perMinute then TenantLimited
    else Allowed
  }

  // The calls a limiter with unlimited memory accepts.
  function Accepted(s: Settings, calls: seq<Call>): seq<Call> {
    if calls == [] then []
    else
      var h := Accepted(s, calls[..|calls| - 1]);
      var c := calls[|calls| - 1];
      if Judge(s, h, c) == Allowed then h + [c] else h
  }

  // Both clocks are read before the lock is taken, so calls need not advance in lock order.
  predicate ClocksAdvance(calls: seq<Call>) {
    forall i, j | 0 <= i < j < |calls| :: calls[i].mono <= calls[j].mono && calls[i].wall <= calls[j].wall
  }

  function Walls(h: seq<Call>): seq<real> {
    if h == [] then [] else Walls(h[..|h| - 1]) + [h[|h| - 1].wall]
  }

  function Monos(h: seq<Call>, user: string): seq<real> {
    if h == [] then []
    else Monos(h[..|h| - 1], user) + (if h[|h| - 1].user == user then [h[|h| - 1].mono] else [])
  }

  lemma MonosStep(h: seq<Call>, user: string, start: real)
    requires h != []
    ensures var c := h[|h| - 1];
            |Since(Monos(h, user), start)|
            == |Since(Monos(h[..|h| - 1], user), start)| + (if c.user == user && c.mono >= start then 1 else 0)
  {
    var n := |h| - 1;
    SinceSnoc(Monos(h[..n], user), h[n].mono, start);
    assert h[n].user != user ==> Monos(h, user) == Monos(h[..n], user);
  }

  lemma {:induction false} CountsAreLengths(h: seq<Call>, user: string, from: real, to: real, start: real)
    ensures start <= from ==> CountTenant(h, user, from, to) <= |Since(Monos(h, user), start)|
    ensures start == from && (forall c | c in h :: c.mono <= to) ==>
              CountTenant(h, user, from, to) == |Since(Monos(h, user), start)|
  {
    if h != [] {
      var n := |h| - 1;
      assert h == h[..n] + [h[n]];
      CountsAreLengths(h[..n], user, from, to, start);
      MonosStep(h, user, start);
    }
  }

  lemma {:induction false} GlobalCountsAreLengths(h: seq<Call>, from: real, to: real, start: real)
    ensures start <= from ==> CountAll(h, from, to) <= |Since(Walls(h), start)|
    ensures start == from && (forall c | c in h :: c.wall <= to) ==> CountAll(h, from, to) == |Since(Walls(h), start)|
  {
    if h != [] {
      var n := |h| - 1;
      assert h == h[..n] + [h[n]];
      GlobalCountsAreLengths(h[..n], from, to, start);
      SinceSnoc(Walls(h[..n]), h[n].wall, start);
    }
  }

  // ---------------------------------------------------------------- what pruning loses

  // One use of a pruned list: what lies further back than the width is dropped, then the reading
  // may be recorded.
  datatype Touch = Touch(reading: real, recorded: bool)

  function Keep(width: real, ts: seq<Touch>): seq<real> {
    if ts == [] then []
    else
      var last := ts[|ts| - 1];
      Since(Keep(width, ts[..|ts| - 1]), last.reading - width) + (if last.recorded then [last.reading] else [])
  }

  function Recorded(ts: seq<Touch>): seq<real> {
    if ts == [] then []
    else Recorded(ts[..|ts| - 1]) + (if ts[|ts| - 1].recorded then [ts[|ts| - 1].reading] else [])
  }

  // No reading from `start` on was dropped by a later use of the list.
  ghost predicate Intact(width: real, ts: seq<Touch>, start: real) {
    forall j, k | 0 <= j < k < |ts| && ts[j].recorded && ts[j].reading >= start ::
      ts[j].reading >= ts[k].reading - width
  }

  lemma SinceSnoc(s: seq<real>, t: real, start: real)
    ensures Since(s + [t], start) == Since(s, start) + (if t >= start then [t] else [])
  {
    assert (s + [t])[..|s|] == s;
  }

  lemma {:induction false} SinceOfSince(s: seq<real>, a: real, b: real)
    ensures Since(Since(s, a), b) == Since(s, if a <= b then b else a)
  {
    if s != [] {
      var n := |s| - 1;
      SinceOfSince(s[..n], a, b);
      SinceSnoc(Since(s[..n], a), s[n], b);
      assert s[n] < a ==> Since(s, a) == Since(s[..n], a);
    }
  }

  lemma {:induction false} LaterStart(s: seq<real>, early: real, late: real)
    requires early <= late
    ensures |Since(s, late)| <= |Since(s, early)|
    ensures |Since(s, late)| == |Since(s, early)| <==> forall x | x in s && x >= early :: x >= late
  {
    if s != [] {
      var front, last := s[..|s| - 1], s[|s| - 1];
      assert s == front + [last];
      LaterStart(front, early, late);
      assert |Since(s, late)| == |Since(front, late)| + (if last >= late then 1 else 0);
      assert |Since(s, early)| == |Since(front, early)| + (if last >= early then 1 else 0);
      assert last in s;
      if x :| x in front && x >= early && x < late {
        assert x in s;
      }
    }
  }

  lemma {:induction false} RecordedReadings(ts: seq<Touch>)
    ensures forall x :: x in Recorded(ts) <==> exists j :: 0 <= j < |ts| && ts[j].recorded && ts[j].reading == x
  {
    if ts != [] {
      var n := |ts| - 1;
      var front := ts[..n];
      RecordedReadings(front);
      forall x | x in Recorded(ts) ensures exists j :: 0 <= j < |ts| && ts[j].recorded && ts[j].reading == x {
        if x in Recorded(front) {
          var j :| 0 <= j < |front| && front[j].recorded && front[j].reading == x;
          assert ts[j].recorded;
        } else {
          assert ts[n].recorded;
        }
      }
      forall j | 0 <= j < |ts| && ts[j].recorded ensures ts[j].reading in Recorded(ts) {
        assert j < n ==> front[j].recorded;
      }
    }
  }

  // The pruned list never counts more than everything ever recorded, and from a given start on it
  // counts as much if and only if no such reading was dropped.
  lemma {:induction false} PruningLosesExactly(width: real, ts: seq<Touch>, start: real)
    ensures |Since(Keep(width, ts), start)| <= |Since(Recorded(ts), start)|
    ensures |Since(Keep(width, ts), start)| == |Since(Recorded(ts), start)| <==> Intact(width, ts, start)
  {
    if ts != [] {
      var n := |ts| - 1;
      var front, last := ts[..n], ts[n];
      var p := last.reading - width;
      var from := if p <= start then start else p;
      PruningLosesExactly(width, front, from);
      LaterStart(Recorded(front), start, from);
      IntactSnoc(width, ts, start);
      SinceOfSince(Keep(width, front), p, start);
      if last.recorded {
        SinceSnoc(Since(Keep(width, front), p), last.reading, start);
        SinceSnoc(Recorded(front), last.reading, start);
      } else {
        assert Keep(width, ts) == Since(Keep(width, front), p);
        assert Recorded(ts) == Recorded(front);
      }
    }
  }

  lemma IntactSnoc(width: real, ts: seq<Touch>, start: real)
    requires ts != []
    ensures var n := |ts| - 1;
            var p := ts[n].reading - width;
            Intact(width, ts, start)
            <==> Intact(width, ts[..n], if p <= start then start else p)
                 && forall x | x in Recorded(ts[..n]) && x >= start :: x >= p
  {
    var n := |ts| - 1;
    var front, p := ts[..n], ts[n].reading - width;
    var from := if p <= start then start else p;
    RecordedReadings(front);
    assert forall j | 0 <= j < n :: front[j] == ts[j];
    if Intact(width, ts, start) {
      forall x | x in Recorded(front) && x >= start ensures x >= p {
        var j :| 0 <= j < n && front[j].recorded && front[j].reading == x;
        assert ts[j].reading >= ts[n].reading - width;
      }
    }
    if Intact(width, front, from) && forall x | x in Recorded(front) && x >= start :: x >= p {
      forall j, k | 0 <= j < k < |ts| && ts[j].recorded && ts[j].reading >= start
        ensures ts[j].reading >= ts[k].reading - width
      {
        assert front[j].reading in Recorded(front);
        if k < n {
          assert front[j].reading >= front[k].reading - width;
        }
      }
    }
  }

  // ---------------------------------------------------------------- the two lists

  // A tenant's list is used when a call of the tenant is accepted, the global list by every call.
  function TenantTouches(s: Settings, calls: seq<Call>, user: string): seq<Touch> {
    if calls == [] then []
    else
      var front, c := calls[..|calls| - 1], calls[|calls| - 1];
      if c.user == user && Decide(s, AfterAll(s, front), c) == Allowed
      then TenantTouches(s, front, user) + [Touch(c.mono, true)]
      else TenantTouches(s, front, user)
  }

  function GlobalTouches(s: Settings, calls: seq<Call>): seq<Touch> {
    if calls == [] then []
    else
      var front, c := calls[..|calls| - 1], calls[|calls| - 1];
      GlobalTouches(s, front) + [Touch(c.wall, Decide(s, AfterAll(s, front), c) == Allowed)]
  }

  lemma TouchSnoc(width: real, ts: seq<Touch>, t: Touch)
    ensures Keep(width, ts + [t])
            == Since(Keep(width, ts), t.reading - width) + (if t.recorded then [t.reading] else [])
    ensures Recorded(ts + [t]) == Recorded(ts) + (if t.recorded then [t.reading] else [])
  {
    assert (ts + [t])[..|ts|] == ts;
  }

  lemma HistorySnoc(h: seq<Call>, c: Call, user: string)
    ensures Walls(h + [c]) == Walls(h) + [c.wall]
    ensures Monos(h + [c], user) == Monos(h, user) + (if c.user == user then [c.mono] else [])
  {
    assert (h + [c])[..|h|] == h;
  }

  // What one call does to each of the lists.
  lemma ListsAfter(s: Settings, w: Windows, c: Call, user: string)
    requires s.perMinute > 0
    ensures After(s, w, c).global
            == Since(w.global, c.wall - HOUR) + (if Decide(s, w, c) == Allowed then [c.wall] else [])
    ensures HitsOf(After(s, w, c), user)
            == if c.user == user && Decide(s, w, c) == Allowed
               then Since(HitsOf(w, user), c.mono - MINUTE) + [c.mono]
               else HitsOf(w, user)
  {
  }

  lemma TenantStep(s: Settings, w: Windows, c: Call, user: string, ts: seq<Touch>)
    requires s.perMinute > 0 && HitsOf(w, user) == Keep(MINUTE, ts)
    ensures c.user == user && Decide(s, w, c) == Allowed ==>
              HitsOf(After(s, w, c), user) == Keep(MINUTE, ts + [Touch(c.mono, true)])
    ensures !(c.user == user && Decide(s, w, c) == Allowed) ==> HitsOf(After(s, w, c), user) == Keep(MINUTE, ts)
  {
    ListsAfter(s, w, c, user);
    TouchSnoc(MINUTE, ts, Touch(c.mono, true));
  }

  lemma GlobalStep(s: Settings, w: Windows, c: Call, ts: seq<Touch>)
    requires s.perMinute > 0 && w.global == Keep(HOUR, ts)
    ensures After(s, w, c).global == Keep(HOUR, ts + [Touch(c.wall, Decide(s, w, c) == Allowed)])
  {
    ListsAfter(s, w, c, c.user);
    TouchSnoc(HOUR, ts, Touch(c.wall, Decide(s, w, c) == Allowed));
  }

  // The history of one call more, and the uses of its lists, if the call was accepted or not.
  lemma HistoryStep(h: seq<Call>, c: Call, user: string, tenant: seq<Touch>, global: seq<Touch>)
    requires Monos(h, user) == Recorded(tenant) && Walls(h) == Recorded(global)
    ensures c.user == user ==> Monos(h + [c], user) == Recorded(tenant + [Touch(c.mono, true)])
    ensures c.user != user ==> Monos(h + [c], user) == Recorded(tenant)
    ensures Walls(h + [c]) == Recorded(global + [Touch(c.wall, true)])
    ensures Walls(h) == Recorded(global + [Touch(c.wall, false)])
  {
    HistorySnoc(h, c, user);
    TouchSnoc(MINUTE, tenant, Touch(c.mono, true));
    TouchSnoc(HOUR, global, Touch(c.wall, true));
    TouchSnoc(HOUR, global, Touch(c.wall, false));
  }

  lemma {:induction false} ListsAre(s: Settings, calls: seq<Call>, user: string)
    requires s.perMinute > 0
    ensures HitsOf(AfterAll(s, calls), user) == Keep(MINUTE, TenantTouches(s, calls, user))
    ensures AfterAll(s, calls).global == Keep(HOUR, GlobalTouches(s, calls))
  {
    if calls != [] {
      var front, c := calls[..|calls| - 1], calls[|calls| - 1];
      ListsAre(s, front, user);
      TenantStep(s, AfterAll(s, front), c, user, TenantTouches(s, front, user));
      GlobalStep(s, AfterAll(s, front), c, GlobalTouches(s, front));
    }
  }

  lemma {:induction false} HistoryIs(s: Settings, calls: seq<Call>, user: string)
    ensures Monos(Admitted(s, calls), user) == Recorded(TenantTouches(s, calls, user))
    ensures Walls(Admitted(s, calls)) == Recorded(GlobalTouches(s, calls))
  {
    if calls != [] {
      var front, c := calls[..|calls| - 1], calls[|calls| - 1];
      HistoryIs(s, front, user);
      HistoryStep(Admitted(s, front), c, user, TenantTouches(s, front, user), GlobalTouches(s, front));
    }
  }

  // No accepted call that the new one has to count was dropped by a later call's pruning.
  ghost predicate TenantIntact(s: Settings, calls: seq<Call>, c: Call) {
    Intact(MINUTE, TenantTouches(s, calls, c.user), c.mono - MINUTE)
  }

  ghost predicate GlobalIntact(s: Settings, calls: seq<Call>, c: Call) {
    Intact(HOUR, GlobalTouches(s, calls), c.wall - HOUR)
  }

  // In whatever order the readings come, and from whatever start, the lists never hold more than the
  // complete history of accepted calls, and as much exactly if none of those was dropped.
  lemma TenantCountsFrom(s: Settings, calls: seq<Call>, user: string, start: real)
    requires s.perMinute > 0
    ensures var stored := |Since(HitsOf(AfterAll(s, calls), user), start)|;
            var all := |Since(Monos(Admitted(s, calls), user), start)|;
            stored <= all && (stored == all <==> Intact(MINUTE, TenantTouches(s, calls, user), start))
  {
    ListsAre(s, calls, user);
    HistoryIs(s, calls, user);
    PruningLosesExactly(MINUTE, TenantTouches(s, calls, user), start);
  }

  lemma GlobalCountsFrom(s: Settings, calls: seq<Call>, start: real)
    requires s.perMinute > 0
    ensures var stored, all := |Since(AfterAll(s, calls).global, start)|, |Since(Walls(Admitted(s, calls)), start)|;
            stored <= all && (stored == all <==> Intact(HOUR, GlobalTouches(s, calls), start))
  {
    ListsAre(s, calls, "");
    HistoryIs(s, calls, "");
    PruningLosesExactly(HOUR, GlobalTouches(s, calls), start);
  }

  // So the limiter never counts more than the complete history, and as much exactly if no call of
  // its two windows was dropped.
  lemma CountsExactly(s: Settings, calls: seq<Call>, c: Call)
    requires s.perMinute > 0
    ensures var w, h := AfterAll(s, calls), Admitted(s, calls);
            && |Since(HitsOf(w, c.user), c.mono - MINUTE)| <= |Since(Monos(h, c.user), c.mono - MINUTE)|
            && (|Since(HitsOf(w, c.user), c.mono - MINUTE)| == |Since(Monos(h, c.user), c.mono - MINUTE)|
                <==> TenantIntact(s, calls, c))
            && |Since(w.global, c.wall - HOUR)| <= |Since(Walls(h), c.wall - HOUR)|
            && (|Since(w.global, c.wall - HOUR)| == |Since(Walls(h), c.wall - HOUR)| <==> GlobalIntact(s, calls, c))
  {
    TenantCountsFrom(s, calls, c.user, c.mono - MINUTE);
    GlobalCountsFrom(s, calls, c.wall - HOUR);
  }

  // ---------------------------------------------------------------- advancing clocks lose nothing

  lemma EarlierReadings(calls: seq<Call>, c: Call)
    requires ClocksAdvance(calls + [c])
    ensures ClocksAdvance(calls) && forall x | x in calls :: x.mono <= c.mono && x.wall <= c.wall
  {
    var longer := calls + [c];
    assert forall i | 0 <= i < |calls| :: longer[i] == calls[i];
    assert longer[|calls|] == c;
  }

  lemma {:induction false} TouchesAreCalls(s: Settings, calls: seq<Call>, user: string)
    ensures forall t | t in TenantTouches(s, calls, user) :: exists c :: c in calls && t.reading == c.mono
    ensures forall t | t in GlobalTouches(s, calls) :: exists c :: c in calls && t.reading == c.wall
    ensures forall c | c in Admitted(s, calls) :: c in calls
  {
    if calls != [] {
      var n := |calls| - 1;
      assert calls == calls[..n] + [calls[n]];
      TouchesAreCalls(s, calls[..n], user);
      assert calls[n] in calls;
      forall t | t in TenantTouches(s, calls[..n], user) ensures exists c :: c in calls && t.reading == c.mono {
        var c :| c in calls[..n] && t.reading == c.mono;
        assert c in calls;
      }
      forall t | t in GlobalTouches(s, calls[..n]) ensures exists c :: c in calls && t.reading == c.wall {
        var c :| c in calls[..n] && t.reading == c.wall;
        assert c in calls;
      }
    }
  }

  lemma AdvancingIsIntact(s: Settings, calls: seq<Call>, c: Call)
    requires ClocksAdvance(calls + [c])
    ensures TenantIntact(s, calls, c) && GlobalIntact(s, calls, c)
    ensures forall x | x in Admitted(s, calls) :: x.mono <= c.mono && x.wall <= c.wall
  {
    EarlierReadings(calls, c);
    TouchesAreCalls(s, calls, c.user);
    assert forall t | t in TenantTouches(s, calls, c.user) :: t.reading <= c.mono;
    assert forall t | t in GlobalTouches(s, calls) :: t.reading <= c.wall;
  }

  // Exactness: while both clocks advance, the pruned lists decide every call exactly as counting
  // the complete accepted history would, and so the two limiters accept the same calls.
  lemma {:induction false} PruningIsExact(s: Settings, calls: seq<Call>, c: Call)
    requires s.perMinute > 0 && ClocksAdvance(calls + [c])
    ensures Admitted(s, calls) == Accepted(s, calls)
    ensures Decide(s, AfterAll(s, calls), c) == Judge(s, Accepted(s, calls), c)
  {
    if calls != [] {
      var n := |calls| - 1;
      assert calls[..n] + [calls[n]] == calls;
      EarlierReadings(calls, c);
      PruningIsExact(s, calls[..n], calls[n]);
    }
    AdvancingIsIntact(s, calls, c);
    CountsExactly(s, calls, c);
    CountsAreLengths(Admitted(s, calls), c.user, c.mono - MINUTE, c.mono, c.mono - MINUTE);
    GlobalCountsAreLengths(Admitted(s, calls), c.wall - HOUR, c.wall, c.wall - HOUR);
  }

  // So while both clocks advance, in words: a call is refused for the platform exactly if the closed
  // hour up to it holds perHour accepted calls, that test coming first, and for its tenant exactly if
  // otherwise the closed minute holds perMinute accepted calls of the tenant.
  lemma VerdictMeaning(s: Settings, calls: seq<Call>, c: Call)
    requires s.perMinute > 0 && ClocksAdvance(calls + [c])
    ensures var h, verdict := Admitted(s, calls), Decide(s, AfterAll(s, calls), c);
            && (verdict == Runaway <==> CountAll(h, c.wall - 3600.0, c.wall) >= s.perHour)
            && (verdict == TenantLimited <==>
                  && CountAll(h, c.wall - 3600.0, c.wall) < s.perHour
                  && CountTenant(h, c.user, c.mono - 60.0, c.mono) >= s.perMinute)
  {
    PruningIsExact(s, calls, c);
  }

  // ---------------------------------------------------------------- the bounds

  // No accepted call of the log decided on a list from which one it had to count was dropped.
  ghost predicate NeverLoses(s: Settings, calls: seq<Call>) {
    calls == [] ||
    var front, c := calls[..|calls| - 1], calls[|calls| - 1];
    && NeverLoses(s, front)
    && (Decide(s, AfterAll(s, front), c) == Allowed ==> TenantIntact(s, front, c) && GlobalIntact(s, front, c))
  }

  // At most perMinute calls of the tenant and perHour calls in all, in closed windows of two lengths.
  ghost predicate WithinBounds(s: Settings, h: seq<Call>, user: string, from: real, minute: real, hour: real) {
    && CountTenant(h, user, from, from + minute) <= s.perMinute
    && CountAll(h, from, from + hour) <= (if s.perHour > 0 then s.perHour else 0)
  }

  lemma TenantBoundStep(h: seq<Call>, c: Call, user: string, from: real, minute: real, limit: int)
    requires |Since(Monos(h, c.user), c.mono - minute)| < limit && CountTenant(h, user, from, from + minute) <= limit
    ensures CountTenant(h + [c], user, from, from + minute) <= limit
  {
    assert (h + [c])[..|h|] == h;
    CountsAreLengths(h, c.user, from, from + minute, c.mono - minute);
  }

  lemma GlobalBoundStep(h: seq<Call>, c: Call, from: real, hour: real, limit: int)
    requires |Since(Walls(h), c.wall - hour)| < limit && CountAll(h, from, from + hour) <= limit
    ensures CountAll(h + [c], from, from + hour) <= limit
  {
    assert (h + [c])[..|h|] == h;
    GlobalCountsAreLengths(h, from, from + hour, c.wall - hour);
  }

  // One more accepted call keeps the bounds on windows of two given lengths.
  lemma BoundStep(s: Settings, h: seq<Call>, c: Call, user: string, from: real, minute: real, hour: real)
    requires |Since(Monos(h, c.user), c.mono - minute)| < s.perMinute && |Since(Walls(h), c.wall - hour)| < s.perHour
    requires WithinBounds(s, h, user, from, minute, hour)
    ensures WithinBounds(s, h + [c], user, from, minute, hour)
  {
    TenantBoundStep(h, c, user, from, minute, s.perMinute);
    GlobalBoundStep(h, c, from, hour, s.perHour);
  }

  lemma AllowedCounts(s: Settings, w: Windows, c: Call)
    requires s.perMinute > 0 && Decide(s, w, c) == Allowed
    ensures |Since(HitsOf(w, c.user), c.mono - MINUTE)| < s.perMinute && |Since(w.global, c.wall - HOUR)| < s.perHour
  {
  }

  // Whatever the order of the readings, as long as nothing that counts is dropped: every closed
  // minute holds at most perMinute accepted calls of a tenant, every closed hour at most perHour.
  lemma {:induction false} BoundedUnlessLost(s: Settings, calls: seq<Call>, user: string, from: real)
    requires s.perMinute > 0 && NeverLoses(s, calls)
    ensures WithinBounds(s, Admitted(s, calls), user, from, MINUTE, HOUR)
  {
    if calls != [] {
      var front, c := calls[..|calls| - 1], calls[|calls| - 1];
      BoundedUnlessLost(s, front, user, from);
      if Decide(s, AfterAll(s, front), c) == Allowed {
        CountsExactly(s, front, c);
        SkewStep(s, AfterAll(s, front), Admitted(s, front), c, user, from, MINUTE, HOUR);
      }
    }
  }

  // A call's readings are behind those of any earlier lock holder by no more than the skews.
  predicate SkewWithin(calls: seq<Call>, monoSkew: real, wallSkew: real) {
    forall i, j | 0 <= i < j < |calls| ::
      calls[i].mono <= calls[j].mono + monoSkew && calls[i].wall <= calls[j].wall + wallSkew
  }

  predicate NoneBeyond(calls: seq<Call>, mono: real, wall: real) {
    forall x | x in calls :: x.mono <= mono && x.wall <= wall
  }

  lemma EarlierWithinSkew(calls: seq<Call>, c: Call, monoSkew: real, wallSkew: real)
    requires SkewWithin(calls + [c], monoSkew, wallSkew)
    ensures SkewWithin(calls, monoSkew, wallSkew)
    ensures NoneBeyond(calls, c.mono + monoSkew, c.wall + wallSkew)
  {
    var longer := calls + [c];
    assert forall i | 0 <= i < |calls| :: longer[i] == calls[i];
    assert longer[|calls|] == c;
  }

  lemma SkewIsIntact(width: real, ts: seq<Touch>, now: real, kept: real)
    requires forall t | t in ts :: t.reading <= now + (width - kept)
    ensures Intact(width, ts, now - kept)
  {
  }

  // Of the calls less than a minute, or an hour, minus the skew old, pruning has dropped none.
  lemma TenantSkewCounts(s: Settings, calls: seq<Call>, c: Call, minute: real)
    requires s.perMinute > 0 && forall x | x in calls :: x.mono <= c.mono + (MINUTE - minute)
    ensures |Since(HitsOf(AfterAll(s, calls), c.user), c.mono - minute)|
            == |Since(Monos(Admitted(s, calls), c.user), c.mono - minute)|
  {
    TouchesAreCalls(s, calls, c.user);
    SkewIsIntact(MINUTE, TenantTouches(s, calls, c.user), c.mono, minute);
    TenantCountsFrom(s, calls, c.user, c.mono - minute);
  }

  lemma GlobalSkewCounts(s: Settings, calls: seq<Call>, c: Call, hour: real)
    requires s.perMinute > 0 && forall x | x in calls :: x.wall <= c.wall + (HOUR - hour)
    ensures |Since(AfterAll(s, calls).global, c.wall - hour)| == |Since(Walls(Admitted(s, calls)), c.wall - hour)|
  {
    TouchesAreCalls(s, calls, c.user);
    SkewIsIntact(HOUR, GlobalTouches(s, calls), c.wall, hour);
    GlobalCountsFrom(s, calls, c.wall - hour);
  }

  lemma SkewStep(s: Settings, w: Windows, h: seq<Call>, c: Call, user: string, from: real, minute: real, hour: real)
    requires s.perMinute > 0 && minute <= MINUTE && hour <= HOUR && Decide(s, w, c) == Allowed
    requires |Since(HitsOf(w, c.user), c.mono - minute)| == |Since(Monos(h, c.user), c.mono - minute)|
    requires |Since(w.global, c.wall - hour)| == |Since(Walls(h), c.wall - hour)|
    requires WithinBounds(s, h, user, from, minute, hour)
    ensures WithinBounds(s, h + [c], user, from, minute, hour)
  {
    AllowedCounts(s, w, c);
    LaterStart(HitsOf(w, c.user), c.mono - MINUTE, c.mono - minute);
    LaterStart(w.global, c.wall - HOUR, c.wall - hour);
    BoundStep(s, h, c, user, from, minute, hour);
  }

  // The bounds in terms of the calls alone: readings that are out of lock order by at most a skew
  // cost the windows no more than that skew in length.
  lemma {:induction false} BoundedBySkew(s: Settings, calls: seq<Call>, user: string, from: real,
                                         monoSkew: real, wallSkew: real, minute: real, hour: real)
    requires s.perMinute > 0 && monoSkew >= 0.0 && wallSkew >= 0.0 && SkewWithin(calls, monoSkew, wallSkew)
    requires minute == MINUTE - monoSkew && hour == HOUR - wallSkew
    ensures WithinBounds(s, Admitted(s, calls), user, from, minute, hour)
  {
    if calls != [] {
      var front, c := calls[..|calls| - 1], calls[|calls| - 1];
      assert calls == front + [c];
      EarlierWithinSkew(front, c, monoSkew, wallSkew);
      BoundedBySkew(s, front, user, from, monoSkew, wallSkew, minute, hour);
      if Decide(s, AfterAll(s, front), c) == Allowed {
        TenantSkewCounts(s, front, c, minute);
        GlobalSkewCounts(s, front, c, hour);
        SkewStep(s, AfterAll(s, front), Admitted(s, front), c, user, from, minute, hour);
      }
    }
  }

  lemma AdvancingIsNoSkew(calls: seq<Call>)
    requires ClocksAdvance(calls)
    ensures SkewWithin(calls, 0.0, 0.0)
  {
  }

  // Without skew: the full windows, and the same calls as a limiter with unlimited memory accepts.
  lemma WindowsAreBounded(s: Settings, calls: seq<Call>, user: string, from: real)
    requires s.perMinute > 0 && ClocksAdvance(calls)
    ensures WithinBounds(s, Admitted(s, calls), user, from, MINUTE, HOUR)
    ensures Admitted(s, calls) == Accepted(s, calls)
  {
    AdvancingIsNoSkew(calls);
    BoundedBySkew(s, calls, user, from, 0.0, 0.0, MINUTE, HOUR);
    AdvancingAccepts(s, calls);
  }

  lemma AdvancingAccepts(s: Settings, calls: seq<Call>)
    requires s.perMinute > 0 && ClocksAdvance(calls)
    ensures Admitted(s, calls) == Accepted(s, calls)
  {
    if calls != [] {
      var n := |calls| - 1;
      assert calls[..n] + [calls[n]] == calls;
      PruningIsExact(s, calls[..n], calls[n]);
    }
  }

  function At(reading: real): Call {
    Call("tenant", reading, reading)
  }

  lemma AllowNext(s: Settings, w: Windows, at: real, minute: seq<real>, hour: seq<real>)
    requires minute == Since(HitsOf(w, "tenant"), at - MINUTE) && |minute| < s.perMinute
    requires hour == Since(w.global, at - HOUR) && |hour| < s.perHour
    ensures Decide(s, w, At(at)) == Allowed
    ensures HitsOf(After(s, w, At(at)), "tenant") == minute + [at] && After(s, w, At(at)).global == hour + [at]
  {
    ListsAfter(s, w, At(at), "tenant");
  }

  lemma AdmitNext(s: Settings, front: seq<Call>, at: real, minute: seq<real>, hour: seq<real>)
    requires Admitted(s, front) == front
    requires minute == Since(HitsOf(AfterAll(s, front), "tenant"), at - MINUTE) && |minute| < s.perMinute
    requires hour == Since(AfterAll(s, front).global, at - HOUR) && |hour| < s.perHour
    ensures Admitted(s, front + [At(at)]) == front + [At(at)]
    ensures HitsOf(AfterAll(s, front + [At(at)]), "tenant") == minute + [at]
    ensures AfterAll(s, front + [At(at)]).global == hour + [at]
  {
    assert (front + [At(at)])[..|front|] == front;
    AllowNext(s, AfterAll(s, front), at, minute, hour);
  }

  lemma SinceOfTwo(a: real, b: real, start: real)
    ensures Since([a], start) == if a >= start then [a] else []
    ensures Since([a, b], start) == (if a >= start then [a] else []) + (if b >= start then [b] else [])
  {
    SinceSnoc([], a, start);
    assert [] + [a] == [a] && [a] + [b] == [a, b];
    SinceSnoc([a], b, start);
  }

  // Everything in the log was accepted, and these are its lists.
  ghost predicate Holds(s: Settings, calls: seq<Call>, minute: seq<real>, hour: seq<real>) {
    && Admitted(s, calls) == calls
    && HitsOf(AfterAll(s, calls), "tenant") == minute && AfterAll(s, calls).global == hour
  }

  lemma FirstAdmitted(s: Settings) returns (one: seq<Call>)
    requires s == Settings(2, 100)
    ensures |one| == 1 && one[0] == At(0.0) && Holds(s, one, [0.0], [0.0])
  {
    AdmitNext(s, [], 0.0, [], []);
    assert [] + [0.0] == [0.0];
    one := [] + [At(0.0)];
  }

  lemma SecondAdmitted(s: Settings, one: seq<Call>)
    requires s == Settings(2, 100) && Holds(s, one, [0.0], [0.0])
    ensures Holds(s, one + [At(0.0)], [0.0, 0.0], [0.0, 0.0])
  {
    SinceOfTwo(0.0, 0.0, 0.0 - MINUTE);
    SinceOfTwo(0.0, 0.0, 0.0 - HOUR);
    AdmitNext(s, one, 0.0, [0.0], [0.0]);
    assert [0.0] + [0.0] == [0.0, 0.0];
  }

  // A call just past the minute finds the two at 0 too old and drops them.
  lemma ThirdAdmitted(s: Settings, two: seq<Call>, late: real)
    requires s == Settings(2, 100) && Holds(s, two, [0.0, 0.0], [0.0, 0.0]) && MINUTE < late <= HOUR
    ensures Holds(s, two + [At(late)], [late], [0.0, 0.0] + [late])
  {
    SinceOfTwo(0.0, 0.0, late - MINUTE);
    SinceOfTwo(0.0, 0.0, late - HOUR);
    AdmitNext(s, two, late, [], [0.0, 0.0]);
    assert [] + [late] == [late];
  }

  lemma AllStillCount(late: real, now: real)
    requires now <= late && now <= HOUR && late <= HOUR
    ensures Since([late], now - MINUTE) == [late] && Since([0.0, 0.0] + [late], now - HOUR) == [0.0, 0.0] + [late]
  {
    SinceOfTwo(late, late, now - MINUTE);
    SinceOfTwo(0.0, 0.0, now - HOUR);
    SinceSnoc([0.0, 0.0], late, now - HOUR);
  }

  lemma FourthAdmitted(s: Settings, three: seq<Call>, late: real, now: real)
    requires s == Settings(2, 100) && Holds(s, three, [late], [0.0, 0.0] + [late]) && now <= late <= HOUR
    ensures Admitted(s, three + [At(now)]) == three + [At(now)]
  {
    AllStillCount(late, now);
    AdmitNext(s, three, now, [late], [0.0, 0.0] + [late]);
  }

  lemma ThreeMoreAdmitted(s: Settings, one: seq<Call>, late: real, now: real) returns (calls: seq<Call>)
    requires s == Settings(2, 100) && |one| == 1 && Holds(s, one, [0.0], [0.0]) && MINUTE < late <= HOUR && now <= late
    ensures Admitted(s, calls) == calls
    ensures |calls| == 4 && calls[0] == one[0] && calls[1] == At(0.0) && calls[2] == At(late) && calls[3] == At(now)
  {
    SecondAdmitted(s, one);
    ThirdAdmitted(s, one + [At(0.0)], late);
    FourthAdmitted(s, one + [At(0.0)] + [At(late)], late, now);
    calls := one + [At(0.0)] + [At(late)] + [At(now)];
  }

  // Two calls at 0, one just past the minute that takes the lock early, and one `skew` before it.
  predicate IsLateLock(calls: seq<Call>, skew: real, extra: real) {
    && |calls| == 4 && calls[0] == calls[1] == At(0.0)
    && calls[2] == At(MINUTE + extra) && calls[3] == At(MINUTE + extra - skew)
  }

  lemma LateLockAdmitted(skew: real, extra: real) returns (calls: seq<Call>)
    requires 0.0 < extra <= skew <= MINUTE
    ensures IsLateLock(calls, skew, extra) && Admitted(Settings(2, 100), calls) == calls
  {
    var one := FirstAdmitted(Settings(2, 100));
    calls := ThreeMoreAdmitted(Settings(2, 100), one, MINUTE + extra, MINUTE + extra - skew);
  }

  // The skew really costs that much: for every skew a log within it on which a window longer than a
  // minute minus the skew, by however little, holds more accepted calls than the limit of two. If
  // `extra` is the skew itself, that is a full closed minute.
  lemma SkewBoundIsTight(skew: real, extra: real) returns (calls: seq<Call>)
    requires 0.0 < extra <= skew <= MINUTE
    ensures IsLateLock(calls, skew, extra) && SkewWithin(calls, skew, skew) && !ClocksAdvance(calls)
    ensures Admitted(Settings(2, 100), calls) == calls
    ensures CountTenant(calls, "tenant", 0.0, 0.0 + (MINUTE - skew + extra)) == 3
  {
    calls := LateLockAdmitted(skew, extra);
    OverTheLimit(calls, skew, extra);
    LateLockSkew(calls, skew, extra);
  }

  lemma LateLockSkew(calls: seq<Call>, skew: real, extra: real)
    requires 0.0 < extra <= skew <= MINUTE && IsLateLock(calls, skew, extra)
    ensures SkewWithin(calls, skew, skew) && !ClocksAdvance(calls)
  {
    assert calls[2].mono > calls[3].mono;
  }

  lemma OverTheLimit(calls: seq<Call>, skew: real, extra: real)
    requires 0.0 < extra <= skew <= MINUTE && IsLateLock(calls, skew, extra)
    ensures CountTenant(calls, "tenant", 0.0, 0.0 + (MINUTE - skew + extra)) == 3
  {
    var to := 0.0 + (MINUTE - skew + extra);
    assert CountTenant(calls[..1], "tenant", 0.0, to) == 1;
    assert calls[..2][..1] == calls[..1];
    assert CountTenant(calls[..2], "tenant", 0.0, to) == 2;
    assert calls[..3][..2] == calls[..2];
    assert CountTenant(calls[..3], "tenant", 0.0, to) == 2;
  }

  // ---------------------------------------------------------------- the module state

  class RateLimiter {
    var windows: map<string, seq<real>>
    var globalHits: seq<real>
    const settings: Settings
    ghost var calls: seq<Call>

    constructor (settings: Settings)
      ensures this.settings == settings && calls == [] && Valid()
    {
      this.settings := settings;
      windows := map[];
      globalHits := [];
      calls := [];
    }

    function View(): Windows
      reads this
    {
      Windows(windows, globalHits)
    }

    ghost predicate Valid()
      reads this
    {
      View() == AfterAll(settings, calls)
    }

    // The verdict is the one the complete accepted history gives, whenever the clocks advanced.
    method CheckTenantRateLimit(c: Call) returns (verdict: Verdict)
      requires Valid()
      modifies this
      ensures Valid() && calls == old(calls) + [c]
      ensures Admitted(settings, calls)
              == Admitted(settings, old(calls)) + (if verdict == Allowed then [c] else [])
      ensures settings.perMinute <= 0 ==> verdict == Allowed && View() == old(View())
      ensures settings.perMinute > 0 && ClocksAdvance(calls) ==>
                verdict == Judge(settings, Accepted(settings, old(calls)), c)
    {
      ghost var before := calls;
      calls := calls + [c];
      assert calls[..|before|] == before;
      if settings.perMinute > 0 && ClocksAdvance(calls) {
        PruningIsExact(settings, before, c);
      }
      verdict := DecideAndRecord(c);
    }

    method DecideAndRecord(c: Call) returns (verdict: Verdict)
      modifies this`windows, this`globalHits
      ensures View() == After(settings, old(View()), c)
      ensures verdict == Decide(settings, old(View()), c)
    {
      if settings.perMinute <= 0 {
        return Allowed;
      }
      globalHits := Since(globalHits, c.wall - HOUR);
      if |globalHits| >= settings.perHour {
        return Runaway;
      }
      if c.user !in windows {
        windows := windows[c.user := []];
      }
      var hits := Since(windows[c.user], c.mono - MINUTE);
      if |hits| >= settings.perMinute {
        assert windows == old(windows)[c.user := HitsOf(old(View()), c.user)];
        return TenantLimited;
      }
      hits := hits + [c.mono];
      globalHits := globalHits + [c.wall];
      windows := windows[c.user := hits];
      return Allowed;
    }
  }
}
