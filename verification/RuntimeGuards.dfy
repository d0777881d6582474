// In-process runaway detection (app/runtime/runtime_guards.py): a window of rebuild completions
// pruned from the front only, and a counter of consecutive busy deferrals.
module RuntimeGuards {
  import opened RebuildRows

  const HOUR: int := 3600 * SECOND
  const BUSY_STORM: nat := 10

  datatype Guard = Guard(completed: seq<Time>, busyDefers: nat)

  // Drops entries from the front while they are older than the cutoff.
  function PopOlder(s: seq<Time>, cutoff: Time): seq<Time> {
    if s != [] && s[0] < cutoff then PopOlder(s[1..], cutoff) else s
  }

  datatype Outcome = BusyDeferred | Dispatched(now: Time) | Unsuccessful

  // What the dispatcher reports to the guard for each outcome.
  function Observe(g: Guard, o: Outcome): Guard {
    match o
    case BusyDeferred => g.(busyDefers := g.busyDefers + 1)
    case Dispatched(now) => Guard(PopOlder(g.completed + [now], now - HOUR), 0)
    case Unsuccessful => g
  }

  function AfterAll(os: seq<Outcome>): Guard {
    if os == [] then Guard([], 0) else Observe(AfterAll(os[..|os| - 1]), os[|os| - 1])
  }

  // ---------------------------------------------------------------- reference definitions

  // Every completion ever reported.
  function Completions(os: seq<Outcome>): seq<Time> {
    if os == [] then []
    else
      Completions(os[..|os| - 1])
      + (if os[|os| - 1].Dispatched? then [os[|os| - 1].now] else [])
  }

  function From(s: seq<Time>, cutoff: Time): seq<Time> {
    if s == [] then []
    else From(s[..|s| - 1], cutoff) + (if s[|s| - 1] >= cutoff then [s[|s| - 1]] else [])
  }

  function BusyCount(os: seq<Outcome>): nat {
    if os == [] then 0 else BusyCount(os[..|os| - 1]) + (if os[|os| - 1].BusyDeferred? then 1 else 0)
  }

  predicate Ascending(s: seq<Time>) {
    forall i, j | 0 <= i < j < |s| :: s[i] <= s[j]
  }

  // ---------------------------------------------------------------- the window

  lemma {:induction false} FromElements(s: seq<Time>, cutoff: Time)
    ensures forall t :: t in From(s, cutoff) <==> t in s && t >= cutoff
  {
    if s != [] {
      assert s == s[..|s| - 1] + [s[|s| - 1]];
      FromElements(s[..|s| - 1], cutoff);
    }
  }

  lemma {:induction false} FromAll(s: seq<Time>, cutoff: Time)
    requires forall t | t in s :: t >= cutoff
    ensures From(s, cutoff) == s
  {
    if s != [] {
      var front, last := s[..|s| - 1], s[|s| - 1];
      assert s == front + [last];
      forall t | t in front ensures t >= cutoff {
        assert t in s;
      }
      assert last in s;
      FromAll(front, cutoff);
    }
  }

  // Filtering drops nothing exactly if every entry is recent enough.
  lemma FromAllExactly(s: seq<Time>, cutoff: Time)
    ensures From(s, cutoff) == s <==> forall t | t in s :: t >= cutoff
  {
    FromElements(s, cutoff);
    if forall t | t in s :: t >= cutoff {
      FromAll(s, cutoff);
    }
  }

  lemma {:induction false} FromDropsHead(s: seq<Time>, cutoff: Time)
    requires s != [] && s[0] < cutoff
    ensures From(s, cutoff) == From(s[1..], cutoff)
  {
    var n := |s| - 1;
    if n == 0 {
      assert s[..0] == [];
    } else {
      FromDropsHead(s[..n], cutoff);
      assert s[..n][1..] == s[1..][..n - 1];
    }
  }

  // No entry older than the cutoff stands behind one that is not.
  ghost predicate OlderInFront(s: seq<Time>, cutoff: Time) {
    forall i, j | 0 <= i < j < |s| && s[i] >= cutoff :: s[j] >= cutoff
  }

  lemma HeadDecides(s: seq<Time>, cutoff: Time)
    requires s == [] || s[0] >= cutoff
    ensures OlderInFront(s, cutoff) <==> forall t | t in s :: t >= cutoff
  {
    if OlderInFront(s, cutoff) {
      forall t | t in s ensures t >= cutoff {
        var i :| 0 <= i < |s| && s[i] == t;
        assert i == 0 || s[i] >= cutoff;
      }
    }
    if forall t | t in s :: t >= cutoff {
      assert forall i | 0 <= i < |s| :: s[i] in s;
    }
  }

  // Front pruning is filtering exactly if the older entries stand in front, as they do in an
  // ascending list.
  lemma {:induction false} PopIsFilterExactly(s: seq<Time>, cutoff: Time)
    ensures PopOlder(s, cutoff) == From(s, cutoff) <==> OlderInFront(s, cutoff)
    ensures Ascending(s) ==> OlderInFront(s, cutoff) && Ascending(PopOlder(s, cutoff))
  {
    if s != [] && s[0] < cutoff {
      FromDropsHead(s, cutoff);
      PopIsFilterExactly(s[1..], cutoff);
      assert OlderInFront(s[1..], cutoff) ==> OlderInFront(s, cutoff) by {
        assert forall i | 0 < i < |s| :: s[i] == s[1..][i - 1];
      }
    } else {
      FromAllExactly(s, cutoff);
      HeadDecides(s, cutoff);
    }
  }

  lemma {:induction false} FromOfFrom(s: seq<Time>, early: Time, late: Time)
    requires early <= late
    ensures From(From(s, early), late) == From(s, late)
  {
    if s != [] {
      var n := |s| - 1;
      FromOfFrom(s[..n], early, late);
      var front := From(s[..n], early);
      if s[n] >= early {
        assert (front + [s[n]])[..|front|] == front;
      } else {
        assert From(s, early) == front;
      }
    }
  }

  lemma FromSnoc(s: seq<Time>, t: Time, cutoff: Time)
    ensures From(s + [t], cutoff) == From(s, cutoff) + (if t >= cutoff then [t] else [])
  {
    assert (s + [t])[..|s|] == s;
  }

  lemma AscendingFront(s: seq<Time>, t: Time)
    requires Ascending(s + [t])
    ensures Ascending(s) && forall x | x in s :: x <= t
  {
    var longer := s + [t];
    forall x | x in s ensures x <= t {
      var i :| 0 <= i < |s| && s[i] == x;
      assert longer[i] <= longer[|s|];
    }
    forall i, j | 0 <= i < j < |s| ensures s[i] <= s[j] {
      assert longer[i] <= longer[j];
    }
  }

  lemma AscendingSnoc(s: seq<Time>, t: Time)
    requires Ascending(s) && forall x | x in s :: x <= t
    ensures Ascending(s + [t])
  {
    forall i, j | 0 <= i < j < |s + [t]| ensures (s + [t])[i] <= (s + [t])[j] {
      assert (s + [t])[i] == s[i] && s[i] in s;
    }
  }

  // Sliding the hour forward: what was pruned before would be filtered out now as well.
  lemma SlideWindow(before: seq<Time>, early: Time, now: Time)
    requires forall t | t in before :: t <= now
    requires Ascending(From(before, early)) && early <= now - HOUR
    ensures PopOlder(From(before, early) + [now], now - HOUR) == From(before + [now], now - HOUR)
    ensures Ascending(PopOlder(From(before, early) + [now], now - HOUR))
  {
    var window := From(before, early);
    FromElements(before, early);
    AscendingSnoc(window, now);
    PopIsFilterExactly(window + [now], now - HOUR);
    FromSnoc(window, now, now - HOUR);
    FromOfFrom(before, early, now - HOUR);
    FromSnoc(before, now, now - HOUR);
  }

  function LastHour(all: seq<Time>): seq<Time> {
    if all == [] then [] else From(all, all[|all| - 1] - HOUR)
  }

  // The window is closed at its start: it holds what is no more than 3600 seconds older than the last.
  lemma LastHourMeaning(all: seq<Time>, t: Time)
    requires all != []
    ensures t in LastHour(all) <==> t in all && t >= all[|all| - 1] - 3600 * SECOND
  {
    FromElements(all, all[|all| - 1] - HOUR);
  }

  lemma SlideLastHour(before: seq<Time>, now: Time)
    requires Ascending(before + [now]) && Ascending(LastHour(before))
    ensures PopOlder(LastHour(before) + [now], now - HOUR) == LastHour(before + [now])
    ensures Ascending(LastHour(before + [now]))
  {
    AscendingFront(before, now);
    assert (before + [now])[|before + [now]| - 1] == now;
    if before == [] {
      assert From([], now - HOUR) == [];
      SlideWindow([], now - HOUR, now);
    } else {
      assert before[|before| - 1] in before;
      SlideWindow(before, before[|before| - 1] - HOUR, now);
    }
  }

  lemma SlideForward(before: seq<Time>, early: Time, now: Time)
    requires early <= now - HOUR
    ensures PopOlder(From(before, early) + [now], now - HOUR) == From(before + [now], now - HOUR)
            <==> OlderInFront(From(before, early) + [now], now - HOUR)
  {
    FromSnoc(before, now, now - HOUR);
    FromOfFrom(before, early, now - HOUR);
    FromSnoc(From(before, early), now, now - HOUR);
    PopIsFilterExactly(From(before, early) + [now], now - HOUR);
  }

  lemma SlideBack(before: seq<Time>, late: Time, now: Time)
    requires late > now - HOUR
    ensures PopOlder(From(before, late) + [now], now - HOUR) == From(before + [now], now - HOUR)
            <==> forall t | t in before :: !(now - HOUR <= t < late)
  {
    var window, wider := From(before, late), From(before, now - HOUR);
    FromElements(before, late);
    FromElements(before, now - HOUR);
    assert window != [] ==> window[0] in window;
    assert PopOlder(window + [now], now - HOUR) == window + [now];
    FromSnoc(before, now, now - HOUR);
    FromOfFrom(before, now - HOUR, late);
    FromAllExactly(wider, late);
    SameLastDropped(window, wider, now);
  }

  // One completion at any reading, from a deque that holds the hour before the last one. If the
  // clock has not stepped back, the deque is right again exactly if no entry outside the hour stands
  // behind one inside. If it has, exactly if no completion lies between the two cutoffs.
  lemma SlideExactly(before: seq<Time>, now: Time)
    requires before != []
    ensures PopOlder(LastHour(before) + [now], now - HOUR) == LastHour(before + [now]) <==> SlidesRight(before, now)
  {
    var last := before[|before| - 1];
    assert (before + [now])[|before + [now]| - 1] == now;
    assert LastHour(before) == From(before, last - HOUR);
    assert LastHour(before + [now]) == From(before + [now], now - HOUR);
    if last <= now {
      SlideForward(before, last - HOUR, now);
    } else {
      SlideBack(before, last - HOUR, now);
    }
  }

  // What the next reading has to satisfy for a right deque to stay right.
  ghost predicate SlidesRight(before: seq<Time>, now: Time) {
    before == [] ||
    var last := before[|before| - 1];
    if last <= now then OlderInFront(LastHour(before) + [now], now - HOUR)
    else forall t | t in before :: !(now - HOUR <= t < last - HOUR)
  }

  ghost predicate EveryReadingSlidesRight(os: seq<Outcome>) {
    os == [] ||
    var front, last := os[..|os| - 1], os[|os| - 1];
    EveryReadingSlidesRight(front) && (last.Dispatched? ==> SlidesRight(Completions(front), last.now))
  }

  // The deque holds the last hour of all completions, now and after every earlier outcome.
  ghost predicate AlwaysLastHour(os: seq<Outcome>) {
    && AfterAll(os).completed == LastHour(Completions(os))
    && (os == [] || AlwaysLastHour(os[..|os| - 1]))
  }

  // Over whole logs, with a clock that may jump either way: the deque is right throughout if and
  // only if every completion's reading satisfies the condition on the completions before it.
  lemma {:induction false} AlwaysLastHourExactly(os: seq<Outcome>)
    ensures AlwaysLastHour(os) <==> EveryReadingSlidesRight(os)
  {
    if os != [] {
      var front, last := os[..|os| - 1], os[|os| - 1];
      AlwaysLastHourExactly(front);
      if last.Dispatched? {
        var before := Completions(front);
        assert Completions(os) == before + [last.now];
        if before == [] {
          assert LastHour([] + [last.now]) == From([] + [last.now], last.now - HOUR);
          FromSnoc([], last.now, last.now - HOUR);
          assert PopOlder([] + [last.now], last.now - HOUR) == [] + [last.now];
        } else {
          SlideExactly(before, last.now);
        }
      } else {
        assert Completions(os) == Completions(front);
      }
    }
  }

  lemma SameLastDropped(a: seq<Time>, b: seq<Time>, t: Time)
    ensures a + [t] == b + [t] <==> a == b
  {
    if a + [t] == b + [t] {
      assert (a + [t])[..|a|] == a && (b + [t])[..|b|] == b;
    }
  }

  // The deque after any outcomes, while the clock does not run backwards: it is ascending, and it
  // is the list of all completions filtered to the hour before the latest one.
  lemma {:induction false} WindowIsLastHour(os: seq<Outcome>)
    requires Ascending(Completions(os))
    ensures Ascending(AfterAll(os).completed)
    ensures AfterAll(os).completed == LastHour(Completions(os))
  {
    if os != [] {
      var n := |os| - 1;
      var before := Completions(os[..n]);
      if os[n].Dispatched? {
        AscendingFront(before, os[n].now);
        WindowIsLastHour(os[..n]);
        SlideLastHour(before, os[n].now);
      } else {
        assert Completions(os) == before;
        WindowIsLastHour(os[..n]);
      }
    }
  }

  lemma ObserveSnoc(os: seq<Outcome>, now: Time)
    ensures Completions(os + [Dispatched(now)]) == Completions(os) + [now]
    ensures AfterAll(os + [Dispatched(now)]).completed == PopOlder(AfterAll(os).completed + [now], now - HOUR)
  {
    assert (os + [Dispatched(now)])[..|os|] == os;
  }

  // If the clock steps back the deque keeps a completion from outside the hour behind a newer one:
  // after a completion at `late`, one at `early` and another at `late`, all three are counted.
  lemma BackwardClockOvercounts(early: Time, late: Time) returns (os: seq<Outcome>)
    requires early < late - HOUR
    ensures Completions(os) == [late, early, late] && AfterAll(os).completed == [late, early, late]
    ensures From(Completions(os), late - HOUR) == [late, late]
  {
    var one, two: seq<Outcome> := [] + [Dispatched(late)], [] + [Dispatched(late)] + [Dispatched(early)];
    ObserveSnoc([], late);
    assert AfterAll(one).completed == [] + [late] && Completions(one) == [] + [late];
    ObserveSnoc(one, early);
    assert AfterAll(two).completed == [late] + [early];
    os := two + [Dispatched(late)];
    ObserveSnoc(two, late);
    assert AfterAll(os).completed == [late] + [early] + [late];
    FromSnoc([], late, late - HOUR);
    FromSnoc([] + [late], early, late - HOUR);
    FromSnoc([] + [late] + [early], late, late - HOUR);
    assert Completions(os) == [] + [late] + [early] + [late];
  }

  // ---------------------------------------------------------------- the busy counter

  lemma {:induction false} BusyFrom(a: seq<Outcome>, b: seq<Outcome>)
    requires forall o | o in b :: !o.Dispatched?
    ensures AfterAll(a + b).busyDefers == AfterAll(a).busyDefers + BusyCount(b)
  {
    if b == [] {
      assert a + b == a;
    } else {
      var n := |b| - 1;
      assert (a + b)[..|a + b| - 1] == a + b[..n];
      BusyFrom(a, b[..n]);
    }
  }

  // The counter is the number of busy outcomes since the last success, or since the start.
  lemma BusyCounterIsSinceSuccess(a: seq<Outcome>, success: Outcome, b: seq<Outcome>)
    requires success.Dispatched? && forall o | o in b :: !o.Dispatched?
    ensures AfterAll(a + [success] + b).busyDefers == BusyCount(b)
    ensures AfterAll(b).busyDefers == BusyCount(b)
  {
    assert (a + [success])[..|a|] == a;
    BusyFrom(a + [success], b);
    BusyFrom([], b);
    assert [] + b == b;
  }

  // ---------------------------------------------------------------- the object

  class RuntimeGuardState {
    var rebuildCompletedTimestamps: seq<Time>
    var consecutiveBusyDefers: nat
    var cyclesWithoutDispatch: nat

    constructor ()
      ensures View() == AfterAll([]) && cyclesWithoutDispatch == 0
    {
      rebuildCompletedTimestamps := [];
      consecutiveBusyDefers := 0;
      cyclesWithoutDispatch := 0;
    }

    function View(): Guard
      reads this
    {
      Guard(rebuildCompletedTimestamps, consecutiveBusyDefers)
    }

    // Both alarms compare the size of the pruned window with their thresholds.
    method RecordRebuildCompleted(now: Time, stormLimit: int, runawayLimit: int) returns (storm: bool, runaway: bool)
      modifies this`rebuildCompletedTimestamps
      ensures rebuildCompletedTimestamps == PopOlder(old(rebuildCompletedTimestamps) + [now], now - HOUR)
      ensures storm == (|rebuildCompletedTimestamps| > stormLimit)
      ensures runaway == (|rebuildCompletedTimestamps| > runawayLimit)
    {
      rebuildCompletedTimestamps := rebuildCompletedTimestamps + [now];
      var cutoff := now - HOUR;
      while rebuildCompletedTimestamps != [] && rebuildCompletedTimestamps[0] < cutoff
        invariant PopOlder(rebuildCompletedTimestamps, cutoff)
                  == PopOlder(old(rebuildCompletedTimestamps) + [now], cutoff)
        decreases |rebuildCompletedTimestamps|
      {
        rebuildCompletedTimestamps := rebuildCompletedTimestamps[1..];
      }
      var count := |rebuildCompletedTimestamps|;
      storm := count > stormLimit;
      runaway := count > runawayLimit;
    }

    method RecordBusyDefer() returns (contentionStorm: bool)
      modifies this`consecutiveBusyDefers
      ensures View() == Observe(old(View()), BusyDeferred)
      ensures consecutiveBusyDefers == old(consecutiveBusyDefers) + 1
      ensures contentionStorm == (consecutiveBusyDefers >= 10)
    {
      consecutiveBusyDefers := consecutiveBusyDefers + 1;
      return consecutiveBusyDefers >= BUSY_STORM;
    }

    method RecordDispatchSuccess()
      modifies this`consecutiveBusyDefers, this`cyclesWithoutDispatch
      ensures consecutiveBusyDefers == 0 && cyclesWithoutDispatch == 0
    {
      consecutiveBusyDefers := 0;
      cyclesWithoutDispatch := 0;
    }
  }

  // How many successes found more than stormLimit completions in their window.
  function StormCount(os: seq<Outcome>, stormLimit: int): nat {
    if os == [] then 0
    else
      StormCount(os[..|os| - 1], stormLimit)
      + (if os[|os| - 1].Dispatched? && |AfterAll(os).completed| > stormLimit then 1 else 0)
  }

  // A process reports a list of outcomes to its guard. Afterwards the guard's fields hold what the
  // reference definitions say about the list.
  method ReportAll(os: seq<Outcome>, stormLimit: int) returns (guard: RuntimeGuardState, storms: nat)
    ensures fresh(guard) && guard.View() == AfterAll(os)
    ensures storms == StormCount(os, stormLimit)
  {
    guard := new RuntimeGuardState();
    storms := 0;
    for i := 0 to |os|
      invariant guard.View() == AfterAll(os[..i]) && fresh(guard)
      invariant storms == StormCount(os[..i], stormLimit)
    {
      assert os[..i + 1][..i] == os[..i];
      match os[i] {
        case BusyDeferred =>
          var _ := guard.RecordBusyDefer();
        case Dispatched(now) =>
          guard.RecordDispatchSuccess();
          var storm, _ := guard.RecordRebuildCompleted(now, stormLimit, stormLimit);
          if storm {
            storms := storms + 1;
          }
        case Unsuccessful =>
      }
    }
    assert os[..|os|] == os;
  }
}
