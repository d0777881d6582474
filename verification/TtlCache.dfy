// The in-process TTL cache (app/core/ttl_cache.py) against the log of the operations on it.
module TtlCaches {
  import opened Common

  datatype Entry = Entry(value: int, expiresAt: real)

  type Entries = map<string, Entry>

  // `ttl` in seconds of the monotonic clock.
  datatype Limits = Limits(ttl: real, maxEntries: int)

  // Operations in the order in which they take the lock. `at` is the clock reading taken before
  // the lock, `lockedAt` the one taken inside it when entries have to be evicted.
  datatype Op =
    | Set(key: string, value: int, at: real, lockedAt: real)
    | Get(key: string, at: real)
    | Invalidate(prefix: string)

  predicate StartsWith(key: string, prefix: string) {
    prefix <= key
  }

  // ---------------------------------------------------------------- one operation

  function Unexpired(e: Entries, now: real): Entries {
    map k | k in e && !(e[k].expiresAt <= now) :: e[k]
  }

  function Remove(e: Entries, key: string): Entries {
    map k | k in e && k != key :: e[k]
  }

  predicate IsOldest(e: Entries, victim: string) {
    victim in e && forall k | k in e :: e[victim].expiresAt <= e[k].expiresAt
  }

  // What is left after making room: everything below capacity, otherwise the unexpired entries,
  // less one that expires soonest if they still fill the cache.
  ghost predicate MadeRoom(lim: Limits, e: Entries, now: real, room: Entries) {
    if |e| < lim.maxEntries then room == e
    else
      var live := Unexpired(e, now);
      if |live| < lim.maxEntries then room == live
      else exists victim :: IsOldest(live, victim) && room == Remove(live, victim)
  }

  function Looked(e: Entries, key: string, now: real): Entries {
    if key in e && e[key].expiresAt <= now then Remove(e, key) else e
  }

  function Hit(e: Entries, key: string, now: real): Option<int> {
    if key in e && !(e[key].expiresAt <= now) then Some(e[key].value) else None
  }

  function Invalidated(e: Entries, prefix: string): Entries {
    map k | k in e && !StartsWith(k, prefix) :: e[k]
  }

  ghost predicate Step(lim: Limits, e: Entries, op: Op, after: Entries) {
    match op
    case Set(key, value, at, lockedAt) =>
      exists room :: MadeRoom(lim, e, lockedAt, room) && after == room[key := Entry(value, at + lim.ttl)]
    case Get(key, at) => after == Looked(e, key, at)
    case Invalidate(prefix) => after == Invalidated(e, prefix)
  }

  // The entries e may be in the cache after the logged operations.
  ghost predicate Reaches(lim: Limits, ops: seq<Op>, e: Entries) {
    if ops == [] then e == map[]
    else
      var front, last := ops[..|ops| - 1], ops[|ops| - 1];
      exists before :: Reaches(lim, front, before) && Step(lim, before, last, e)
  }

  // ---------------------------------------------------------------- reference: the log alone

  datatype Written = Written(value: int, at: real)

  // The latest set of the key, unless a matching invalidation came after it.
  function Latest(ops: seq<Op>, key: string): Option<Written> {
    if ops == [] then None
    else
      var op := ops[|ops| - 1];
      if op.Set? && op.key == key then Some(Written(op.value, op.at))
      else if op.Invalidate? && StartsWith(key, op.prefix) then None
      else Latest(ops[..|ops| - 1], key)
  }

  // A cache with unlimited room: the latest write while it is younger than the ttl.
  function ModelGet(lim: Limits, ops: seq<Op>, key: string, now: real): Option<int> {
    var w := Latest(ops, key);
    if w.Some? && !(w.value.at + lim.ttl <= now) then Some(w.value.value) else None
  }

  // The other keys set since the key was last set.
  function SetSince(ops: seq<Op>, key: string): set<string> {
    if ops == [] then {}
    else
      var op := ops[|ops| - 1];
      if op.Set? && op.key == key then {}
      else SetSince(ops[..|ops| - 1], key) + (if op.Set? then {op.key} else {})
  }

  // ---------------------------------------------------------------- hits are right

  // Whatever is stored is the key's latest write.
  ghost predicate Refines(lim: Limits, ops: seq<Op>, e: Entries) {
    forall k | k in e ::
      && Latest(ops, k).Some?
      && e[k] == Entry(Latest(ops, k).value.value, Latest(ops, k).value.at + lim.ttl)
  }

  lemma RefinesStep(lim: Limits, front: seq<Op>, before: Entries, op: Op, e: Entries)
    requires Refines(lim, front, before) && Step(lim, before, op, e)
    ensures Refines(lim, front + [op], e)
  {
    var ops := front + [op];
    assert ops[..|front|] == front;
    forall k | k in e
      ensures Latest(ops, k).Some? && e[k] == Entry(Latest(ops, k).value.value, Latest(ops, k).value.at + lim.ttl)
    {
      if !(op.Set? && op.key == k) {
        assert k in before && e[k] == before[k];
      }
    }
  }

  lemma {:induction false} EntriesAreLatest(lim: Limits, ops: seq<Op>, e: Entries)
    requires Reaches(lim, ops, e)
    ensures Refines(lim, ops, e)
  {
    if ops != [] {
      var front, last := ops[..|ops| - 1], ops[|ops| - 1];
      var before :| Reaches(lim, front, before) && Step(lim, before, last, e);
      EntriesAreLatest(lim, front, before);
      RefinesStep(lim, front, before, last, e);
      assert ops == front + [last];
    }
  }

  // Refinement: whatever the clock readings and the interleaving of lock acquisitions, a hit is a
  // hit of the unlimited cache with the same value.
  lemma {:induction false} HitsAgreeWithLog(lim: Limits, ops: seq<Op>, e: Entries, key: string, now: real)
    requires Reaches(lim, ops, e) && Hit(e, key, now).Some?
    ensures Hit(e, key, now) == ModelGet(lim, ops, key, now)
  {
    EntriesAreLatest(lim, ops, e);
  }

  // The unlimited cache's answer in terms of positions in the log.
  lemma {:induction false} LatestMeaning(ops: seq<Op>, key: string)
    ensures Latest(ops, key).Some? <==>
              exists i :: 0 <= i < |ops| && ops[i].Set? && ops[i].key == key
                          && forall j | i < j < |ops| :: !(ops[j].Invalidate? && StartsWith(key, ops[j].prefix))
    ensures Latest(ops, key).Some? ==>
              exists i :: 0 <= i < |ops| && ops[i].Set? && ops[i].key == key
                          && Latest(ops, key).value == Written(ops[i].value, ops[i].at)
                          && forall j | i < j < |ops| ::
                               && !(ops[j].Set? && ops[j].key == key)
                               && !(ops[j].Invalidate? && StartsWith(key, ops[j].prefix))
  {
    if ops != [] {
      var n := |ops| - 1;
      var front, op := ops[..n], ops[n];
      LatestMeaning(front, key);
      if op.Set? && op.key == key {
        assert ops[n].Set?;
      } else if !(op.Invalidate? && StartsWith(key, op.prefix)) {
        forall i | 0 <= i < n ensures ops[i] == front[i] {
        }
      }
    }
  }

  // A hit in words: some set of the key stored that value less than the ttl ago, and after it the
  // key was neither set again nor matched by an invalidated prefix.
  lemma HitMeaning(lim: Limits, ops: seq<Op>, e: Entries, key: string, now: real)
    requires Reaches(lim, ops, e) && Hit(e, key, now).Some?
    ensures exists i ::
              && 0 <= i < |ops| && ops[i].Set? && ops[i].key == key && ops[i].value == Hit(e, key, now).value
              && ops[i].at + lim.ttl > now
              && forall j | i < j < |ops| ::
                   !(ops[j].Set? && ops[j].key == key) && !(ops[j].Invalidate? && ops[j].prefix <= key)
  {
    HitsAgreeWithLog(lim, ops, e, key, now);
    LatestMeaning(ops, key);
    var i :| 0 <= i < |ops| && ops[i].Set? && ops[i].key == key
             && Latest(ops, key).value == Written(ops[i].value, ops[i].at)
             && forall j | i < j < |ops| ::
                  && !(ops[j].Set? && ops[j].key == key)
                  && !(ops[j].Invalidate? && StartsWith(key, ops[j].prefix));
  }

  // The keys that count against a key's retention, in terms of positions in the log.
  lemma {:induction false} SetSinceMeaning(ops: seq<Op>, key: string, other: string)
    ensures other in SetSince(ops, key) <==>
              && other != key
              && exists i :: 0 <= i < |ops| && ops[i].Set? && ops[i].key == other
                             && forall j | i < j < |ops| :: !(ops[j].Set? && ops[j].key == key)
  {
    if ops != [] {
      var n := |ops| - 1;
      var front, op := ops[..n], ops[n];
      SetSinceMeaning(front, key, other);
      if op.Set? && op.key == other && other != key {
        assert ops[n].Set?;
      }
      forall i | 0 <= i < n ensures ops[i] == front[i] {
      }
    }
  }

  lemma PrefixExactly(key: string, prefix: string)
    ensures StartsWith(key, prefix) <==> exists rest :: key == prefix + rest
  {
    if StartsWith(key, prefix) {
      assert key == prefix + key[|prefix|..];
    }
  }

  // ---------------------------------------------------------------- capacity

  lemma RemoveSize(e: Entries, key: string)
    requires key in e
    ensures |Remove(e, key)| == |e| - 1
  {
    assert Remove(e, key).Keys == e.Keys - {key};
  }

  lemma SubsetSize(small: Entries, big: Entries)
    requires small.Keys <= big.Keys
    ensures |small| <= |big|
  {
    KeysWithin(small.Keys, big.Keys);
    assert |small| == |small.Keys| && |big| == |big.Keys|;
  }

  lemma {:induction false} KeysWithin(a: set<string>, b: set<string>)
    requires a <= b
    ensures |a| <= |b|
  {
    assert b == a + (b - a);
  }

  lemma RoomSize(lim: Limits, e: Entries, now: real, room: Entries)
    requires lim.maxEntries >= 1 && |e| <= lim.maxEntries && MadeRoom(lim, e, now, room)
    ensures |room| <= lim.maxEntries - 1
  {
    if |e| >= lim.maxEntries {
      var live := Unexpired(e, now);
      SubsetSize(live, e);
      if |live| >= lim.maxEntries {
        var victim :| IsOldest(live, victim) && room == Remove(live, victim);
        RemoveSize(live, victim);
      }
    }
  }

  lemma AddSize(e: Entries, key: string, entry: Entry)
    ensures |e[key := entry]| <= |e| + 1
  {
    assert e[key := entry].Keys == e.Keys + {key};
    assert |e.Keys + {key}| <= |e.Keys| + 1;
  }

  lemma StepSize(lim: Limits, before: Entries, op: Op, e: Entries)
    requires lim.maxEntries >= 1 && |before| <= lim.maxEntries && Step(lim, before, op, e)
    ensures |e| <= lim.maxEntries
  {
    match op
    case Set(key, value, at, lockedAt) =>
      var room :| MadeRoom(lim, before, lockedAt, room) && e == room[key := Entry(value, at + lim.ttl)];
      RoomSize(lim, before, lockedAt, room);
      AddSize(room, key, Entry(value, at + lim.ttl));
    case Get(key, at) => SubsetSize(e, before);
    case Invalidate(_) => SubsetSize(e, before);
  }

  // The entry count never exceeds the capacity.
  lemma {:induction false} CapacityHolds(lim: Limits, ops: seq<Op>, e: Entries)
    requires lim.maxEntries >= 1 && Reaches(lim, ops, e)
    ensures |e| <= lim.maxEntries
  {
    if ops != [] {
      var front, op := ops[..|ops| - 1], ops[|ops| - 1];
      var before :| Reaches(lim, front, before) && Step(lim, before, op, e);
      CapacityHolds(lim, front, before);
      StepSize(lim, before, op, e);
    }
  }

  // ---------------------------------------------------------------- retention

  // No reading in the log is later than `now`.
  predicate NoLaterThan(ops: seq<Op>, now: real) {
    forall i | 0 <= i < |ops| ::
      && (ops[i].Set? ==> ops[i].at <= now && ops[i].lockedAt <= now)
      && (ops[i].Get? ==> ops[i].at <= now)
  }

  predicate SetTimesIncrease(ops: seq<Op>) {
    forall i, j | 0 <= i < j < |ops| && ops[i].Set? && ops[j].Set? :: ops[i].at < ops[j].at
  }

  // A set with increasing times is newer than everything written before it.
  lemma LatestIsOlder(ops: seq<Op>, last: Op, key: string)
    requires SetTimesIncrease(ops + [last]) && last.Set? && Latest(ops, key).Some?
    ensures Latest(ops, key).value.at < last.at
  {
    LatestMeaning(ops, key);
    var i :| 0 <= i < |ops| && ops[i].Set? && Latest(ops, key).value == Written(ops[i].value, ops[i].at);
    var longer := ops + [last];
    assert longer[i] == ops[i] && longer[|ops|] == last;
  }

  // With increasing set times, a key written no earlier than another was set since.
  lemma {:induction false} NewerWasSetSince(ops: seq<Op>, key: string, other: string)
    requires SetTimesIncrease(ops) && key != other
    requires Latest(ops, key).Some? && Latest(ops, other).Some?
    requires Latest(ops, key).value.at <= Latest(ops, other).value.at
    ensures other in SetSince(ops, key)
  {
    var n := |ops| - 1;
    var front, op := ops[..n], ops[n];
    if op.Set? {
      assert ops == front + [op];
      if op.key == key {
        LatestIsOlder(front, op, other);
        assert false;
      } else if op.key != other {
        NewerWasSetSince(front, key, other);
      }
    } else {
      NewerWasSetSince(front, key, other);
    }
  }

  // A live key is not the victim unless at least maxEntries - 1 other keys were set since it was.
  lemma VictimIsLeastRecent(lim: Limits, ops: seq<Op>, live: Entries, victim: string)
    requires Refines(lim, ops, live) && SetTimesIncrease(ops) && IsOldest(live, victim)
    ensures live.Keys - {victim} <= SetSince(ops, victim)
    ensures |live| - 1 <= |SetSince(ops, victim)|
    ensures forall k | k in live && k != victim :: Latest(ops, victim).value.at < Latest(ops, k).value.at
  {
    forall k | k in live && k != victim
      ensures k in SetSince(ops, victim) && Latest(ops, victim).value.at < Latest(ops, k).value.at
    {
      NewerWasSetSince(ops, victim, k);
      if Latest(ops, victim).value.at == Latest(ops, k).value.at {
        NewerWasSetSince(ops, k, victim);
        SetSinceIsOneWay(ops, victim, k);
        assert false;
      }
    }
    KeysWithin(live.Keys - {victim}, SetSince(ops, victim));
    assert |live.Keys - {victim}| == |live.Keys| - 1;
  }

  // Of two keys only one can have been set since the other.
  lemma {:induction false} SetSinceIsOneWay(ops: seq<Op>, a: string, b: string)
    requires a != b
    ensures !(a in SetSince(ops, b) && b in SetSince(ops, a))
  {
    if ops != [] {
      var op := ops[|ops| - 1];
      if !(op.Set? && (op.key == a || op.key == b)) {
        SetSinceIsOneWay(ops[..|ops| - 1], a, b);
      }
    }
  }

  lemma SurvivesRoom(lim: Limits, ops: seq<Op>, e: Entries, now: real, room: Entries, key: string)
    requires Refines(lim, ops, e) && SetTimesIncrease(ops) && MadeRoom(lim, e, now, room)
    requires key in e && !(e[key].expiresAt <= now) && |SetSince(ops, key)| < lim.maxEntries - 1
    ensures key in room
  {
    if |e| >= lim.maxEntries {
      var live := Unexpired(e, now);
      if |live| >= lim.maxEntries {
        var victim :| IsOldest(live, victim) && room == Remove(live, victim);
        VictimIsLeastRecent(lim, ops, live, victim);
      }
    }
  }

  // Retention: a write that is still young, not invalidated, and followed by sets of fewer than
  // maxEntries - 1 other keys is still there.
  lemma {:induction false} Retained(lim: Limits, ops: seq<Op>, e: Entries, key: string, now: real)
    requires Reaches(lim, ops, e) && NoLaterThan(ops, now) && SetTimesIncrease(ops)
    requires ModelGet(lim, ops, key, now).Some? && |SetSince(ops, key)| < lim.maxEntries - 1
    ensures key in e
  {
    var n := |ops| - 1;
    var front, op := ops[..n], ops[n];
    var before :| Reaches(lim, front, before) && Step(lim, before, op, e);
    if op.Set? && op.key == key {
      StepStores(lim, before, op, e);
    } else {
      KeysWithin(SetSince(front, key), SetSince(ops, key));
      Retained(lim, front, before, key, now);
      EntriesAreLatest(lim, front, before);
      assert ops[n] == op;
      StepKeeps(lim, front, before, op, e, key, now);
    }
  }

  lemma StepStores(lim: Limits, before: Entries, op: Op, e: Entries)
    requires op.Set? && Step(lim, before, op, e)
    ensures op.key in e && e[op.key] == Entry(op.value, op.at + lim.ttl)
  {
  }

  lemma StepKeeps(lim: Limits, front: seq<Op>, before: Entries, op: Op, e: Entries, key: string, now: real)
    requires Refines(lim, front, before) && Step(lim, before, op, e) && SetTimesIncrease(front)
    requires key in before && before[key].expiresAt > now && |SetSince(front, key)| < lim.maxEntries - 1
    requires op.Set? ==> op.lockedAt <= now
    requires op.Get? ==> op.at <= now
    requires op.Invalidate? ==> !StartsWith(key, op.prefix)
    ensures key in e
  {
    if op.Set? {
      var room :| MadeRoom(lim, before, op.lockedAt, room) && e == room[op.key := Entry(op.value, op.at + lim.ttl)];
      SurvivesRoom(lim, front, before, op.lockedAt, room, key);
    }
  }

  // So within that reach the bounded cache answers exactly as the unlimited one.
  lemma GetIsExact(lim: Limits, ops: seq<Op>, e: Entries, key: string, now: real)
    requires Reaches(lim, ops, e) && NoLaterThan(ops, now) && SetTimesIncrease(ops)
    requires |SetSince(ops, key)| < lim.maxEntries - 1
    ensures Hit(e, key, now) == ModelGet(lim, ops, key, now)
  {
    if Hit(e, key, now).Some? {
      HitsAgreeWithLog(lim, ops, e, key, now);
    } else if ModelGet(lim, ops, key, now).Some? {
      Retained(lim, ops, e, key, now);
      EntriesAreLatest(lim, ops, e);
    }
  }

  lemma Append(lim: Limits, ops: seq<Op>, before: Entries, op: Op, e: Entries)
    requires Reaches(lim, ops, before) && Step(lim, before, op, e)
    ensures Reaches(lim, ops + [op], e)
  {
    assert (ops + [op])[..|ops|] == ops;
  }

  lemma SpecOfAppend(ops: seq<Op>, op: Op, key: string)
    requires op.Set?
    ensures Latest(ops + [op], key) == if op.key == key then Some(Written(op.value, op.at)) else Latest(ops, key)
    ensures SetSince(ops + [op], key) == if op.key == key then {} else SetSince(ops, key) + {op.key}
  {
    assert (ops + [op])[..|ops|] == ops;
  }

  // A cache filled by setting distinct keys one after the other, the i-th at times[i].
  function Fill(keys: seq<string>, times: seq<real>): seq<Op>
    requires |keys| <= |times|
  {
    if keys == [] then []
    else
      var n := |keys| - 1;
      Fill(keys[..n], times) + [Set(keys[n], n, times[n], times[n])]
  }

  function Filled(lim: Limits, keys: seq<string>, times: seq<real>): Entries
    requires |keys| <= |times|
  {
    if keys == [] then map[]
    else
      var n := |keys| - 1;
      Filled(lim, keys[..n], times)[keys[n] := Entry(n, times[n] + lim.ttl)]
  }

  predicate Distinct(keys: seq<string>) {
    forall i, j | 0 <= i < j < |keys| :: keys[i] != keys[j]
  }

  predicate Increasing(times: seq<real>) {
    forall i, j | 0 <= i < j < |times| :: times[i] < times[j]
  }

  function Members(keys: seq<string>): set<string> {
    if keys == [] then {} else Members(keys[..|keys| - 1]) + {keys[|keys| - 1]}
  }

  lemma {:induction false} MembersFacts(keys: seq<string>)
    ensures forall k :: k in Members(keys) <==> k in keys
    ensures Distinct(keys) ==> |Members(keys)| == |keys|
  {
    if keys != [] {
      var n := |keys| - 1;
      assert keys == keys[..n] + [keys[n]];
      MembersFacts(keys[..n]);
      assert Distinct(keys) ==> keys[n] !in keys[..n];
    }
  }

  lemma {:induction false} FilledKeys(lim: Limits, keys: seq<string>, times: seq<real>)
    requires |keys| <= |times|
    ensures Filled(lim, keys, times).Keys == Members(keys)
  {
    if keys != [] {
      FilledKeys(lim, keys[..|keys| - 1], times);
    }
  }

  lemma {:induction false} FilledAt(lim: Limits, keys: seq<string>, times: seq<real>, i: nat)
    requires i < |keys| <= |times| && Distinct(keys)
    ensures keys[i] in Filled(lim, keys, times)
    ensures Filled(lim, keys, times)[keys[i]] == Entry(i, times[i] + lim.ttl)
  {
    var n := |keys| - 1;
    if i < n {
      FilledAt(lim, keys[..n], times, i);
      assert keys[i] != keys[n];
    }
  }

  lemma FilledFacts(lim: Limits, keys: seq<string>, times: seq<real>)
    requires |keys| <= |times| && Distinct(keys)
    ensures |Filled(lim, keys, times)| == |keys|
    ensures forall k :: k in Filled(lim, keys, times) <==> k in keys
  {
    FilledKeys(lim, keys, times);
    MembersFacts(keys);
    assert |Filled(lim, keys, times)| == |Filled(lim, keys, times).Keys|;
  }

  // Filling up to the capacity evicts nothing.
  lemma {:induction false} FillReaches(lim: Limits, keys: seq<string>, times: seq<real>)
    requires |keys| <= |times| && |keys| <= lim.maxEntries && Distinct(keys)
    ensures Reaches(lim, Fill(keys, times), Filled(lim, keys, times))
  {
    if keys != [] {
      var n := |keys| - 1;
      FillReaches(lim, keys[..n], times);
      FilledFacts(lim, keys[..n], times);
      var before := Filled(lim, keys[..n], times);
      var op := Set(keys[n], n, times[n], times[n]);
      assert MadeRoom(lim, before, times[n], before);
      Append(lim, Fill(keys[..n], times), before, op, Filled(lim, keys, times));
    }
  }

  lemma {:induction false} FillLog(keys: seq<string>, times: seq<real>)
    requires |keys| <= |times|
    ensures var ops := Fill(keys, times);
            |ops| == |keys| && forall i | 0 <= i < |keys| :: ops[i] == Set(keys[i], i, times[i], times[i])
  {
    if keys != [] {
      FillLog(keys[..|keys| - 1], times);
    }
  }

  // Since the first of them was set, all the others were.
  lemma {:induction false} FillHistory(keys: seq<string>, times: seq<real>)
    requires 0 < |keys| <= |times| && Distinct(keys)
    ensures Latest(Fill(keys, times), keys[0]) == Some(Written(0, times[0]))
    ensures SetSince(Fill(keys, times), keys[0]) == Members(keys[1..])
  {
    var n := |keys| - 1;
    var front := keys[..n];
    SpecOfAppend(Fill(front, times), Set(keys[n], n, times[n], times[n]), keys[0]);
    if n > 0 {
      FillHistory(front, times);
      assert front[0] == keys[0];
      assert keys[1..][..n - 1] == front[1..];
    }
  }

  // Rewriting any stored key of a full cache evicts the entry that expires first.
  lemma FullCacheEvicts(lim: Limits, e: Entries, victim: string, op: Op, after: Entries)
    requires |e| == lim.maxEntries && IsOldest(e, victim) && op.Set? && op.lockedAt < e[victim].expiresAt
    requires after == Remove(e, victim)[op.key := Entry(op.value, op.at + lim.ttl)]
    ensures Step(lim, e, op, after)
  {
    assert Unexpired(e, op.lockedAt) == e;
    assert MadeRoom(lim, e, op.lockedAt, Remove(e, victim));
  }

  lemma FilledOldest(lim: Limits, keys: seq<string>, times: seq<real>)
    requires 0 < |keys| <= |times| && Distinct(keys) && Increasing(times)
    ensures IsOldest(Filled(lim, keys, times), keys[0])
    ensures Filled(lim, keys, times)[keys[0]].expiresAt == times[0] + lim.ttl
  {
    var full := Filled(lim, keys, times);
    FilledFacts(lim, keys, times);
    forall k | k in full ensures full[keys[0]].expiresAt <= full[k].expiresAt {
      var i :| 0 <= i < |keys| && keys[i] == k;
      FilledAt(lim, keys, times, i);
    }
    FilledAt(lim, keys, times, 0);
  }

  // The log that fills the cache and then sets the newest key once more.
  function FillAndRewrite(keys: seq<string>, times: seq<real>): seq<Op>
    requires 0 < |keys| < |times|
  {
    var n := |keys|;
    Fill(keys, times) + [Set(keys[n - 1], n, times[n], times[n])]
  }

  lemma FillAndRewriteInOrder(keys: seq<string>, times: seq<real>)
    requires 0 < |keys| < |times| && Increasing(times)
    ensures NoLaterThan(FillAndRewrite(keys, times), times[|keys|])
    ensures SetTimesIncrease(FillAndRewrite(keys, times))
  {
    var ops := FillAndRewrite(keys, times);
    FillLog(keys, times);
    assert forall i | 0 <= i < |ops| :: ops[i].Set? && ops[i].at == times[i] && ops[i].lockedAt == times[i];
  }

  lemma FillAndRewriteHistory(keys: seq<string>, times: seq<real>)
    requires 2 <= |keys| < |times| && Distinct(keys)
    ensures |SetSince(FillAndRewrite(keys, times), keys[0])| == |keys| - 1
    ensures Latest(FillAndRewrite(keys, times), keys[0]) == Some(Written(0, times[0]))
  {
    var n := |keys|;
    FillHistory(keys, times);
    SpecOfAppend(Fill(keys, times), Set(keys[n - 1], n, times[n], times[n]), keys[0]);
    MembersFacts(keys[1..]);
    assert keys[1..][n - 2] == keys[n - 1];
    assert Members(keys[1..]) + {keys[n - 1]} == Members(keys[1..]);
  }

  // The reach is not one key longer, whatever the capacity: set as many keys as fit, at increasing
  // times within one ttl, then rewrite the newest. Only maxEntries - 1 other keys were set since the
  // first, it is young and not invalidated, and yet it is gone, because writing a key that is
  // already stored also makes room.
  lemma RetentionIsTight(lim: Limits, keys: seq<string>, times: seq<real>) returns (ops: seq<Op>, e: Entries)
    requires |keys| == lim.maxEntries >= 2 && Distinct(keys)
    requires |times| == |keys| + 1 && Increasing(times) && times[|keys|] < times[0] + lim.ttl
    ensures ops == FillAndRewrite(keys, times)
    ensures Reaches(lim, ops, e) && NoLaterThan(ops, times[|keys|]) && SetTimesIncrease(ops)
    ensures |SetSince(ops, keys[0])| == lim.maxEntries - 1
    ensures ModelGet(lim, ops, keys[0], times[|keys|]) == Some(0) && Hit(e, keys[0], times[|keys|]) == None
  {
    var n := |keys|;
    var full := Filled(lim, keys, times);
    var again := Set(keys[n - 1], n, times[n], times[n]);
    FillReaches(lim, keys, times);
    FilledFacts(lim, keys, times);
    FilledOldest(lim, keys, times);
    e := Remove(full, keys[0])[again.key := Entry(n, times[n] + lim.ttl)];
    FullCacheEvicts(lim, full, keys[0], again, e);
    Append(lim, Fill(keys, times), full, again, e);
    FillAndRewriteInOrder(keys, times);
    FillAndRewriteHistory(keys, times);
    ops := FillAndRewrite(keys, times);
  }

  lemma ReadFacts(lim: Limits, ops: seq<Op>, e: Entries, key: string, now: real)
    requires Reaches(lim, ops, e)
    ensures Hit(e, key, now).Some? ==> Hit(e, key, now) == ModelGet(lim, ops, key, now)
    ensures NoLaterThan(ops, now) && SetTimesIncrease(ops) && |SetSince(ops, key)| < lim.maxEntries - 1
            ==> Hit(e, key, now) == ModelGet(lim, ops, key, now)
  {
    if Hit(e, key, now).Some? {
      HitsAgreeWithLog(lim, ops, e, key, now);
    } else if NoLaterThan(ops, now) && SetTimesIncrease(ops) && |SetSince(ops, key)| < lim.maxEntries - 1 {
      GetIsExact(lim, ops, e, key, now);
    }
  }

  // Without capacity nothing is ever stored.
  lemma {:induction false} NoCapacityNoEntries(lim: Limits, ops: seq<Op>, e: Entries)
    requires lim.maxEntries < 1 && Reaches(lim, ops, e)
    ensures e == map[]
  {
    if ops != [] {
      var front, op := ops[..|ops| - 1], ops[|ops| - 1];
      var before :| Reaches(lim, front, before) && Step(lim, before, op, e);
      NoCapacityNoEntries(lim, front, before);
      assert op.Set? ==> Unexpired(before, op.lockedAt) == map[];
    }
  }

  // ---------------------------------------------------------------- the object

  class TtlCache {
    const limits: Limits
    var entries: Entries
    ghost var log: seq<Op>

    constructor (ttlSeconds: real, maxEntries: int)
      ensures limits == Limits(ttlSeconds, maxEntries) && log == [] && Valid()
    {
      limits := Limits(ttlSeconds, maxEntries);
      entries := map[];
      log := [];
    }

    ghost predicate Valid()
      reads this
    {
      Reaches(limits, log, entries)
    }

    // A hit returns what the log says the key holds; a miss is one of the key or of capacity.
    method Read(key: string, now: real) returns (value: Option<int>)
      requires Valid()
      modifies this
      ensures Valid() && log == old(log) + [Get(key, now)]
      ensures value == Hit(old(entries), key, now)
      ensures value.Some? <==> key in old(entries) && old(entries)[key].expiresAt > now
      ensures key in entries <==> value.Some?
      ensures forall k | k != key ::
                (k in entries <==> k in old(entries)) && (k in entries ==> entries[k] == old(entries)[k])
      ensures value.Some? ==> value == ModelGet(limits, old(log), key, now)
      ensures NoLaterThan(old(log), now) && SetTimesIncrease(old(log))
              && |SetSince(old(log), key)| < limits.maxEntries - 1
              ==> value == ModelGet(limits, old(log), key, now)
    {
      ghost var before := entries;
      ReadFacts(limits, log, before, key, now);
      if key !in entries {
        value := None;
      } else if entries[key].expiresAt <= now {
        entries := Remove(entries, key);
        value := None;
      } else {
        value := Some(entries[key].value);
      }
      Append(limits, log, before, Get(key, now), entries);
      log := log + [Get(key, now)];
    }

    // With a capacity below one, taking the minimum of no entries raises and nothing is stored.
    method Write(key: string, value: int, now: real, lockedAt: real) returns (raised: bool)
      requires Valid()
      modifies this
      ensures Valid() && raised == (limits.maxEntries < 1)
      ensures raised ==> entries == old(entries) && log == old(log)
      ensures !raised ==>
                && log == old(log) + [Set(key, value, now, lockedAt)]
                && key in entries && entries[key] == Entry(value, now + limits.ttl)
                && |entries| <= limits.maxEntries
    {
      ghost var before := entries;
      var expiresAt := now + limits.ttl;
      if |entries| >= limits.maxEntries {
        if limits.maxEntries < 1 {
          NoCapacityNoEntries(limits, log, entries);
        }
        raised := EvictExpiredLocked(lockedAt);
        if raised {
          assert entries == before;
          return;
        }
      }
      assert MadeRoom(limits, before, lockedAt, entries);
      entries := entries[key := Entry(value, expiresAt)];
      assert Step(limits, before, Set(key, value, now, lockedAt), entries);
      Append(limits, log, before, Set(key, value, now, lockedAt), entries);
      log := log + [Set(key, value, now, lockedAt)];
      CapacityHolds(limits, log, entries);
      raised := false;
    }

    method EvictExpiredLocked(now: real) returns (raised: bool)
      requires |entries| >= limits.maxEntries
      modifies this`entries
      ensures raised == (limits.maxEntries < 1 && |Unexpired(old(entries), now)| == 0)
      ensures raised ==> entries == Unexpired(old(entries), now)
      ensures !raised ==> MadeRoom(limits, old(entries), now, entries)
      ensures !raised ==>
                var live := set k | k in old(entries) && old(entries)[k].expiresAt > now;
                && entries.Keys <= live && (forall k | k in entries :: entries[k] == old(entries)[k])
                && |entries| == (if |live| < limits.maxEntries then |live| else |live| - 1)
                && forall k, j | k in live && k !in entries && j in entries ::
                     old(entries)[k].expiresAt <= entries[j].expiresAt
    {
      entries := Unexpired(entries, now);
      assert entries.Keys == set k | k in old(entries) && old(entries)[k].expiresAt > now;
      if |entries| >= limits.maxEntries {
        if |entries| == 0 {
          return true;
        }
        OldestExists(entries);
        var oldest :| oldest in entries && IsOldest(entries, oldest);
        RemoveSize(entries, oldest);
        entries := Remove(entries, oldest);
      }
      raised := false;
    }

    method InvalidatePrefix(prefix: string)
      requires Valid()
      modifies this
      ensures Valid() && log == old(log) + [Invalidate(prefix)]
      ensures entries == Invalidated(old(entries), prefix)
      ensures forall rest :: prefix + rest !in entries
      ensures forall k | k in old(entries) && !(exists rest :: k == prefix + rest) ::
                k in entries && entries[k] == old(entries)[k]
    {
      ghost var before := entries;
      forall k: string ensures StartsWith(k, prefix) <==> exists rest :: k == prefix + rest {
        PrefixExactly(k, prefix);
      }
      entries := Invalidated(entries, prefix);
      Append(limits, log, before, Invalidate(prefix), entries);
      log := log + [Invalidate(prefix)];
    }
  }

  lemma {:induction false} OldestExists(e: Entries)
    requires |e| >= 1
    ensures exists k :: IsOldest(e, k)
    decreases |e|
  {
    var k :| k in e;
    var rest := Remove(e, k);
    RemoveSize(e, k);
    if |rest| == 0 {
      assert rest == map[];
      assert forall j | j in e :: j == k by {
        assert forall j | j in e && j != k :: j in rest;
      }
      assert IsOldest(e, k);
    } else {
      OldestExists(rest);
      var j :| IsOldest(rest, j);
      if e[j].expiresAt <= e[k].expiresAt {
        assert forall x | x in e && x != k :: x in rest;
        assert IsOldest(e, j);
      } else {
        assert forall x | x in e && x != k :: x in rest;
        assert IsOldest(e, k);
      }
    }
  }
}
