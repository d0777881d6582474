// The request-scoped dashboard memo (app/services/dashboard_query_cache.py) as interleaved steps of
// its callers, its computation tasks and its one asyncio lock.
module DashboardCache {
  import opened Common
  import opened Sums

  datatype Key = RuntimeKey | FreshnessKey | KpiKey(period: nat) | IntegrityKey(version: nat)

  // What a computation yields. A freshness record is built from a runtime summary.
  datatype Value = Null | Summary(data: int) | Freshness(runtime: Value, asOf: int)

  // The freshness build runs in a task and calls get_runtime like any caller.
  datatype Actor = Caller(id: nat, wanted: Key) | Builder

  datatype Task = InProgress | Done(result: Value) | Dead

  // Where an actor stands: `Wants*` waits for the lock, `In*` holds it, `Awaits` waits for a task.
  datatype Pc =
    | WantsFirst | InFirst | Awaits | WantsSecond(v: Value) | InSecond(v: Value)
    | Returned(v: Value) | Raised
    | WantsPublish(f: Value) | InPublish(f: Value) | Published(f: Value)

  datatype State = State(
    lock: Option<Actor>,
    published: map<Key, Value>,
    tasks: map<Key, Task>,
    pcs: map<Actor, Pc>,
    starts: map<Key, nat>)

  datatype Event =
    | Arrive(a: Actor)
    | Acquire(a: Actor)
    | RunFirst(a: Actor)
    | Complete(k: Key, result: Value)
    // An exception or a cancellation ends the task.
    | Break(k: Key)
    | Resume(a: Actor)
    // A caller is cancelled while it waits.
    | Abort(a: Actor)
    | RunSecond(a: Actor)
    | Compute(asOf: int)
    | RunPublish

  function KeyOf(a: Actor): Key {
    match a case Caller(_, k) => k case Builder => RuntimeKey
  }

  predicate InCritical(pc: Pc) {
    pc.InFirst? || pc.InSecond? || pc.InPublish?
  }

  // A stored None counts as a result for the integrity cache only.
  predicate Cached(s: State, k: Key) {
    k in s.published && (k.IntegrityKey? || s.published[k] != Null)
  }

  predicate Initial(s: State) {
    s == State(None, map[], map[], map[], map[])
  }

  predicate At(s: State, a: Actor, pc: Pc) {
    a in s.pcs && s.pcs[a] == pc
  }

  predicate Holds(s: State, a: Actor) {
    s.lock == Some(a) && a in s.pcs
  }

  predicate Enabled(s: State, e: Event) {
    match e
    case Arrive(a) => a.Caller? && a !in s.pcs
    case Acquire(a) =>
      s.lock == None && a in s.pcs && (s.pcs[a].WantsFirst? || s.pcs[a].WantsSecond? || s.pcs[a].WantsPublish?)
    case RunFirst(a) => Holds(s, a) && s.pcs[a].InFirst?
    case Complete(k, _) => k != FreshnessKey && k in s.tasks && s.tasks[k] == InProgress
    case Break(k) =>
      k in s.tasks && s.tasks[k] == InProgress && (k == FreshnessKey ==> s.lock != Some(Builder))
    case Resume(a) =>
      At(s, a, Awaits) && KeyOf(a) in s.tasks && s.tasks[KeyOf(a)] != InProgress
    case Abort(a) =>
      a.Caller? && a in s.pcs && (s.pcs[a].WantsFirst? || s.pcs[a].Awaits? || s.pcs[a].WantsSecond?)
    case RunSecond(a) => Holds(s, a) && s.pcs[a].InSecond?
    case Compute(_) => Builder in s.pcs && s.pcs[Builder].Returned? && s.pcs[Builder].v != Null
    case RunPublish => Holds(s, Builder) && s.pcs[Builder].InPublish?
  }

  function Entered(pc: Pc): Pc {
    match pc
    case WantsFirst => InFirst
    case WantsSecond(v) => InSecond(v)
    case WantsPublish(f) => InPublish(f)
    case _ => pc
  }

  // create_task: the task is recorded and its computation started; a freshness task is the builder.
  function StartTask(s: State, k: Key): State {
    s.(tasks := s.tasks[k := InProgress],
       starts := s.starts[k := (if k in s.starts then s.starts[k] else 0) + 1],
       pcs := if k == FreshnessKey then s.pcs[Builder := WantsFirst] else s.pcs)
  }

  // The first critical section: return what is stored, else join the task, starting it if need be.
  function FirstSection(s: State, a: Actor): State
    requires a in s.pcs
  {
    var k := KeyOf(a);
    if Cached(s, k) then s.(lock := None, pcs := s.pcs[a := Returned(s.published[k])])
    else
      var t := if k in s.tasks then s else StartTask(s, k);
      t.(lock := None, pcs := t.pcs[a := Awaits])
  }

  // A builder whose awaited runtime task died takes the freshness task down with it.
  function Resumed(s: State, a: Actor): State
    requires At(s, a, Awaits) && KeyOf(a) in s.tasks && s.tasks[KeyOf(a)] != InProgress
  {
    var task := s.tasks[KeyOf(a)];
    if task.Dead? then
      s.(pcs := s.pcs[a := Raised], tasks := if a == Builder then s.tasks[FreshnessKey := Dead] else s.tasks)
    else if KeyOf(a) == FreshnessKey then s.(pcs := s.pcs[a := Returned(task.result)])
    else s.(pcs := s.pcs[a := WantsSecond(task.result)])
  }

  function Next(s: State, e: Event): State
    requires Enabled(s, e)
  {
    match e
    case Arrive(a) => s.(pcs := s.pcs[a := WantsFirst])
    case Acquire(a) => s.(lock := Some(a), pcs := s.pcs[a := Entered(s.pcs[a])])
    case RunFirst(a) => FirstSection(s, a)
    case Complete(k, result) => s.(tasks := s.tasks[k := Done(result)])
    case Break(k) =>
      s.(tasks := s.tasks[k := Dead], pcs := if k == FreshnessKey then s.pcs[Builder := Raised] else s.pcs)
    case Resume(a) => Resumed(s, a)
    case Abort(a) => s.(pcs := s.pcs[a := Raised])
    case RunSecond(a) =>
      s.(lock := None, published := s.published[KeyOf(a) := s.pcs[a].v], pcs := s.pcs[a := Returned(s.pcs[a].v)])
    case Compute(asOf) => s.(pcs := s.pcs[Builder := WantsPublish(Freshness(s.pcs[Builder].v, asOf))])
    case RunPublish =>
      var f := s.pcs[Builder].f;
      s.(lock := None, published := s.published[FreshnessKey := f],
         tasks := s.tasks[FreshnessKey := Done(f)], pcs := s.pcs[Builder := Published(f)])
  }

  predicate Valid(s0: State, es: seq<Event>)
    decreases |es|, 0
  {
    es == [] ||
    var n := |es| - 1;
    Valid(s0, es[..n]) && Enabled(Run(s0, es[..n]), es[n])
  }

  function Run(s0: State, es: seq<Event>): State
    requires Valid(s0, es)
    decreases |es|, 1
  {
    if es == [] then s0
    else
      var n := |es| - 1;
      Next(Run(s0, es[..n]), es[n])
  }

  ghost predicate Step(s: State, e: Event, t: State) {
    Enabled(s, e) && t == Next(s, e)
  }

  // ---------------------------------------------------------------- invariant

  // The lock is held by exactly the actor inside a critical section.
  ghost predicate LockOk(s: State) {
    && (s.lock.Some? ==> s.lock.value in s.pcs)
    && forall a | a in s.pcs :: LockAt(s, a)
  }

  ghost predicate LockAt(s: State, a: Actor)
    requires a in s.pcs
  {
    InCritical(s.pcs[a]) <==> s.lock == Some(a)
  }

  ghost predicate IsDone(s: State, k: Key, v: Value) {
    k in s.tasks && s.tasks[k] == Done(v)
  }

  // Every value anyone holds for a key is the result of the key's one task.
  ghost predicate ValuesOk(s: State) {
    && (forall k | k in s.published :: IsDone(s, k, s.published[k]))
    && forall a | a in s.pcs :: ActorOk(s, a)
  }

  ghost predicate ActorOk(s: State, a: Actor)
    requires a in s.pcs
  {
    var pc := s.pcs[a];
    && (pc.WantsSecond? || pc.InSecond? || pc.Returned? ==> IsDone(s, KeyOf(a), pc.v))
    && (pc.Awaits? ==> KeyOf(a) in s.tasks)
    && (pc.WantsSecond? || pc.InSecond? ==> KeyOf(a) != FreshnessKey)
    && (pc.WantsPublish? || pc.InPublish? || pc.Published? ==> a == Builder)
  }

  ghost predicate StartsOk(s: State) {
    s.starts.Keys == s.tasks.Keys && forall k | k in s.starts :: s.starts[k] == 1
  }

  ghost predicate BuiltFrom(s: State, f: Value) {
    f.Freshness? && IsDone(s, RuntimeKey, f.runtime)
  }

  // The freshness task is the builder's execution, and its result rests on the runtime task's.
  ghost predicate BuilderOk(s: State) {
    && (Builder in s.pcs <==> FreshnessKey in s.tasks)
    && (Builder in s.pcs ==> BuilderTaskOk(s.pcs[Builder], s.tasks[FreshnessKey]))
  }

  ghost predicate BuilderTaskOk(pc: Pc, task: Task) {
    && (pc.Published? ==> task == Done(pc.f))
    && (pc.Raised? <==> task == Dead)
    && (!pc.Published? && !pc.Raised? ==> task == InProgress)
  }

  ghost predicate RecordsOk(s: State) {
    && (Builder in s.pcs && (s.pcs[Builder].WantsPublish? || s.pcs[Builder].InPublish?) ==> BuiltFrom(s, s.pcs[Builder].f))
    && (forall f | IsDone(s, FreshnessKey, f) :: BuiltFrom(s, f))
  }

  ghost predicate Inv(s: State) {
    LockOk(s) && ValuesOk(s) && StartsOk(s) && BuilderOk(s) && RecordsOk(s)
  }

  lemma LockStepAt(s: State, e: Event, t: State, a: Actor)
    requires Inv(s) && Step(s, e, t) && a in t.pcs && !e.RunFirst?
    ensures LockAt(t, a)
  {
    if a in s.pcs {
      assert LockAt(s, a);
    }
  }

  lemma FirstSectionLock(s: State, e: Event, t: State, a: Actor)
    requires Inv(s) && Step(s, e, t) && a in t.pcs && e.RunFirst?
    ensures LockAt(t, a)
  {
    assert LockAt(s, e.a);
    if a in s.pcs {
      assert LockAt(s, a);
    }
  }

  lemma LockStep(s: State, e: Event, t: State)
    requires Inv(s) && Step(s, e, t)
    ensures LockOk(t)
  {
    forall a | a in t.pcs ensures LockAt(t, a) {
      if e.RunFirst? {
        FirstSectionLock(s, e, t, a);
      } else {
        LockStepAt(s, e, t, a);
      }
    }
  }

  // A task that has a result keeps it.
  lemma DoneStays(s: State, e: Event, t: State, k: Key, v: Value)
    requires Inv(s) && Step(s, e, t) && IsDone(s, k, v)
    ensures IsDone(t, k, v)
  {
  }

  lemma TasksStay(s: State, e: Event, t: State, k: Key)
    requires Step(s, e, t) && k in s.tasks
    ensures k in t.tasks
  {
  }

  lemma UnmovedActorStep(s: State, e: Event, t: State, a: Actor)
    requires Inv(s) && Step(s, e, t) && a in s.pcs && a in t.pcs && t.pcs[a] == s.pcs[a]
    ensures ActorOk(t, a)
  {
    assert ActorOk(s, a);
    var pc := s.pcs[a];
    if pc.WantsSecond? || pc.InSecond? || pc.Returned? {
      DoneStays(s, e, t, KeyOf(a), pc.v);
    } else if pc.Awaits? {
      TasksStay(s, e, t, KeyOf(a));
    }
  }

  lemma MovedActorStep(s: State, e: Event, t: State, a: Actor)
    requires Inv(s) && Step(s, e, t) && a in t.pcs && !(a in s.pcs && t.pcs[a] == s.pcs[a]) && !e.RunFirst?
    ensures ActorOk(t, a)
  {
    if a in s.pcs {
      assert ActorOk(s, a);
    }
  }

  lemma FirstSectionActor(s: State, e: Event, t: State, a: Actor)
    requires Inv(s) && Step(s, e, t) && a in t.pcs && !(a in s.pcs && t.pcs[a] == s.pcs[a]) && e.RunFirst?
    ensures ActorOk(t, a)
  {
    if Cached(s, KeyOf(e.a)) {
      assert IsDone(s, KeyOf(e.a), s.published[KeyOf(e.a)]);
    }
  }

  lemma ChangedActorStep(s: State, e: Event, t: State, a: Actor)
    requires Inv(s) && Step(s, e, t) && a in t.pcs && !(a in s.pcs && t.pcs[a] == s.pcs[a])
    ensures ActorOk(t, a)
  {
    if e.RunFirst? {
      FirstSectionActor(s, e, t, a);
    } else {
      MovedActorStep(s, e, t, a);
    }
  }

  lemma PublishedStep(s: State, e: Event, t: State, k: Key)
    requires Inv(s) && Step(s, e, t) && k in t.published
    ensures IsDone(t, k, t.published[k])
  {
    if e.RunSecond? {
      assert ActorOk(s, e.a);
    }
    if k in s.published && s.published[k] == t.published[k] {
      DoneStays(s, e, t, k, s.published[k]);
    }
  }

  lemma ValuesStep(s: State, e: Event, t: State)
    requires Inv(s) && Step(s, e, t)
    ensures ValuesOk(t)
  {
    forall a | a in t.pcs ensures ActorOk(t, a) {
      if a in s.pcs && t.pcs[a] == s.pcs[a] {
        UnmovedActorStep(s, e, t, a);
      } else {
        ChangedActorStep(s, e, t, a);
      }
    }
    forall k | k in t.published ensures IsDone(t, k, t.published[k]) {
      PublishedStep(s, e, t, k);
    }
  }

  lemma StartsStep(s: State, e: Event, t: State)
    requires Inv(s) && Step(s, e, t)
    ensures StartsOk(t)
  {
  }

  // Only the first critical section of a freshness caller brings the builder and its task to life.
  lemma BuilderAppears(s: State, e: Event, t: State)
    requires Inv(s) && Step(s, e, t)
    ensures Builder in t.pcs <==> FreshnessKey in t.tasks
    ensures Builder !in s.pcs && Builder in t.pcs ==>
              t.pcs[Builder] == WantsFirst && t.tasks[FreshnessKey] == InProgress
  {
  }

  lemma BuilderTaskStep(s: State, e: Event, t: State)
    requires Inv(s) && Step(s, e, t) && Builder in s.pcs
    ensures Builder in t.pcs && FreshnessKey in t.tasks
    ensures BuilderTaskOk(t.pcs[Builder], t.tasks[FreshnessKey])
  {
    assert ActorOk(s, Builder);
    assert LockAt(s, Builder);
  }

  lemma BuilderStep(s: State, e: Event, t: State)
    requires Inv(s) && Step(s, e, t)
    ensures BuilderOk(t)
  {
    BuilderAppears(s, e, t);
    if Builder in s.pcs {
      BuilderTaskStep(s, e, t);
    }
  }

  lemma BuilderRecordStep(s: State, e: Event, t: State)
    requires Inv(s) && Step(s, e, t) && Builder in t.pcs && (t.pcs[Builder].WantsPublish? || t.pcs[Builder].InPublish?)
    ensures BuiltFrom(t, t.pcs[Builder].f)
  {
    if Builder in s.pcs {
      assert ActorOk(s, Builder);
      var pc := s.pcs[Builder];
      if pc.WantsPublish? || pc.InPublish? {
        DoneStays(s, e, t, RuntimeKey, pc.f.runtime);
      } else if pc.Returned? {
        DoneStays(s, e, t, RuntimeKey, pc.v);
      }
    }
  }

  lemma RecordsStep(s: State, e: Event, t: State)
    requires Inv(s) && Step(s, e, t)
    ensures RecordsOk(t)
  {
    if Builder in t.pcs && (t.pcs[Builder].WantsPublish? || t.pcs[Builder].InPublish?) {
      BuilderRecordStep(s, e, t);
    }
    forall f | IsDone(t, FreshnessKey, f) ensures BuiltFrom(t, f) {
      FreshResultStep(s, e, t, f);
    }
  }

  lemma FreshResultStep(s: State, e: Event, t: State, f: Value)
    requires Inv(s) && Step(s, e, t) && IsDone(t, FreshnessKey, f)
    ensures BuiltFrom(t, f)
  {
    if IsDone(s, FreshnessKey, f) {
      assert BuiltFrom(s, f);
    } else {
      assert e.RunPublish? && BuiltFrom(s, f);
    }
    DoneStays(s, e, t, RuntimeKey, f.runtime);
  }

  lemma InvStep(s: State, e: Event, t: State)
    requires Inv(s) && Step(s, e, t)
    ensures Inv(t)
  {
    LockStep(s, e, t);
    ValuesStep(s, e, t);
    StartsStep(s, e, t);
    BuilderStep(s, e, t);
    RecordsStep(s, e, t);
  }

  lemma {:induction false} InvariantHolds(s0: State, es: seq<Event>)
    requires Initial(s0) && Valid(s0, es)
    ensures Inv(Run(s0, es))
  {
    if es != [] {
      var n := |es| - 1;
      InvariantHolds(s0, es[..n]);
      var s, e, t := Run(s0, es[..n]), es[n], Run(s0, es);
      InvStep(s, e, t);
    }
  }

  // ---------------------------------------------------------------- what callers get

  // Single flight: in every interleaving of any number of callers, cancellations and failures, no
  // key's computation is started twice.
  lemma StartedAtMostOnce(s0: State, es: seq<Event>, k: Key)
    requires Initial(s0) && Valid(s0, es)
    ensures k in Run(s0, es).starts ==> Run(s0, es).starts[k] == 1
  {
    InvariantHolds(s0, es);
  }

  // A result never changes: what an actor returned with stays the value of the key's task.
  lemma {:induction false} ResultsAreFinal(s0: State, a: seq<Event>, b: seq<Event>, k: Key, v: Value)
    requires Initial(s0) && Valid(s0, a + b) && Valid(s0, a) && IsDone(Run(s0, a), k, v)
    ensures IsDone(Run(s0, a + b), k, v)
  {
    if b == [] {
      assert a + b == a;
    } else {
      var n := |b| - 1;
      var front := a + b[..n];
      assert (a + b)[..|a + b| - 1] == front;
      ResultsAreFinal(s0, a, b[..n], k, v);
      InvariantHolds(s0, front);
      DoneStays(Run(s0, front), b[n], Run(s0, a + b), k, v);
    }
  }

  // All callers of one key that return normally, at whatever time, return the same value, a None
  // result included.
  lemma SameValueForAll(s0: State, a: seq<Event>, b: seq<Event>, x: Actor, y: Actor, v: Value, w: Value)
    requires Initial(s0) && Valid(s0, a + b) && Valid(s0, a) && KeyOf(x) == KeyOf(y)
    requires At(Run(s0, a), x, Returned(v)) && At(Run(s0, a + b), y, Returned(w))
    ensures v == w
  {
    InvariantHolds(s0, a);
    InvariantHolds(s0, a + b);
    ResultsAreFinal(s0, a, b, KeyOf(x), v);
  }

  // A freshness record and a runtime summary returned in the same request share one computation.
  lemma FreshnessSharesRuntime(s0: State, es: seq<Event>, x: nat, y: nat, f: Value, v: Value)
    requires Initial(s0) && Valid(s0, es)
    requires At(Run(s0, es), Caller(x, FreshnessKey), Returned(f))
    ensures f.Freshness? && RuntimeKey in Run(s0, es).starts && Run(s0, es).starts[RuntimeKey] == 1
    ensures At(Run(s0, es), Caller(y, RuntimeKey), Returned(v)) ==> f.runtime == v
  {
    InvariantHolds(s0, es);
    var s := Run(s0, es);
    assert IsDone(s, KeyOf(Caller(x, FreshnessKey)), f);
    assert BuiltFrom(s, f);
    if At(s, Caller(y, RuntimeKey), Returned(v)) {
      assert IsDone(s, KeyOf(Caller(y, RuntimeKey)), v);
    }
  }

  // Nobody waits, for a task or for anything else, while it holds the lock.
  lemma NoAwaitUnderLock(s0: State, es: seq<Event>, a: Actor)
    requires Initial(s0) && Valid(s0, es) && Run(s0, es).lock == Some(a)
    ensures a in Run(s0, es).pcs && InCritical(Run(s0, es).pcs[a])
    ensures Enabled(Run(s0, es), RunFirst(a)) || Enabled(Run(s0, es), RunSecond(a))
            || (a == Builder && Enabled(Run(s0, es), RunPublish))
  {
    InvariantHolds(s0, es);
  }

  predicate Finished(pc: Pc) {
    pc.Returned? || pc.Raised? || pc.Published?
  }

  predicate IsProgress(e: Event) {
    !e.Arrive? && !e.Abort?
  }

  // No deadlock: while some caller has not finished, some step other than an arrival or a
  // cancellation of a caller is possible, and a task is broken only if the builder got None.
  lemma NoDeadlock(s0: State, es: seq<Event>, a: Actor) returns (e: Event)
    requires Initial(s0) && Valid(s0, es) && a in Run(s0, es).pcs && !Finished(Run(s0, es).pcs[a])
    ensures Enabled(Run(s0, es), e) && IsProgress(e)
    ensures e.Break? ==> At(Run(s0, es), Builder, Returned(Null))
  {
    InvariantHolds(s0, es);
    e := SomeMove(Run(s0, es), a);
  }

  lemma SomeMove(s: State, a: Actor) returns (e: Event)
    requires Inv(s) && a in s.pcs && !Finished(s.pcs[a])
    ensures Enabled(s, e) && IsProgress(e)
    ensures e.Break? ==> e.k == FreshnessKey && At(s, Builder, Returned(Null))
    ensures e.Complete? ==> e.result != Null
  {
    if s.lock.Some? {
      var h := s.lock.value;
      assert LockAt(s, h);
      e := if s.pcs[h].InFirst? then RunFirst(h) else if s.pcs[h].InSecond? then RunSecond(h) else RunPublish;
    } else if s.pcs[a].Awaits? && KeyOf(a) == FreshnessKey && s.tasks[FreshnessKey] == InProgress {
      assert Builder in s.pcs;
      e := if s.pcs[Builder] == Returned(Null) then Break(FreshnessKey)
           else if s.pcs[Builder].Returned? then Compute(0)
           else MoveOf(s, Builder);
    } else {
      e := MoveOf(s, a);
    }
  }

  // The move of an unfinished actor that neither holds the lock nor waits for a freshness task.
  function MoveOf(s: State, a: Actor): Event
    requires a in s.pcs
  {
    if s.pcs[a].Awaits? then
      if KeyOf(a) in s.tasks && s.tasks[KeyOf(a)] == InProgress then Complete(KeyOf(a), Summary(0)) else Resume(a)
    else Acquire(a)
  }

  // ---------------------------------------------------------------- everyone finishes

  // The builder's moves from its start, the runtime task it may start, and its publication.
  const BUILDER_MOVES := 9
  const CALLER_MOVES := 6 + BUILDER_MOVES

  // The moves an actor has left. An actor that may still start a task carries the end of that task
  // with it, and a freshness caller the builder's moves as well.
  function MovesLeft(a: Actor, pc: Pc): nat {
    var atEnd := if a == Builder then 3 else 0;
    match pc
    case WantsFirst => atEnd + 6 + (if KeyOf(a) == FreshnessKey then BUILDER_MOVES else 0)
    case InFirst => atEnd + 5 + (if KeyOf(a) == FreshnessKey then BUILDER_MOVES else 0)
    case Awaits => atEnd + 3
    case WantsSecond(_) => atEnd + 2
    case InSecond(_) => atEnd + 1
    case Returned(_) => atEnd
    case WantsPublish(_) => 2
    case InPublish(_) => 1
    case Published(_) => 0
    case Raised => 0
  }

  ghost function Weights(pcs: map<Actor, Pc>): Actor -> int {
    (a: Actor) => if a in pcs then MovesLeft(a, pcs[a]) else 0
  }

  ghost function Moves(pcs: map<Actor, Pc>): int {
    Sum(pcs.Keys, Weights(pcs))
  }

  ghost function EndWeights(tasks: map<Key, Task>): Key -> int {
    (k: Key) => if k in tasks && tasks[k] == InProgress then 1 else 0
  }

  ghost function Ends(tasks: map<Key, Task>): int {
    Sum(tasks.Keys, EndWeights(tasks))
  }

  // An upper bound on the progress still possible without new arrivals.
  ghost function Left(s: State): int {
    Moves(s.pcs) + Ends(s.tasks)
  }

  lemma ActorMoves(pcs: map<Actor, Pc>, a: Actor, pc: Pc)
    ensures Moves(pcs[a := pc]) == Moves(pcs) + MovesLeft(a, pc) - Weights(pcs)(a)
  {
    var after := pcs[a := pc];
    if a in pcs {
      assert after.Keys == pcs.Keys;
      Bump(pcs.Keys, Weights(pcs), Weights(after), a);
    } else {
      assert after.Keys - {a} == pcs.Keys;
      Pick(after.Keys, Weights(after), a);
      Congruent(pcs.Keys, Weights(pcs), Weights(after));
    }
  }

  lemma TaskMoves(tasks: map<Key, Task>, k: Key, task: Task)
    ensures Ends(tasks[k := task]) == Ends(tasks) + (if task == InProgress then 1 else 0) - EndWeights(tasks)(k)
  {
    var after := tasks[k := task];
    if k in tasks {
      assert after.Keys == tasks.Keys;
      Bump(tasks.Keys, EndWeights(tasks), EndWeights(after), k);
    } else {
      assert after.Keys - {k} == tasks.Keys;
      Pick(after.Keys, EndWeights(after), k);
      Congruent(tasks.Keys, EndWeights(tasks), EndWeights(after));
    }
  }

  lemma LeftIsNatural(s: State)
    ensures Left(s) >= 0
  {
    NonNegative(s.pcs.Keys, Weights(s.pcs));
    NonNegative(s.tasks.Keys, EndWeights(s.tasks));
  }

  function One(b: bool): nat {
    if b then 1 else 0
  }

  lemma StartLeft(s: State, k: Key)
    requires Inv(s) && k !in s.tasks
    ensures Left(StartTask(s, k)) == Left(s) + 1 + (if k == FreshnessKey then BUILDER_MOVES else 0)
  {
    TaskMoves(s.tasks, k, InProgress);
    if k == FreshnessKey {
      assert Builder !in s.pcs;
      ActorMoves(s.pcs, Builder, WantsFirst);
    }
  }

  lemma FirstSectionLeft(s: State, a: Actor)
    requires Inv(s) && Enabled(s, RunFirst(a))
    ensures Left(Next(s, RunFirst(a))) <= Left(s) - 1
  {
    var k := KeyOf(a);
    if Cached(s, k) {
      ActorMoves(s.pcs, a, Returned(s.published[k]));
    } else if k in s.tasks {
      ActorMoves(s.pcs, a, Awaits);
    } else {
      StartLeft(s, k);
      ActorMoves(StartTask(s, k).pcs, a, Awaits);
    }
  }

  lemma ResumeLeft(s: State, a: Actor)
    requires Enabled(s, Resume(a))
    ensures Left(Next(s, Resume(a))) <= Left(s) - 1
  {
    var task := s.tasks[KeyOf(a)];
    ActorMoves(s.pcs, a, Next(s, Resume(a)).pcs[a]);
    if task.Dead? && a == Builder {
      TaskMoves(s.tasks, FreshnessKey, Dead);
    }
  }

  // The other moves of a single actor.
  lemma MoveLeft(s: State, e: Event, a: Actor)
    requires Enabled(s, e) && (e == Acquire(a) || e == RunSecond(a) || (e.Compute? && a == Builder))
    ensures Left(Next(s, e)) <= Left(s) - 1
  {
    ActorMoves(s.pcs, a, Next(s, e).pcs[a]);
  }

  lemma PublishLeft(s: State)
    requires Inv(s) && Enabled(s, RunPublish)
    ensures Left(Next(s, RunPublish)) <= Left(s) - 1
  {
    TaskMoves(s.tasks, FreshnessKey, Done(s.pcs[Builder].f));
    ActorMoves(s.pcs, Builder, Published(s.pcs[Builder].f));
  }

  lemma TaskLeft(s: State, e: Event)
    requires Inv(s) && Enabled(s, e) && (e.Complete? || e.Break?)
    ensures Left(Next(s, e)) <= Left(s) - 1
  {
    match e
    case Complete(k, result) => TaskMoves(s.tasks, k, Done(result));
    case Break(k) =>
      TaskMoves(s.tasks, k, Dead);
      if k == FreshnessKey {
        ActorMoves(s.pcs, Builder, Raised);
      }
  }

  // Every progress step lowers the bound, an arrival raises it by a constant, and a cancellation
  // does not raise it.
  lemma LeftStep(s: State, e: Event, t: State)
    requires Inv(s) && Step(s, e, t)
    ensures Left(t) <= Left(s) + (if e.Arrive? then CALLER_MOVES else 0) - One(IsProgress(e))
  {
    match e
    case Arrive(a) => ActorMoves(s.pcs, a, WantsFirst);
    case Abort(a) => ActorMoves(s.pcs, a, Raised);
    case RunFirst(a) => FirstSectionLeft(s, a);
    case Resume(a) => ResumeLeft(s, a);
    case Acquire(a) => MoveLeft(s, e, a);
    case RunSecond(a) => MoveLeft(s, e, a);
    case Compute(_) => MoveLeft(s, e, Builder);
    case RunPublish => PublishLeft(s);
    case _ => TaskLeft(s, e);
  }

  function ProgressOf(es: seq<Event>): nat {
    if es == [] then 0 else ProgressOf(es[..|es| - 1]) + One(IsProgress(es[|es| - 1]))
  }

  function ArrivalsOf(es: seq<Event>): nat {
    if es == [] then 0 else ArrivalsOf(es[..|es| - 1]) + One(es[|es| - 1].Arrive?)
  }

  lemma LeftRunStep(s0: State, es: seq<Event>)
    requires Initial(s0) && Valid(s0, es) && es != []
    ensures var n := |es| - 1;
            Left(Run(s0, es))
            <= Left(Run(s0, es[..n])) + (if es[n].Arrive? then CALLER_MOVES else 0) - One(IsProgress(es[n]))
  {
    var n := |es| - 1;
    InvariantHolds(s0, es[..n]);
    LeftStep(Run(s0, es[..n]), es[n], Run(s0, es));
  }

  lemma {:induction false} LeftBalance(s0: State, es: seq<Event>)
    requires Initial(s0) && Valid(s0, es)
    ensures ProgressOf(es) + Left(Run(s0, es)) <= CALLER_MOVES * ArrivalsOf(es)
  {
    if es == [] {
      assert s0.pcs.Keys == {} && s0.tasks.Keys == {};
    } else {
      LeftBalance(s0, es[..|es| - 1]);
      LeftRunStep(s0, es);
    }
  }

  ghost predicate AllFinished(s: State) {
    forall a | a in s.pcs :: Finished(s.pcs[a])
  }

  // No livelock either: in every run the progress steps number at most a constant for each caller
  // that arrived, and where no progress step is possible any more, every caller has finished.
  lemma ProgressIsBounded(s0: State, es: seq<Event>)
    requires Initial(s0) && Valid(s0, es)
    ensures ProgressOf(es) <= CALLER_MOVES * ArrivalsOf(es)
    ensures (forall e | Enabled(Run(s0, es), e) :: !IsProgress(e)) ==> AllFinished(Run(s0, es))
  {
    LeftBalance(s0, es);
    LeftIsNatural(Run(s0, es));
    var s := Run(s0, es);
    if a :| a in s.pcs && !Finished(s.pcs[a]) {
      var e := NoDeadlock(s0, es, a);
    }
  }

  lemma {:induction false} RunCons(s: State, e: Event, t: State, rest: seq<Event>)
    requires Step(s, e, t) && Valid(t, rest)
    ensures Valid(s, [e] + rest) && Run(s, [e] + rest) == Run(t, rest)
  {
    var n := |rest|;
    assert ([e] + rest)[..n] == if n == 0 then [] else [e] + rest[..n - 1];
    if n > 0 {
      RunCons(s, e, t, rest[..n - 1]);
    }
  }

  lemma OneMoreStep(s: State) returns (e: Event, t: State)
    requires Inv(s) && !AllFinished(s)
    ensures IsProgress(e) && Step(s, e, t) && Inv(t) && 0 <= Left(t) < Left(s)
    ensures e.Break? ==> e.k == FreshnessKey && IsDone(s, RuntimeKey, Null)
    ensures IsDone(t, RuntimeKey, Null) ==> IsDone(s, RuntimeKey, Null)
  {
    var a :| a in s.pcs && !Finished(s.pcs[a]);
    e := SomeMove(s, a);
    t := Next(s, e);
    InvStep(s, e, t);
    LeftStep(s, e, t);
    LeftIsNatural(t);
    if e.Break? {
      assert ActorOk(s, Builder);
    }
    NoNewNull(s, e, t);
  }

  lemma NoNewNull(s: State, e: Event, t: State)
    requires Inv(s) && Step(s, e, t) && (e.Complete? ==> e.result != Null)
    ensures IsDone(t, RuntimeKey, Null) ==> IsDone(s, RuntimeKey, Null)
  {
  }

  // So from every reachable state all callers finish by progress steps alone; nothing has to fail
  // for that, except a freshness build that was given no runtime summary.
  lemma {:induction false} AllCanFinish(s: State) returns (more: seq<Event>)
    requires Inv(s)
    ensures Valid(s, more) && AllFinished(Run(s, more)) && |more| <= Left(s)
    ensures forall e | e in more :: IsProgress(e)
    ensures forall e | e in more && e.Break? :: e.k == FreshnessKey && IsDone(s, RuntimeKey, Null)
    decreases Left(s)
  {
    LeftIsNatural(s);
    if AllFinished(s) {
      more := [];
    } else {
      var e, t := OneMoreStep(s);
      var rest := AllCanFinish(t);
      RunCons(s, e, t, rest);
      more := [e] + rest;
    }
  }

  // ---------------------------------------------------------------- who returns, and with what

  // A computation of the key failed or was cancelled; a freshness build also fails with the runtime
  // computation it awaits.
  predicate Broken(es: seq<Event>, k: Key) {
    Break(k) in es || (k == FreshnessKey && Break(RuntimeKey) in es)
  }

  ghost predicate Blameless(es: seq<Event>, s: State) {
    && (forall k | k in s.tasks && s.tasks[k].Dead? :: Broken(es, k))
    && forall a | a in s.pcs && a.Caller? && s.pcs[a].Raised? :: Abort(a) in es || Broken(es, KeyOf(a))
  }

  lemma DeathStep(es: seq<Event>, s: State, e: Event, t: State, k: Key)
    requires Inv(s) && Step(s, e, t) && Blameless(es, s) && k in t.tasks && t.tasks[k].Dead?
    ensures Broken(es + [e], k)
  {
    assert forall x :: x in es + [e] <==> x in es || x == e;
    if !(k in s.tasks && s.tasks[k].Dead?) && e.Resume? {
      assert k == FreshnessKey && Broken(es, RuntimeKey);
    }
  }

  lemma RaiseStep(es: seq<Event>, s: State, e: Event, t: State, a: Actor)
    requires Inv(s) && Step(s, e, t) && Blameless(es, s) && a in t.pcs && a.Caller? && t.pcs[a].Raised?
    ensures Abort(a) in es + [e] || Broken(es + [e], KeyOf(a))
  {
    assert forall x :: x in es + [e] <==> x in es || x == e;
    if !(a in s.pcs && s.pcs[a].Raised?) && e.Resume? {
      assert e.a == a && Broken(es, KeyOf(a));
    }
  }

  lemma {:induction false} NobodyRaisesForNothing(s0: State, es: seq<Event>)
    requires Initial(s0) && Valid(s0, es)
    ensures Blameless(es, Run(s0, es))
  {
    if es != [] {
      var n := |es| - 1;
      var s, t := Run(s0, es[..n]), Run(s0, es);
      NobodyRaisesForNothing(s0, es[..n]);
      InvariantHolds(s0, es[..n]);
      assert es == es[..n] + [es[n]];
      forall k | k in t.tasks && t.tasks[k].Dead? ensures Broken(es, k) {
        DeathStep(es[..n], s, es[n], t, k);
      }
      forall a | a in t.pcs && a.Caller? && t.pcs[a].Raised? ensures Abort(a) in es || Broken(es, KeyOf(a)) {
        RaiseStep(es[..n], s, es[n], t, a);
      }
    }
  }

  // A caller raises only if it was cancelled itself or a computation it depends on broke. A caller
  // that finished otherwise returned its task's result.
  lemma RaisedOnlyIf(s0: State, es: seq<Event>, a: Actor)
    requires Initial(s0) && Valid(s0, es) && a in Run(s0, es).pcs && a.Caller? && Finished(Run(s0, es).pcs[a])
    ensures Run(s0, es).pcs[a].Raised? ==> Abort(a) in es || Broken(es, KeyOf(a))
    ensures !Run(s0, es).pcs[a].Raised? ==>
              exists v :: At(Run(s0, es), a, Returned(v)) && IsDone(Run(s0, es), KeyOf(a), v)
  {
    NobodyRaisesForNothing(s0, es);
    InvariantHolds(s0, es);
    assert ActorOk(Run(s0, es), a);
    if !Run(s0, es).pcs[a].Raised? {
      assert At(Run(s0, es), a, Returned(Run(s0, es).pcs[a].v));
    }
  }

  lemma {:induction false} RunJoin(s0: State, a: seq<Event>, b: seq<Event>)
    requires Valid(s0, a) && Valid(Run(s0, a), b)
    ensures Valid(s0, a + b) && Run(s0, a + b) == Run(Run(s0, a), b)
  {
    if b == [] {
      assert a + b == a;
    } else {
      var n := |b| - 1;
      assert (a + b)[..|a + b| - 1] == a + b[..n];
      RunJoin(s0, a, b[..n]);
    }
  }

  ghost predicate Served(s: State, a: Actor) {
    exists v :: At(s, a, Returned(v)) && IsDone(s, KeyOf(a), v)
  }

  // Every run can be completed so that each caller that was not cancelled, and whose computation did
  // not break before, returns with its task's result. The one exception is a freshness caller whose
  // build has already been given no runtime summary.
  lemma EveryoneIsServed(s0: State, es: seq<Event>) returns (more: seq<Event>)
    requires Initial(s0) && Valid(s0, es)
    ensures Valid(s0, es + more) && AllFinished(Run(s0, es + more))
    ensures forall a | a in Run(s0, es + more).pcs && a.Caller? ::
              || Served(Run(s0, es + more), a)
              || Abort(a) in es || Broken(es, KeyOf(a))
              || (KeyOf(a) == FreshnessKey && IsDone(Run(s0, es), RuntimeKey, Null))
  {
    InvariantHolds(s0, es);
    more := AllCanFinish(Run(s0, es));
    RunJoin(s0, es, more);
    assert forall e :: e in es + more <==> e in es || e in more;
    var t := Run(s0, es + more);
    forall a | a in t.pcs && a.Caller?
      ensures || Served(t, a) || Abort(a) in es || Broken(es, KeyOf(a))
              || (KeyOf(a) == FreshnessKey && IsDone(Run(s0, es), RuntimeKey, Null))
    {
      RaisedOnlyIf(s0, es + more, a);
      assert Abort(a) in more ==> IsProgress(Abort(a));
    }
  }

  // ---------------------------------------------------------------- the stored value is used

  // Whatever a caller returned with is stored for the key.
  ghost predicate StoredOk(s: State) {
    && (forall v | IsDone(s, FreshnessKey, v) :: IsStored(s, FreshnessKey, v))
    && forall a | a in s.pcs && s.pcs[a].Returned? :: IsStored(s, KeyOf(a), s.pcs[a].v)
  }

  ghost predicate IsStored(s: State, k: Key, v: Value) {
    k in s.published && s.published[k] == v
  }

  lemma StoredStays(s: State, e: Event, t: State, k: Key, v: Value)
    requires Inv(s) && Step(s, e, t) && IsStored(s, k, v)
    ensures IsStored(t, k, v)
  {
    assert IsDone(s, k, s.published[k]);
    if e.RunSecond? {
      assert ActorOk(s, e.a);
    }
  }

  lemma StoredStep(s: State, e: Event, t: State)
    requires Inv(s) && StoredOk(s) && Step(s, e, t)
    ensures StoredOk(t)
  {
    forall v | IsDone(t, FreshnessKey, v) ensures IsStored(t, FreshnessKey, v) {
      if IsDone(s, FreshnessKey, v) {
        StoredStays(s, e, t, FreshnessKey, v);
      }
    }
    forall a | a in t.pcs && t.pcs[a].Returned? ensures IsStored(t, KeyOf(a), t.pcs[a].v) {
      ReturnStep(s, e, t, a);
    }
  }

  lemma ReturnStep(s: State, e: Event, t: State, a: Actor)
    requires Inv(s) && StoredOk(s) && Step(s, e, t) && a in t.pcs && t.pcs[a].Returned?
    ensures IsStored(t, KeyOf(a), t.pcs[a].v)
  {
    if a in s.pcs && s.pcs[a] == t.pcs[a] {
      StoredStays(s, e, t, KeyOf(a), t.pcs[a].v);
    } else {
      assert e == RunFirst(a) || e == Resume(a) || e == RunSecond(a);
      if e.Resume? {
        assert IsDone(s, FreshnessKey, t.pcs[a].v);
      }
    }
  }

  lemma {:induction false} StoredHolds(s0: State, es: seq<Event>)
    requires Initial(s0) && Valid(s0, es)
    ensures StoredOk(Run(s0, es))
  {
    if es != [] {
      var n := |es| - 1;
      StoredHolds(s0, es[..n]);
      InvariantHolds(s0, es[..n]);
      StoredStep(Run(s0, es[..n]), es[n], Run(s0, es));
    }
  }

  // Once some caller of a key has returned a value other than None, or anything for an integrity
  // key, every later caller of the key returns it in its first critical section. Otherwise it awaits
  // the task that is there. It never starts another one.
  lemma LaterCallersReturnAtOnce(s0: State, es: seq<Event>, x: Actor, y: Actor, v: Value)
    requires Initial(s0) && Valid(s0, es) && At(Run(s0, es), x, Returned(v)) && KeyOf(x) == KeyOf(y)
    requires Enabled(Run(s0, es), RunFirst(y))
    ensures var s, t := Run(s0, es), Next(Run(s0, es), RunFirst(y));
            && At(t, y, if v != Null || KeyOf(x).IntegrityKey? then Returned(v) else Awaits)
            && t.tasks == s.tasks && t.lock == None
  {
    StoredHolds(s0, es);
    InvariantHolds(s0, es);
    assert ActorOk(Run(s0, es), x);
  }
}
