/** At most one fetch per key, where every returned token comes from, and how long it is served. */
module TokenTheorems {
  import opened Wrappers
  import opened TokenMachine

  ghost predicate SingleFlight(st: State) {
    forall t, u :: Fetches(st, t) && Fetches(st, u) && st.tasks[t].key == st.tasks[u].key ==> t == u
  }

  predicate Fetches(st: State, t: TaskId) {
    t in st.tasks && st.tasks[t].Fetching?
  }

  predicate Waits(st: State, t: TaskId) {
    t in st.tasks && st.tasks[t].Waiting?
  }

  /** A fetching task holds its lock, and a waiting one is queued on it. */
  ghost predicate LocksOk(st: State) {
    && Wf(st)
    && (forall t :: Fetches(st, t) ==> st.table[st.tasks[t].lock].holder == Some(t))
    && (forall t :: Waits(st, t) ==> t in st.table[st.tasks[t].lock].waiters)
  }

  /** Only waiting tasks are queued, each once. */
  ghost predicate QueueOk(st: State, l: LockId)
    requires l < |st.table|
  {
    && NoDup(st.table[l].waiters)
    && forall t :: t in st.table[l].waiters ==> Waits(st, t) && st.tasks[t].lock == l
  }

  ghost predicate QueuesOk(st: State) {
    forall l :: 0 <= l < |st.table| ==> QueueOk(st, l)
  }

  /** Everyone waiting or fetching for a key shares the lock the key is mapped to, no two keys
      share one, and every cached entry has one. */
  ghost predicate Shared(st: State) {
    && (forall t :: Waits(st, t) || Fetches(st, t) ==>
          st.tasks[t].key in st.locks && st.locks[st.tasks[t].key] == st.tasks[t].lock)
    && (forall j, k :: j in st.locks && k in st.locks && st.locks[j] == st.locks[k] ==> j == k)
    && (forall k :: k in st.entries ==> k in st.locks)
  }

  lemma SharedIsSingleFlight(st: State)
    requires LocksOk(st) && Shared(st)
    ensures SingleFlight(st)
  {}

  /** A purge that drops a free lock on which a woken task is still queued. */
  ghost predicate GapDrop(st: State, a: Action)
    requires Wf(st) && Enabled(st, a)
  {
    && a.Store?
    && exists k :: k in Dropped(Stored(st, a), st.tasks[a.task].key, a.purgedAt) && st.table[st.locks[k]].waiters != []
  }

  ghost predicate GapFree(st: State, run: seq<Action>)
    requires Wf(st) && Runs(st, run)
    decreases |run|
  {
    run == [] || (!GapDrop(st, run[0]) && GapFree(Next(st, run[0]), run[1..]))
  }

  // ---- Locks behave in every run.

  lemma {:induction false} WithoutOk(s: seq<TaskId>, t: TaskId)
    requires NoDup(s)
    ensures NoDup(Without(s, t)) && forall u :: u in Without(s, t) <==> u in s && u != t
  {
    if s != [] {
      assert s == [s[0]] + s[1..] && s[0] !in s[1..] && NoDup(s[1..]);
      WithoutOk(s[1..], t);
      assert s[0] !in Without(s[1..], t);
    }
  }

  ghost predicate Steady(st: State) {
    LocksOk(st) && QueuesOk(st)
  }

  /** How a call that is not served from the cache leaves the state. */
  lemma BeginShape(st: State, t: TaskId, key: Key)
    requires Wf(st) && t !in st.tasks && !Live(st, key)
    ensures var (st1, l) := LockFor(st, key); var lock := st1.table[l];
      Begin(st, t, key) ==
        if !lock.Locked() && lock.waiters == []
        then st1.(table := st1.table[l := Lock(Some(t), [])], tasks := st.tasks[t := Fetching(key, l)])
        else st1.(table := st1.table[l := lock.(waiters := lock.waiters + [t])],
          tasks := st.tasks[t := Waiting(key, l)])
  {}

  lemma CallLocks(st: State, t: TaskId, key: Key)
    requires Steady(st) && t !in st.tasks
    ensures LocksOk(Begin(st, t, key))
  {
    if !Live(st, key) { BeginShape(st, t, key); }
  }

  lemma CallQueues(st: State, t: TaskId, key: Key)
    requires Steady(st) && t !in st.tasks
    ensures QueuesOk(Begin(st, t, key))
  {
    var st' := Begin(st, t, key);
    if !Live(st, key) { BeginShape(st, t, key); }
    forall l | 0 <= l < |st'.table| ensures QueueOk(st', l) {
      if l < |st.table| {
        assert QueueOk(st, l) && t !in st.table[l].waiters;
        QueueGrows(st, st', l, t);
      }
    }
  }

  lemma QueueGrows(st: State, st': State, l: LockId, t: TaskId)
    requires l < |st.table| && l < |st'.table| && QueueOk(st, l) && t !in st.tasks
    requires forall u :: u in st.tasks ==> u in st'.tasks && st'.tasks[u] == st.tasks[u]
    requires st'.table[l].waiters == st.table[l].waiters ||
      (st'.table[l].waiters == st.table[l].waiters + [t] && Waits(st', t) && st'.tasks[t].lock == l)
    ensures QueueOk(st', l)
  {
    var was, now := st.table[l].waiters, st'.table[l].waiters;
    assert t !in was by {
      assert !Waits(st, t);
    }
    forall i, j | 0 <= i < j < |now| ensures now[i] != now[j] {
      assert j < |was| ==> was[i] != was[j];
    }
  }

  lemma ResumeLocks(st: State, t: TaskId)
    requires Steady(st) && Enabled(st, Resume(t))
    ensures LocksOk(Next(st, Resume(t)))
  {
    var waiters := st.table[st.tasks[t].lock].waiters;
    assert waiters == [t] + waiters[1..];
  }

  lemma ResumeQueues(st: State, t: TaskId)
    requires Steady(st) && Enabled(st, Resume(t))
    ensures QueuesOk(Next(st, Resume(t)))
  {
    var st' := Next(st, Resume(t));
    assert QueueOk(st, st.tasks[t].lock);
    var waiters := st.table[st.tasks[t].lock].waiters;
    assert waiters == [t] + waiters[1..] && t !in waiters[1..];
    forall l | 0 <= l < |st'.table| ensures QueueOk(st', l) {
      assert QueueOk(st, l);
    }
  }

  lemma StoreSteady(st: State, a: Action)
    requires Steady(st) && a.Store? && Enabled(st, a)
    ensures Steady(Next(st, a))
  {
    var st' := Next(st, a);
    forall l | 0 <= l < |st'.table| ensures QueueOk(st', l) {
      assert QueueOk(st, l);
    }
  }

  lemma FailSteady(st: State, t: TaskId)
    requires Steady(st) && Enabled(st, Fail(t))
    ensures Steady(Next(st, Fail(t)))
  {
    var st' := Next(st, Fail(t));
    forall l | 0 <= l < |st'.table| ensures QueueOk(st', l) {
      assert QueueOk(st, l);
    }
  }

  lemma CancelSteady(st: State, t: TaskId)
    requires Steady(st) && Enabled(st, Cancel(t))
    ensures Steady(Next(st, Cancel(t)))
  {
    var st' := Next(st, Cancel(t));
    assert QueueOk(st, st.tasks[t].lock);
    WithoutOk(st.table[st.tasks[t].lock].waiters, t);
    forall l | 0 <= l < |st'.table| ensures QueueOk(st', l) {
      assert QueueOk(st, l);
    }
  }

  lemma TickSteady(st: State, now: real)
    requires Steady(st) && st.clock <= now
    ensures Steady(Next(st, Tick(now)))
  {
    forall l | 0 <= l < |st.table| ensures QueueOk(Next(st, Tick(now)), l) {
      assert QueueOk(st, l);
    }
  }

  lemma NextSteady(st: State, a: Action)
    requires Steady(st) && Enabled(st, a)
    ensures Steady(Next(st, a))
  {
    match a
    case Call(t, key) => CallLocks(st, t, key); CallQueues(st, t, key);
    case Resume(t) => ResumeLocks(st, t); ResumeQueues(st, t);
    case Store(_, _, _, _, _) => StoreSteady(st, a);
    case Fail(t) => FailSteady(st, t);
    case Cancel(t) => CancelSteady(st, t);
    case Tick(now) => TickSteady(st, now);
  }

  // ---- Single flight.

  lemma NextShared(st: State, a: Action)
    requires Steady(st) && Shared(st) && Enabled(st, a) && !GapDrop(st, a)
    ensures Shared(Next(st, a))
  {
    match a
    case Call(t, key) => CallShared(st, t, key);
    case Store(_, _, _, _, _) => StoreShared(st, a);
    case _ =>
  }

  lemma CallShared(st: State, t: TaskId, key: Key)
    requires Wf(st) && Shared(st) && t !in st.tasks
    ensures Shared(Begin(st, t, key))
  {
    if !Live(st, key) {
      BeginShape(st, t, key);
      assert Shared(LockFor(st, key).0);
    }
  }

  lemma StoreShared(st: State, a: Action)
    requires Steady(st) && Shared(st) && a.Store? && Enabled(st, a) && !GapDrop(st, a)
    ensures Shared(Next(st, a))
  {
    var st' := Next(st, a);
    var dropped := Dropped(Stored(st, a), st.tasks[a.task].key, a.purgedAt);
    forall t | Waits(st', t) || Fetches(st', t) ensures st.tasks[t].key !in dropped {
      assert Waits(st, t) || Fetches(st, t);
    }
  }

  /** Whatever the interleaving, while no purge drops a lock that a woken task is queued on, at
      most one fetch per key is in flight. */
  lemma {:induction false} GapFreeIsSingleFlight(st: State, run: seq<Action>)
    requires Steady(st) && Shared(st) && Runs(st, run) && GapFree(st, run)
    ensures SingleFlight(After(st, run))
    decreases |run|
  {
    if run == [] {
      SharedIsSingleFlight(st);
    } else {
      NextSteady(st, run[0]);
      NextShared(st, run[0]);
      GapFreeIsSingleFlight(Next(st, run[0]), run[1..]);
    }
  }

  lemma OneStep(st: State, a: Action)
    requires Wf(st) && Enabled(st, a)
    ensures Runs(st, [a]) && After(st, [a]) == Next(st, a)
    ensures !a.Store? ==> GapFree(st, [a])
  {
    assert [a][1..] == [];
    assert Runs(Next(st, a), []) && GapFree(Next(st, a), []);
  }

  lemma TwoSteps(st: State, a: Action, b: Action)
    requires Wf(st) && Enabled(st, a) && Enabled(Next(st, a), b) && !a.Store? && !b.Store?
    ensures Runs(st, [a, b]) && After(st, [a, b]) == Next(Next(st, a), b) && GapFree(st, [a, b])
  {
    OneStep(Next(st, a), b);
    assert [a, b][1..] == [b];
  }

  /** The two actions that break single flight after a gap drop of `key`: a new caller finds no
      lock and fetches; the task queued on the dropped lock then fetches as well. */
  lemma GapDropBreaks(st: State, a: Action, key: Key, newcomer: TaskId)
    requires Steady(st) && a.Store? && Enabled(st, a) && newcomer !in st.tasks
    requires Shared(st)
    requires key in Dropped(Stored(st, a), st.tasks[a.task].key, a.purgedAt) && st.table[st.locks[key]].waiters != []
    ensures var st1 := Next(st, a);
      var run := [Call(newcomer, key), Resume(st.table[st.locks[key]].waiters[0])];
      Runs(st1, run) && GapFree(st1, run) && !SingleFlight(After(st1, run))
  {
    var l := st.locks[key];
    var woken := st.table[l].waiters[0];
    assert QueueOk(st, l);
    assert woken in st.table[l].waiters;
    var st1 := Next(st, a);
    NextSteady(st, a);
    assert key !in st1.entries && key !in st1.locks;
    assert st1.tasks[woken] == st.tasks[woken] == Waiting(key, l) && st1.table[l] == st.table[l];
    BeginShape(st1, newcomer, key);
    var st2 := Next(st1, Call(newcomer, key));
    assert Fetches(st2, newcomer) && st2.tasks[newcomer].key == key;
    assert st2.tasks[woken] == Waiting(key, l) && st2.table[l] == st.table[l];
    var st3 := Next(st2, Resume(woken));
    TwoSteps(st1, Call(newcomer, key), Resume(woken));
    assert Fetches(st3, woken) && Fetches(st3, newcomer) && st3.tasks[woken].key == st3.tasks[newcomer].key == key;
  }

  /** Every run from here on that drops no lock in the gap stays single flight. */
  ghost predicate StaysSingleFlight(st: State)
    requires Wf(st)
  {
    forall run :: Runs(st, run) && GapFree(st, run) ==> SingleFlight(After(st, run))
  }

  lemma NoGapDropStays(st: State, a: Action)
    requires Steady(st) && Shared(st) && a.Store? && Enabled(st, a) && !GapDrop(st, a)
    ensures StaysSingleFlight(Next(st, a))
  {
    NextSteady(st, a);
    NextShared(st, a);
    forall run | Runs(Next(st, a), run) && GapFree(Next(st, a), run)
      ensures SingleFlight(After(Next(st, a), run))
    {
      GapFreeIsSingleFlight(Next(st, a), run);
    }
  }

  /** Single flight survives a finishing fetch, in every gap-free continuation, exactly when its
      purge drops no free lock that a woken task is queued on. */
  lemma SingleFlightExactly(st: State, a: Action, newcomer: TaskId)
    requires Steady(st) && Shared(st) && a.Store? && Enabled(st, a) && newcomer !in st.tasks
    ensures !GapDrop(st, a) <==> StaysSingleFlight(Next(st, a))
  {
    if GapDrop(st, a) {
      var key :| key in Dropped(Stored(st, a), st.tasks[a.task].key, a.purgedAt)
        && st.table[st.locks[key]].waiters != [];
      GapDropBreaks(st, a, key, newcomer);
    } else {
      NoGapDropStays(st, a);
    }
  }

  /** Every action follows only once the tasks woken before it have taken their locks. */
  ghost predicate Prompt(st: State, run: seq<Action>)
    requires Wf(st) && Runs(st, run)
    decreases |run|
  {
    run == [] || ((run[0].Store? ==> NoneWoken(st)) && Prompt(Next(st, run[0]), run[1..]))
  }

  ghost predicate NoneWoken(st: State) {
    forall l :: 0 <= l < |st.table| ==> st.table[l].Locked() || st.table[l].waiters == []
  }

  lemma {:induction false} PromptIsGapFree(st: State, run: seq<Action>)
    requires Wf(st) && Runs(st, run) && Prompt(st, run)
    ensures GapFree(st, run)
    decreases |run|
  {
    if run != [] {
      PromptIsGapFree(Next(st, run[0]), run[1..]);
    }
  }

  lemma InitialSteady()
    ensures Steady(Initial) && Shared(Initial)
  {}

  lemma {:induction false} RunThen(st: State, run: seq<Action>, a: Action)
    requires Wf(st) && Runs(st, run) && Enabled(After(st, run), a)
    ensures Runs(st, run + [a]) && After(st, run + [a]) == Next(After(st, run), a)
    decreases |run|
  {
    if run == [] {
      OneStep(st, a);
      assert [] + [a] == [a];
    } else {
      RunThen(Next(st, run[0]), run[1..], a);
      assert (run + [a])[1..] == run[1..] + [a];
    }
  }

  lemma {:induction false} RunSteady(st: State, run: seq<Action>)
    requires Steady(st) && Runs(st, run)
    ensures Steady(After(st, run))
    decreases |run|
  {
    if run != [] {
      NextSteady(st, run[0]);
      RunSteady(Next(st, run[0]), run[1..]);
    }
  }

  // ---- A run that is not single flight. A token with a zero lifetime is enough: task 2 is
  // queued behind task 1 for "k", and task 3's purge runs after task 1 released that lock.

  const One := State(map[], map["k" := 0], [Lock(Some(1), [])], map[1 := Fetching("k", 0)], 0.0, [])
  const Two := One.(table := [Lock(Some(1), [2])], tasks := One.tasks[2 := Waiting("k", 0)])
  const Three := Two.(locks := Two.locks["m" := 1], table := [Lock(Some(1), [2]), Lock(Some(3), [])],
                      tasks := Two.tasks[3 := Fetching("m", 1)])
  const Four := Three.(entries := map["k" := Entry("a", 0.0)], table := [Lock(None, [2]), Lock(Some(3), [])],
                       tasks := Three.tasks[1 := Returned("k", "a", Fresh)], minted := [Minted(1, "k", "a", 0.0, 0.0)])

  lemma ToOne()
    ensures Next(Initial, Call(1, "k")) == One
  {
    BeginShape(Initial, 1, "k");
  }

  lemma ToTwo()
    ensures Wf(One) && Enabled(One, Call(2, "k")) && Next(One, Call(2, "k")) == Two
  {
    BeginShape(One, 2, "k");
    assert One.table[0].waiters + [2] == [2];
  }

  lemma ToThree()
    ensures Wf(Two) && Enabled(Two, Call(3, "m")) && Next(Two, Call(3, "m")) == Three
  {
    BeginShape(Two, 3, "m");
  }

  const Storing := Store(1, "a", 0.0, 0.0, 0.0)

  /** Nothing but the token just stored has expired, and that one is kept. */
  lemma NothingPurged()
    ensures Wf(Three) && Enabled(Three, Storing)
    ensures Purge(Stored(Three, Storing), "k", 0.0) == Stored(Three, Storing)
  {
    var stored := Stored(Three, Storing);
    assert stored.entries.Keys == {"k"};
    assert Expired(stored, "k", 0.0) == {};
    assert stored.entries - {} == stored.entries && stored.locks - {} == stored.locks;
  }

  lemma ToFour()
    ensures Wf(Three) && Enabled(Three, Storing) && Next(Three, Storing) == Four
  {
    NothingPurged();
    var stored := Stored(Three, Storing);
    assert Release(stored, 0) == Four;
  }

  lemma RunToFour() returns (run: seq<Action>)
    ensures Runs(Initial, run) && After(Initial, run) == Four
  {
    ToOne(); ToTwo(); ToThree(); ToFour();
    OneStep(Initial, Call(1, "k"));
    RunThen(Initial, [Call(1, "k")], Call(2, "k"));
    RunThen(Initial, [Call(1, "k")] + [Call(2, "k")], Call(3, "m"));
    RunThen(Initial, [Call(1, "k")] + [Call(2, "k")] + [Call(3, "m")], Storing);
    run := [Call(1, "k")] + [Call(2, "k")] + [Call(3, "m")] + [Storing];
  }

  const Purging := Store(3, "b", 300.0, 0.0, 0.0)

  lemma FourDrops()
    ensures Wf(Four) && Shared(Four) && Enabled(Four, Purging) && 4 !in Four.tasks
    ensures "k" in Dropped(Stored(Four, Purging), Four.tasks[3].key, 0.0) && Four.table[Four.locks["k"]].waiters == [2]
  {}

  lemma TwoUnfold(st: State, b: Action, c: Action)
    requires Wf(st) && Runs(st, [b, c])
    ensures Enabled(st, b) && Enabled(Next(st, b), c) && After(st, [b, c]) == Next(Next(st, b), c)
  {
    assert [b, c][1..] == [c] && [c][1..] == [];
    OneStep(Next(st, b), c);
  }

  lemma RunTo(run: seq<Action>, st: State, a: Action, st': State)
    requires Runs(Initial, run) && After(Initial, run) == st && Enabled(st, a) && st' == Next(st, a)
    ensures Runs(Initial, run + [a]) && After(Initial, run + [a]) == st'
  {
    RunThen(Initial, run, a);
  }

  lemma Reached(run: seq<Action>, st: State, b: Action, c: Action)
    requires Runs(Initial, run) && After(Initial, run) == st
    requires Runs(st, [b, c]) && !SingleFlight(After(st, [b, c]))
    ensures exists run' :: Runs(Initial, run') && !SingleFlight(After(Initial, run'))
  {
    TwoUnfold(st, b, c);
    var middle := Next(st, b);
    RunTo(run, st, b, middle);
    RunTo(run + [b], middle, c, After(st, [b, c]));
  }

  /** As it stands, the cache is not single flight. */
  lemma NotAlwaysSingleFlight()
    ensures exists run :: Runs(Initial, run) && !SingleFlight(After(Initial, run))
  {
    var run := RunToFour();
    assert Steady(Four) by {
      InitialSteady();
      RunSteady(Initial, run);
    }
    FourDrops();
    GapDropBreaks(Four, Purging, "k", 4);
    RunTo(run, Four, Purging, Next(Four, Purging));
    Reached(run + [Purging], Next(Four, Purging), Call(4, "k"), Resume(2));
  }

  // ---- Where a returned token comes from.

  ghost predicate Backed(minted: seq<Minted>, key: Key, value: string, expiresAt: real, served: real) {
    exists m :: m in minted && m.key == key && m.value == value
      && m.storedAt + m.ttl == expiresAt && m.storedAt <= served
  }

  ghost predicate Traced(st: State) {
    && (forall k :: k in st.entries ==> Backed(st.minted, k, st.entries[k].value, st.entries[k].expiresAt, st.clock))
    && (forall t :: t in st.tasks && st.tasks[t].Returned? ==> TracedReturn(st, t, st.tasks[t]))
  }

  ghost predicate TracedReturn(st: State, t: TaskId, r: Task)
    requires r.Returned?
  {
    match r.how
    case Cached(at, expiresAt) => at < expiresAt && Backed(st.minted, r.key, r.value, expiresAt, at)
    case Fresh => exists m :: m in st.minted && m.task == t && m.key == r.key && m.value == r.value
  }

  lemma MoreMinted(st: State, st': State)
    requires Traced(st) && st.minted <= st'.minted && st.clock <= st'.clock
    ensures forall k :: k in st.entries ==>
      Backed(st'.minted, k, st.entries[k].value, st.entries[k].expiresAt, st'.clock)
    ensures forall t :: t in st.tasks && st.tasks[t].Returned? ==> TracedReturn(st', t, st.tasks[t])
  {
    assert forall m :: m in st.minted ==> m in st'.minted;
    forall t | t in st.tasks && st.tasks[t].Returned? ensures TracedReturn(st', t, st.tasks[t]) {
      assert TracedReturn(st, t, st.tasks[t]);
    }
  }

  lemma EnterTraced(st: State, t: TaskId, key: Key, l: LockId)
    requires Traced(st) && l < |st.table|
    ensures Traced(Enter(st, t, key, l))
  {
    MoreMinted(st, Enter(st, t, key, l));
  }

  lemma BeginTraced(st: State, t: TaskId, key: Key)
    requires Wf(st) && Traced(st) && t !in st.tasks
    ensures Traced(Begin(st, t, key))
  {
    MoreMinted(st, Begin(st, t, key));
    if !Live(st, key) { BeginShape(st, t, key); }
  }

  lemma NextTraced(st: State, a: Action)
    requires Wf(st) && Traced(st) && Enabled(st, a)
    ensures Traced(Next(st, a))
  {
    match a
    case Call(t, key) => BeginTraced(st, t, key);
    case Resume(t) =>
      var Waiting(key, l) := st.tasks[t];
      var taken := st.(table := st.table[l := Lock(Some(t), st.table[l].waiters[1..])]);
      MoreMinted(st, taken);
      EnterTraced(taken, t, key, l);
    case Store(t, value, ttl, storedAt, _) =>
      MoreMinted(st, Next(st, a));
      assert Minted(t, st.tasks[t].key, value, storedAt, ttl) in Next(st, a).minted;
    case _ =>
      MoreMinted(st, Next(st, a));
  }

  lemma {:induction false} RunTraced(st: State, run: seq<Action>)
    requires Wf(st) && Traced(st) && Runs(st, run)
    ensures Traced(After(st, run))
    decreases |run|
  {
    if run != [] {
      NextTraced(st, run[0]);
      RunTraced(Next(st, run[0]), run[1..]);
    }
  }

  /** In every run, also one that is not single flight: a value returned for a key was produced by
      a fetch for that key, and either this call fetched it or it expires after the clock that was
      read when it was served. */
  lemma ReturnsAreTraced(run: seq<Action>, t: TaskId)
    requires Runs(Initial, run) && t in After(Initial, run).tasks && After(Initial, run).tasks[t].Returned?
    ensures var st := After(Initial, run); var r := st.tasks[t];
      exists m :: m in st.minted && m.key == r.key && m.value == r.value &&
        match r.how
        case Fresh => m.task == t
        case Cached(at, expiresAt) => m.storedAt <= at < expiresAt == m.storedAt + m.ttl
  {
    RunTraced(Initial, run);
    var st := After(Initial, run);
    assert TracedReturn(st, t, st.tasks[t]);
  }

  // ---- How long a token is served.

  const LEEWAY := 60.0

  function Max(a: real, b: real): real { if a >= b then a else b }
  function Min(a: real, b: real): real { if a <= b then a else b }

  /** `_post_token_request`: the lifetime of a token response. */
  function ResponseTtl(expiresIn: real): real {
    Max(0.0, expiresIn - LEEWAY)
  }

  /** `TokenExchangeSource.get`: never longer than the subject token lasts. */
  function ExchangeTtl(expiresIn: real, subjectExpiresAt: Option<real>, wall: real): real {
    match subjectExpiresAt
    case None => ResponseTtl(expiresIn)
    case Some(e) => Min(ResponseTtl(expiresIn), Max(0.0, e - wall - LEEWAY))
  }

  /** The lifetime is the longest that ends a leeway before the token's own expiry and before the subject
      token's; there is none when that is past. */
  lemma LifetimeExactly(expiresIn: real, subjectExpiresAt: Option<real>, wall: real, t: real)
    requires t > 0.0
    ensures ExchangeTtl(expiresIn, subjectExpiresAt, wall) >= 0.0
    ensures t <= ExchangeTtl(expiresIn, subjectExpiresAt, wall) <==>
      t <= expiresIn - 60.0 && (subjectExpiresAt.Some? ==> wall + t <= subjectExpiresAt.value - 60.0)
  {}

  /** What the lifetime of `m` was computed from, and what then holds of serving it from the cache
      at `at`. Wall time is `skew` ahead of the monotonic clock; `checkedAt` is when the lifetime
      was computed, `issuedAt` (wall) when the token was issued. */
  predicate InTime(m: Minted, at: real, expiresIn: real, subject: Option<real>, skew: real, checkedAt: real,
          issuedAt: real) {
    checkedAt <= m.storedAt && m.ttl == ExchangeTtl(expiresIn, subject, checkedAt + skew) ==>
      && (subject.Some? ==> at + skew < subject.value - LEEWAY + (m.storedAt - checkedAt))
      && (m.storedAt + skew - issuedAt <= LEEWAY ==> at + skew < issuedAt + expiresIn)
  }

  /** A token served from the cache is served before its subject token expires, less the leeway
      plus the time from computing the lifetime to storing it; before its own expiry, when at most
      the leeway lies between issuing and storing it; and never when its lifetime is zero. */
  lemma ServedInTime(run: seq<Action>, t: TaskId)
    requires Runs(Initial, run) && t in After(Initial, run).tasks
    requires After(Initial, run).tasks[t].Returned? && After(Initial, run).tasks[t].how.Cached?
    ensures var st := After(Initial, run); var r := st.tasks[t];
      exists m :: m in st.minted && m.key == r.key && m.value == r.value && m.ttl > 0.0 &&
        forall e, s, w, c, i :: InTime(m, r.how.at, e, s, w, c, i)
  {
    ReturnsAreTraced(run, t);
  }
}
