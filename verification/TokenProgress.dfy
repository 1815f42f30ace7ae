/** No lock is kept by a task that is done with it, and nobody waits for ever. */
module TokenProgress {
  import opened Wrappers
  import opened TokenMachine
  import opened TokenTheorems

  /** A lock is held only by a task that is fetching under it. */
  ghost predicate HoldersFetch(st: State) {
    forall l :: 0 <= l < |st.table| && st.table[l].Locked() ==> HeldByFetch(st, l)
  }

  ghost predicate HeldByFetch(st: State, l: LockId)
    requires l < |st.table|
  {
    && st.table[l].holder.Some?
    && Fetches(st, st.table[l].holder.value) && st.tasks[st.table[l].holder.value].lock == l
  }

  lemma CallHolders(st: State, t: TaskId, key: Key)
    requires Steady(st) && HoldersFetch(st) && t !in st.tasks
    ensures HoldersFetch(Begin(st, t, key))
  {
    var st' := Begin(st, t, key);
    if !Live(st, key) { BeginShape(st, t, key); }
    forall l | 0 <= l < |st'.table| && st'.table[l].Locked() ensures HeldByFetch(st', l) {
      assert l < |st.table| && st.table[l].Locked() ==> HeldByFetch(st, l);
    }
  }

  /** The end of a fetch, or being served under the lock, gives the lock back. */
  lemma ReleaseHolders(st: State, st': State, t: TaskId, l: LockId)
    requires HoldersFetch(st) && l < |st.table| && |st'.table| == |st.table| && !st'.table[l].Locked()
    requires Fetches(st, t) ==> st.tasks[t].lock == l
    requires forall k :: 0 <= k < |st.table| && k != l ==> st'.table[k] == st.table[k]
    requires forall u :: u in st.tasks && u != t ==> u in st'.tasks && st'.tasks[u] == st.tasks[u]
    ensures HoldersFetch(st')
  {
    forall k | 0 <= k < |st'.table| && st'.table[k].Locked() ensures HeldByFetch(st', k) {
      assert HeldByFetch(st, k);
    }
  }

  lemma ResumeHolders(st: State, t: TaskId)
    requires Steady(st) && HoldersFetch(st) && Enabled(st, Resume(t))
    ensures HoldersFetch(Next(st, Resume(t)))
  {
    var st', l := Next(st, Resume(t)), st.tasks[t].lock;
    if Live(st, st.tasks[t].key) {
      ReleaseHolders(st, st', t, l);
    } else {
      forall k | 0 <= k < |st'.table| && st'.table[k].Locked() ensures HeldByFetch(st', k) {
        if k != l { assert HeldByFetch(st, k); }
      }
    }
  }

  lemma StoreHolders(st: State, a: Action)
    requires Steady(st) && HoldersFetch(st) && a.Store? && Enabled(st, a)
    ensures HoldersFetch(Next(st, a))
  {
    ReleaseHolders(st, Next(st, a), a.task, st.tasks[a.task].lock);
  }

  lemma CancelHolders(st: State, t: TaskId)
    requires Steady(st) && HoldersFetch(st) && Enabled(st, Cancel(t))
    ensures HoldersFetch(Next(st, Cancel(t)))
  {
    var st' := Next(st, Cancel(t));
    forall l | 0 <= l < |st'.table| && st'.table[l].Locked() ensures HeldByFetch(st', l) {
      assert st.table[l].holder == st'.table[l].holder && HeldByFetch(st, l);
    }
  }

  lemma NextHolders(st: State, a: Action)
    requires Steady(st) && HoldersFetch(st) && Enabled(st, a)
    ensures HoldersFetch(Next(st, a))
  {
    match a
    case Call(t, key) => CallHolders(st, t, key);
    case Resume(t) => ResumeHolders(st, t);
    case Store(_, _, _, _, _) => StoreHolders(st, a);
    case Fail(t) => ReleaseHolders(st, Next(st, a), t, st.tasks[t].lock);
    case Cancel(t) => CancelHolders(st, t);
    case Tick(now) =>
      forall l | 0 <= l < |st.table| && st.table[l].Locked() ensures HeldByFetch(Next(st, a), l) {
        assert HeldByFetch(st, l);
      }
  }

  lemma {:induction false} RunHolders(st: State, run: seq<Action>)
    requires Steady(st) && HoldersFetch(st) && Runs(st, run)
    ensures Steady(After(st, run)) && HoldersFetch(After(st, run))
    decreases |run|
  {
    if run != [] {
      NextSteady(st, run[0]);
      NextHolders(st, run[0]);
      RunHolders(Next(st, run[0]), run[1..]);
    }
  }

  /** In every reachable state a lock has a holder exactly when a task is fetching under it, and while
      tasks are queued on it either such a fetch is under way or the first of them can take it. */
  lemma NoneStranded(run: seq<Action>, l: LockId)
    requires Runs(Initial, run) && l < |After(Initial, run).table|
    ensures var st := After(Initial, run);
      && (forall t :: st.table[l].holder == Some(t) <==> Fetches(st, t) && st.tasks[t].lock == l)
      && (st.table[l].waiters != [] ==> st.table[l].Locked() || Enabled(st, Resume(st.table[l].waiters[0])))
  {
    InitialSteady();
    RunHolders(Initial, run);
    var st := After(Initial, run);
    assert st.table[l].Locked() ==> HeldByFetch(st, l);
    assert QueueOk(st, l);
    assert st.table[l].waiters != [] ==> st.table[l].waiters[0] in st.table[l].waiters;
  }

  // ---- What each step does to the task that takes it

  /** The task and the clock after a step: a call with an unexpired entry returns it at once, a resumed
      task returns it or fetches, a fetched token is returned, and a failed or cancelled task is told. */
  lemma StepTells(st: State, a: Action)
    requires Steady(st) && Enabled(st, a)
    ensures var st' := Next(st, a);
      match a
      case Call(t, key) =>
        t in st'.tasks && st'.tasks[t].key == key && st'.clock == st.clock &&
        if key in st.entries && st.clock < st.entries[key].expiresAt
        then st'.tasks[t] == Returned(key, st.entries[key].value, Cached(st.clock, st.entries[key].expiresAt))
        else Waits(st', t) || Fetches(st', t)
      case Resume(t) =>
        var key := st.tasks[t].key;
        t in st'.tasks && st'.tasks[t].key == key && st'.clock == st.clock &&
        if key in st.entries && st.clock < st.entries[key].expiresAt
        then st'.tasks[t] == Returned(key, st.entries[key].value, Cached(st.clock, st.entries[key].expiresAt))
        else Fetches(st', t)
      case Store(t, value, ttl, storedAt, purgedAt) =>
        var key := st.tasks[t].key;
        t in st'.tasks && st'.tasks[t] == Returned(key, value, Fresh) && st'.clock == purgedAt
        && key in st'.entries && st'.entries[key] == Entry(value, storedAt + ttl)
      case Fail(t) => t in st'.tasks && st'.tasks[t] == Raised(st.tasks[t].key) && st'.clock == st.clock
      case Cancel(t) => t in st'.tasks && st'.tasks[t] == Raised(st.tasks[t].key) && st'.clock == st.clock
      case Tick(now) => st'.clock == now
  {
    if a.Call? && !Live(st, a.key) { BeginShape(st, a.task, a.key); }
  }

  /** Every other task stays as it was, and only storing a token changes the entries. */
  lemma OthersStay(st: State, a: Action, u: TaskId)
    requires Wf(st) && Enabled(st, a) && u in st.tasks && (a.Tick? || a.task != u)
    ensures u in Next(st, a).tasks && Next(st, a).tasks[u] == st.tasks[u]
    ensures !a.Store? ==> Next(st, a).entries == st.entries
    ensures a.Store? ==> forall k :: k in Next(st, a).entries <==>
      k == st.tasks[a.task].key || (k in st.entries && a.purgedAt < st.entries[k].expiresAt)
    ensures a.Store? ==> forall k :: k in Next(st, a).entries && k != st.tasks[a.task].key ==>
      Next(st, a).entries[k] == st.entries[k]
  {
    if a.Call? && !Live(st, a.key) { BeginShape(st, a.task, a.key); }
  }

  // ---- Everyone who waits gets on

  ghost predicate Patient(run: seq<Action>) {
    forall a :: a in run ==> a.Resume? || a.Fail?
  }

  lemma RunCons(st: State, a: Action, run: seq<Action>)
    requires Wf(st) && Enabled(st, a) && Runs(Next(st, a), run)
    ensures Runs(st, [a] + run) && After(st, [a] + run) == After(Next(st, a), run)
  {
    assert ([a] + run)[0] == a && ([a] + run)[1..] == run;
  }

  /** Ending the fetch under a lock leaves its queue alone. */
  lemma FailFrees(st: State, t: TaskId, l: LockId, u: TaskId)
    requires Steady(st) && HoldersFetch(st) && Waits(st, t) && st.tasks[t].lock == l && st.table[l].holder == Some(u)
    ensures Enabled(st, Fail(u))
    ensures var st' := Next(st, Fail(u));
      Waits(st', t) && st'.tasks[t] == st.tasks[t] && st'.table[l] == Lock(None, st.table[l].waiters)
  {
    assert HeldByFetch(st, l);
  }

  /** The first in the queue of a free lock takes it and no longer waits; the others move up. */
  lemma ResumeMoves(st: State, t: TaskId, l: LockId)
    requires Steady(st) && Waits(st, t) && st.tasks[t].lock == l && !st.table[l].Locked()
    ensures st.table[l].waiters != []
    ensures var first := st.table[l].waiters[0];
      && Enabled(st, Resume(first)) && !Waits(Next(st, Resume(first)), first)
      && Next(st, Resume(first)).table[l].waiters == st.table[l].waiters[1..]
      && (first != t ==> Waits(Next(st, Resume(first)), t) && Next(st, Resume(first)).tasks[t] == st.tasks[t])
  {
    assert t in st.table[l].waiters && QueueOk(st, l);
    assert st.table[l].waiters[0] in st.table[l].waiters;
  }

  /** Resuming the queue in its order, and ending the fetch in each one's way, is enough. */
  lemma {:induction false} GetsOn(st: State, t: TaskId, n: nat) returns (run: seq<Action>)
    requires Steady(st) && HoldersFetch(st) && Waits(st, t)
    requires n < |st.table[st.tasks[t].lock].waiters| && st.table[st.tasks[t].lock].waiters[n] == t
    ensures Patient(run) && Runs(st, run) && t in After(st, run).tasks && !Waits(After(st, run), t)
    decreases n, st.table[st.tasks[t].lock].Locked()
  {
    var l := st.tasks[t].lock;
    var a: Action;
    if st.table[l].Locked() {
      var u := st.table[l].holder.value;
      FailFrees(st, t, l, u);
      a := Fail(u);
      NextSteady(st, a);
      NextHolders(st, a);
      run := GetsOn(Next(st, a), t, n);
    } else {
      a := Resume(st.table[l].waiters[0]);
      ResumeMoves(st, t, l);
      NextSteady(st, a);
      NextHolders(st, a);
      if n == 0 {
        run := [];
      } else {
        assert QueueOk(st, l);
        run := GetsOn(Next(st, a), t, n - 1);
      }
    }
    RunCons(st, a, run);
    run := [a] + run;
  }

  /** From every reachable state, whoever waits can return, fetch or fail without being cancelled:
      it takes no more than ending the fetches in front and resuming the queue. */
  lemma EveryWaiterGetsOn(run: seq<Action>, t: TaskId) returns (more: seq<Action>)
    requires Runs(Initial, run) && Waits(After(Initial, run), t)
    ensures Patient(more) && Runs(After(Initial, run), more)
    ensures t in After(After(Initial, run), more).tasks && !Waits(After(After(Initial, run), more), t)
  {
    InitialSteady();
    RunHolders(Initial, run);
    var st := After(Initial, run);
    var waiters := st.table[st.tasks[t].lock].waiters;
    var n :| 0 <= n < |waiters| && waiters[n] == t;
    more := GetsOn(st, t, n);
  }
}
