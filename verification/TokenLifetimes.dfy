/** How often a key is fetched: once in the lifetime of a token. */
module TokenLifetimes {
  import opened TokenMachine
  import opened TokenTheorems

  function ExpiresAt(m: Minted): real {
    m.storedAt + m.ttl
  }

  /** Of two fetches for one key the later stored its token only when the earlier's had expired. */
  ghost predicate OncePerLifetime(st: State) {
    forall i, j :: 0 <= i < j < |st.minted| && st.minted[i].key == st.minted[j].key ==>
      ExpiresAt(st.minted[i]) <= st.minted[j].storedAt
  }

  /** A fetched token that has not expired is its key's entry. */
  ghost predicate FreshIsCached(st: State) {
    forall m :: m in st.minted && ExpiresAt(m) > st.clock ==>
      m.key in st.entries && st.entries[m.key] == Entry(m.value, ExpiresAt(m))
  }

  /** Whoever fetches does so because every earlier token of the key has expired. */
  ghost predicate FetchesAreNeeded(st: State) {
    forall t, m :: Fetches(st, t) && m in st.minted && m.key == st.tasks[t].key ==> ExpiresAt(m) <= st.clock
  }

  ghost predicate Sparing(st: State) {
    OncePerLifetime(st) && FreshIsCached(st) && FetchesAreNeeded(st)
  }

  /** A step that stores nothing: a task that begins to fetch found no live entry. */
  lemma QuietStep(st: State, st': State)
    requires Sparing(st) && st'.entries == st.entries && st'.minted == st.minted && st'.clock == st.clock
    requires forall u :: Fetches(st', u) ==>
      (Fetches(st, u) && st.tasks[u].key == st'.tasks[u].key) || !Live(st, st'.tasks[u].key)
    ensures Sparing(st')
  {
    forall u, m | Fetches(st', u) && m in st'.minted && m.key == st'.tasks[u].key ensures ExpiresAt(m) <= st'.clock {
      if Fetches(st, u) && st.tasks[u].key == st'.tasks[u].key {
        assert ExpiresAt(m) <= st.clock;
      }
    }
  }

  lemma CallSparing(st: State, t: TaskId, key: Key)
    requires Wf(st) && Sparing(st) && t !in st.tasks
    ensures Sparing(Begin(st, t, key))
  {
    if !Live(st, key) { BeginShape(st, t, key); }
    QuietStep(st, Begin(st, t, key));
  }

  lemma ResumeSparing(st: State, t: TaskId)
    requires Wf(st) && Sparing(st) && Enabled(st, Resume(t))
    ensures Sparing(Next(st, Resume(t)))
  {
    QuietStep(st, Next(st, Resume(t)));
  }

  /** The new token's predecessors have all expired, and no other task is fetching for its key. */
  lemma StoreSpaced(st: State, a: Action)
    requires Wf(st) && Sparing(st) && a.Store? && Enabled(st, a)
    ensures OncePerLifetime(Next(st, a))
  {
    var now := Next(st, a).minted;
    forall i, j | 0 <= i < j < |now| && now[i].key == now[j].key ensures ExpiresAt(now[i]) <= now[j].storedAt {
      assert now[i] == st.minted[i];
      if j < |st.minted| {
        assert now[j] == st.minted[j];
      } else {
        assert Fetches(st, a.task) && st.minted[i] in st.minted;
      }
    }
  }

  lemma StoreCached(st: State, a: Action)
    requires Wf(st) && Sparing(st) && a.Store? && Enabled(st, a)
    ensures FreshIsCached(Next(st, a))
  {
    var st', key := Next(st, a), st.tasks[a.task].key;
    forall m | m in st'.minted && ExpiresAt(m) > st'.clock
      ensures m.key in st'.entries && st'.entries[m.key] == Entry(m.value, ExpiresAt(m))
    {
      if m in st.minted {
        assert m.key != key by { assert Fetches(st, a.task); }
      }
    }
  }

  lemma StoreNeeded(st: State, a: Action)
    requires Wf(st) && Sparing(st) && SingleFlight(st) && a.Store? && Enabled(st, a)
    ensures FetchesAreNeeded(Next(st, a))
  {
    var st' := Next(st, a);
    forall t, m | Fetches(st', t) && m in st'.minted && m.key == st'.tasks[t].key ensures ExpiresAt(m) <= st'.clock {
      assert Fetches(st, t) && Fetches(st, a.task) && t != a.task;
      assert m in st.minted;
    }
  }

  lemma TickSparing(st: State, now: real)
    requires Sparing(st) && st.clock <= now
    ensures Sparing(st.(clock := now))
  {
    var st' := st.(clock := now);
    forall t, m | Fetches(st', t) && m in st'.minted && m.key == st'.tasks[t].key ensures ExpiresAt(m) <= now {
      assert Fetches(st, t) && ExpiresAt(m) <= st.clock;
    }
  }

  lemma NextSparing(st: State, a: Action)
    requires Wf(st) && Sparing(st) && SingleFlight(st) && Enabled(st, a)
    ensures Sparing(Next(st, a))
  {
    match a
    case Call(t, key) => CallSparing(st, t, key);
    case Resume(t) => ResumeSparing(st, t);
    case Store(_, _, _, _, _) => StoreSpaced(st, a); StoreCached(st, a); StoreNeeded(st, a);
    case Fail(t) => QuietStep(st, Next(st, a));
    case Cancel(t) => QuietStep(st, Next(st, a));
    case Tick(now) => TickSparing(st, now);
  }

  lemma {:induction false} GapFreeIsSparing(st: State, run: seq<Action>)
    requires Steady(st) && Shared(st) && Sparing(st) && Runs(st, run) && GapFree(st, run)
    ensures Sparing(After(st, run))
    decreases |run|
  {
    if run != [] {
      SharedIsSingleFlight(st);
      NextSteady(st, run[0]);
      NextShared(st, run[0]);
      NextSparing(st, run[0]);
      GapFreeIsSparing(Next(st, run[0]), run[1..]);
    }
  }

  /** In every run without a gap drop a key is fetched once per lifetime of its token: of two tokens
      for a key, the later was stored when the earlier had expired. However many callers a burst has,
      the tokens they are waiting for cost one successful request. */
  lemma FetchedOncePerLifetime(run: seq<Action>)
    requires Runs(Initial, run) && GapFree(Initial, run)
    ensures OncePerLifetime(After(Initial, run)) && SingleFlight(After(Initial, run))
  {
    InitialSteady();
    GapFreeIsSparing(Initial, run);
    GapFreeIsSingleFlight(Initial, run);
  }

  /** Were a released lock handed to its first waiter before any other fetch finishes, that would be
      every run. */
  lemma PromptIsOncePerLifetime(run: seq<Action>)
    requires Runs(Initial, run) && Prompt(Initial, run)
    ensures OncePerLifetime(After(Initial, run)) && SingleFlight(After(Initial, run))
  {
    InitialSteady();
    PromptIsGapFree(Initial, run);
    FetchedOncePerLifetime(run);
  }
}
