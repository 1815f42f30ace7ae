/** The token cache as a machine: tasks that switch only where the source awaits, asyncio
    locks with their queues of waiters, and a clock that never goes back.

    Releasing a lock and the next waiter taking it are two steps, as in asyncio: in between
    the lock is free although a woken task is still queued on it. */
module TokenMachine {
  import opened Wrappers

  type Key = string
  type TaskId = nat
  type LockId = nat

  datatype Entry = Entry(value: string, expiresAt: real)

  /** asyncio records only that a lock is held; the model also records by whom. */
  datatype Lock = Lock(holder: Option<TaskId>, waiters: seq<TaskId>) {
    predicate Locked() { holder.Some? }
  }

  datatype Served = Fresh | Cached(at: real, expiresAt: real)

  datatype Task =
    | Waiting(key: Key, lock: LockId)
    | Fetching(key: Key, lock: LockId)
    | Returned(key: Key, value: string, how: Served)
    | Raised(key: Key)

  /** A token some fetch produced. */
  datatype Minted = Minted(task: TaskId, key: Key, value: string, storedAt: real, ttl: real)

  /** `locks` maps a key to its current lock; `table` holds every lock ever created. */
  datatype State = State(
    entries: map<Key, Entry>,
    locks: map<Key, LockId>,
    table: seq<Lock>,
    tasks: map<TaskId, Task>,
    clock: real,
    minted: seq<Minted>)

  /** Every lock a key or a task names exists. */
  predicate Wf(st: State) {
    && (forall k :: k in st.locks ==> st.locks[k] < |st.table|)
    && (forall t :: t in st.tasks && (st.tasks[t].Waiting? || st.tasks[t].Fetching?) ==> st.tasks[t].lock < |st.table|)
  }

  const Initial := State(map[], map[], [], map[], 0.0, [])

  datatype Action =
    | Call(task: TaskId, key: Key)
    | Resume(task: TaskId)
    | Store(task: TaskId, value: string, ttl: real, storedAt: real, purgedAt: real)
    | Fail(task: TaskId)
    | Cancel(task: TaskId)
    | Tick(now: real)

  predicate Live(st: State, key: Key) {
    key in st.entries && st.entries[key].expiresAt > st.clock
  }

  function LockFor(st: State, key: Key): (r: (State, LockId))
    requires Wf(st)
    ensures Wf(r.0) && key in r.0.locks && r.0.locks[key] == r.1
  {
    if key in st.locks then (st, st.locks[key])
    else (st.(locks := st.locks[key := |st.table|], table := st.table + [Lock(None, [])]), |st.table|)
  }

  /** What a task that has just taken lock `l` does before it can be suspended again. */
  function Enter(st: State, t: TaskId, key: Key, l: LockId): State
    requires l < |st.table|
  {
    if Live(st, key)
    then
      var returned := Returned(key, st.entries[key].value, Cached(st.clock, st.entries[key].expiresAt));
      Release(st.(tasks := st.tasks[t := returned]), l)
    else st.(tasks := st.tasks[t := Fetching(key, l)])
  }

  function Release(st: State, l: LockId): State
    requires l < |st.table|
  {
    st.(table := st.table[l := st.table[l].(holder := None)])
  }

  function Expired(st: State, exclude: Key, now: real): set<Key> {
    set k | k in st.entries && k != exclude && st.entries[k].expiresAt <= now
  }

  /** The expired keys whose lock a purge drops too: those whose lock is not held. */
  function Dropped(st: State, exclude: Key, now: real): set<Key>
    requires Wf(st)
  {
    set k | k in Expired(st, exclude, now) && k in st.locks && !st.table[st.locks[k]].Locked()
  }

  function Purge(st: State, exclude: Key, now: real): State
    requires Wf(st)
  {
    st.(entries := st.entries - Expired(st, exclude, now), locks := st.locks - Dropped(st, exclude, now))
  }

  function Without(s: seq<TaskId>, t: TaskId): seq<TaskId> {
    if s == [] then [] else if s[0] == t then s[1..] else [s[0]] + Without(s[1..], t)
  }

  predicate Enabled(st: State, a: Action)
    requires Wf(st)
  {
    match a
    case Call(t, key) => t !in st.tasks
    case Resume(t) =>
      && t in st.tasks && st.tasks[t].Waiting?
      && var lock := st.table[st.tasks[t].lock]; !lock.Locked() && lock.waiters != [] && lock.waiters[0] == t
    case Store(t, _, _, storedAt, purgedAt) =>
      t in st.tasks && st.tasks[t].Fetching? && st.clock <= storedAt <= purgedAt
    case Fail(t) => t in st.tasks && st.tasks[t].Fetching?
    case Cancel(t) => t in st.tasks && st.tasks[t].Waiting?
    case Tick(now) => st.clock <= now
  }

  /** `get_or_fetch` up to its first suspension: the fast path, then the lock. */
  function Begin(st: State, t: TaskId, key: Key): (st': State)
    requires Wf(st) && t !in st.tasks
    ensures Wf(st')
  {
    if Live(st, key)
    then st.(tasks := st.tasks[t := Returned(key, st.entries[key].value, Cached(st.clock, st.entries[key].expiresAt))])
    else
      var (st1, l) := LockFor(st, key);
      var lock := st1.table[l];
      if !lock.Locked() && lock.waiters == []
      then Enter(st1.(table := st1.table[l := Lock(Some(t), [])]), t, key, l)
      else st1.(table := st1.table[l := lock.(waiters := lock.waiters + [t])], tasks := st1.tasks[t := Waiting(key, l)])
  }

  /** The entry is stored, and the fetching task is about to return its token. */
  function Stored(st: State, a: Action): (st': State)
    requires Wf(st) && a.Store? && Enabled(st, a)
    ensures Wf(st')
  {
    var key := st.tasks[a.task].key;
    st.(entries := st.entries[key := Entry(a.value, a.storedAt + a.ttl)],
        minted := st.minted + [Minted(a.task, key, a.value, a.storedAt, a.ttl)],
        clock := a.purgedAt,
        tasks := st.tasks[a.task := Returned(key, a.value, Fresh)])
  }

  function Next(st: State, a: Action): (st': State)
    requires Wf(st) && Enabled(st, a)
    ensures Wf(st')
  {
    match a
    case Call(t, key) => Begin(st, t, key)
    case Resume(t) =>
      var Waiting(key, l) := st.tasks[t];
      Enter(st.(table := st.table[l := Lock(Some(t), st.table[l].waiters[1..])]), t, key, l)
    case Store(t, _, _, _, purgedAt) =>
      var Fetching(key, l) := st.tasks[t];
      Release(Purge(Stored(st, a), key, purgedAt), l)
    case Fail(t) =>
      Release(st.(tasks := st.tasks[t := Raised(st.tasks[t].key)]), st.tasks[t].lock)
    case Cancel(t) =>
      var Waiting(key, l) := st.tasks[t];
      st.(table := st.table[l := st.table[l].(waiters := Without(st.table[l].waiters, t))],
          tasks := st.tasks[t := Raised(key)])
    case Tick(now) => st.(clock := now)
  }

  /** A run: each action is enabled where it is taken. */
  predicate Runs(st: State, run: seq<Action>)
    requires Wf(st)
    decreases |run|
  {
    run == [] || (Enabled(st, run[0]) && Runs(Next(st, run[0]), run[1..]))
  }

  function After(st: State, run: seq<Action>): (st': State)
    requires Wf(st) && Runs(st, run)
    ensures Wf(st')
    decreases |run|
  {
    if run == [] then st else After(Next(st, run[0]), run[1..])
  }
}
