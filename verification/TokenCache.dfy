/** The cache object itself: two dictionaries and the locks, changed in place between awaits. */
module TokenCache {
  import opened Wrappers
  import opened TokenMachine

  /** `tasks`, `clock` and `minted` belong to the event loop, not to the object; they are ghost. */
  class TokenCache {
    var entries: map<Key, Entry>
    var locks: map<Key, LockId>
    var table: seq<Lock>
    ghost var tasks: map<TaskId, Task>
    ghost var clock: real
    ghost var minted: seq<Minted>

    ghost function Snapshot(): State
      reads this
    {
      State(entries, locks, table, tasks, clock, minted)
    }

    ghost predicate Valid()
      reads this
    {
      Wf(Snapshot())
    }

    constructor ()
      ensures Valid() && Snapshot() == Initial
    {
      entries, locks, table, tasks, clock, minted := map[], map[], [], map[], 0.0, [];
    }

    method LockOf(key: Key) returns (l: LockId)
      requires Valid()
      modifies this
      ensures Valid() && (Snapshot(), l) == LockFor(old(Snapshot()), key)
    {
      if key in locks {
        return locks[key];
      }
      l := |table|;
      table := table + [Lock(None, [])];
      locks := locks[key := l];
    }

    /** The purge: it collects the expired keys first, then drops them one by one. */
    method PurgeExpired(exclude: Key, now: real)
      requires Valid()
      modifies this`entries, this`locks
      ensures Valid() && Snapshot() == Purge(old(Snapshot()), exclude, now)
    {
      ghost var before := Snapshot();
      var expired := set k | k in entries && k != exclude && entries[k].expiresAt <= now;
      assert expired == Expired(before, exclude, now);
      var todo := expired;
      while todo != {}
        invariant todo <= expired
        invariant entries == before.entries - (expired - todo)
        invariant locks == before.locks - (Dropped(before, exclude, now) - todo)
        decreases todo
      {
        var k :| k in todo;
        entries := entries - {k};
        if k in locks && !table[locks[k]].Locked() {
          locks := locks - {k};
        }
        todo := todo - {k};
      }
      assert expired - todo == expired && Dropped(before, exclude, now) - todo == Dropped(before, exclude, now);
    }

    /** The token of an entry that is still live at `now`, handed to task `t`. */
    method ReadEntry(t: TaskId, key: Key, now: real) returns (served: Option<string>)
      requires Valid() && now == clock
      modifies this`tasks
      ensures served.Some? <==> Live(old(Snapshot()), key)
      ensures served.Some? ==>
        tasks == old(tasks)[t := Returned(key, served.value, Cached(now, entries[key].expiresAt))]
      ensures served.Some? ==> served.value == entries[key].value
      ensures served.None? ==> tasks == old(tasks)
    {
      if key !in entries || entries[key].expiresAt <= now {
        return None;
      }
      served := Some(entries[key].value);
      tasks := tasks[t := Returned(key, entries[key].value, Cached(now, entries[key].expiresAt))];
    }

    /** `get_or_fetch` until it first awaits: a cached value, the fetch, or a place in the queue. */
    method Start(t: TaskId, key: Key, now: real) returns (served: Option<string>)
      requires Valid() && t !in tasks && now == clock
      modifies this
      ensures Valid() && Snapshot() == Next(old(Snapshot()), Call(t, key))
      ensures tasks[t].Returned? <==> served.Some?
    {
      served := ReadEntry(t, key, now);
      if served.Some? {
        return;
      }
      var l := LockOf(key);
      if !table[l].Locked() && table[l].waiters == [] {
        table := table[l := Lock(Some(t), [])];
        served := EnterLocked(t, key, l, now);
      } else {
        table := table[l := table[l].(waiters := table[l].waiters + [t])];
        tasks := tasks[t := Waiting(key, l)];
      }
    }

    /** Under the lock the entry is read again before fetching. */
    method EnterLocked(t: TaskId, key: Key, l: LockId, now: real) returns (served: Option<string>)
      requires Wf(Snapshot().(tasks := tasks - {t})) && l < |table| && now == clock
      modifies this`tasks, this`table
      ensures Snapshot() == Enter(old(Snapshot()), t, key, l)
      ensures served.Some? <==> Live(old(Snapshot()), key)
    {
      if key !in entries || entries[key].expiresAt <= now {
        tasks := tasks[t := Fetching(key, l)];
        return None;
      }
      served := Some(entries[key].value);
      tasks := tasks[t := Returned(key, entries[key].value, Cached(now, entries[key].expiresAt))];
      table := table[l := table[l].(holder := None)];
    }

    /** A queued task takes the lock it was woken for. */
    method Wake(t: TaskId, key: Key, l: LockId, now: real) returns (served: Option<string>)
      requires Valid() && Enabled(Snapshot(), Resume(t)) && tasks[t] == Waiting(key, l) && now == clock
      modifies this`tasks, this`table
      ensures Valid() && Snapshot() == Next(old(Snapshot()), Resume(t))
    {
      table := table[l := Lock(Some(t), table[l].waiters[1..])];
      served := EnterLocked(t, key, l, now);
    }

    /** The fetch returned a token: store it, purge, release the lock. */
    method FetchReturned(t: TaskId, key: Key, l: LockId, token: string, ttl: real, storedAt: real, purgedAt: real)
      returns (served: string)
      requires Valid() && Enabled(Snapshot(), Store(t, token, ttl, storedAt, purgedAt)) && tasks[t] == Fetching(key, l)
      modifies this
      ensures Valid() && Snapshot() == Next(old(Snapshot()), Store(t, token, ttl, storedAt, purgedAt))
      ensures served == token
    {
      StoreEntry(t, key, token, ttl, storedAt, purgedAt);
      PurgeExpired(key, purgedAt);
      Unlock(l);
      served := token;
    }

    method StoreEntry(t: TaskId, key: Key, token: string, ttl: real, storedAt: real, purgedAt: real)
      requires Valid() && Enabled(Snapshot(), Store(t, token, ttl, storedAt, purgedAt)) && tasks[t].key == key
      modifies this`entries, this`tasks, this`clock, this`minted
      ensures Valid() && Snapshot() == Stored(old(Snapshot()), Store(t, token, ttl, storedAt, purgedAt))
    {
      entries := entries[key := Entry(token, storedAt + ttl)];
      minted := minted + [Minted(t, key, token, storedAt, ttl)];
      clock := purgedAt;
      tasks := tasks[t := Returned(key, token, Fresh)];
    }

    method Unlock(l: LockId)
      requires l < |table|
      modifies this`table
      ensures Snapshot() == Release(old(Snapshot()), l)
    {
      table := table[l := table[l].(holder := None)];
    }

    /** The fetch raised or was cancelled: nothing is stored or purged, and the lock is released. */
    method FetchRaised(t: TaskId, key: Key, l: LockId)
      requires Valid() && Enabled(Snapshot(), Fail(t)) && tasks[t] == Fetching(key, l)
      modifies this`tasks, this`table
      ensures Valid() && Snapshot() == Next(old(Snapshot()), Fail(t))
    {
      table := table[l := table[l].(holder := None)];
      tasks := tasks[t := Raised(key)];
    }
  }
}
