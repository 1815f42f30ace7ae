/** The JWKS cache: refreshes share one lock and start at most once per window. */
module Jwks {
  import opened Wrappers

  const WINDOW := 60.0

  datatype Jwk = Jwk(kid: Option<string>, material: string)

  /** How a refresh ends: a well-formed key list, an HTTP error, or any other exception (a
      malformed body, a cancellation), which escapes after the keys in `merged` were taken. */
  datatype Outcome = Fetched(list: seq<Jwk>) | HttpError | Escaped(merged: seq<Jwk>)

  datatype Ending = Pending | Orderly | Disorderly

  datatype Start = Start(at: real, ending: Ending)

  /** `last` is None for minus infinity; `refreshing` is the clock read by the lock's holder. */
  datatype State = State(keys: map<string, Jwk>, last: Option<real>,
    refreshing: Option<real>, clock: real, starts: seq<Start>)

  datatype Action = Begin | End(outcome: Outcome) | Tick(now: real)

  function Merge(keys: map<string, Jwk>, list: seq<Jwk>): map<string, Jwk>
    decreases |list|
  {
    if list == [] then keys
    else Merge(match list[0].kid case Some(kid) => keys[kid := list[0]] case None => keys, list[1..])
  }

  predicate Recent(last: Option<real>, now: real) {
    last.Some? && now - last.value < WINDOW
  }

  predicate Enabled(st: State, a: Action) {
    match a
    case Begin => st.refreshing.None?
    case End(_) => st.refreshing.Some? && st.starts != []
    case Tick(now) => st.clock <= now
  }

  function Ended(starts: seq<Start>, ending: Ending): seq<Start>
    requires starts != []
  {
    starts[..|starts| - 1] + [starts[|starts| - 1].(ending := ending)]
  }

  function Next(st: State, a: Action): State
    requires Enabled(st, a)
  {
    match a
    case Begin =>
      if Recent(st.last, st.clock) then st
      else st.(refreshing := Some(st.clock), starts := st.starts + [Start(st.clock, Pending)])
    case End(Fetched(list)) =>
      st.(keys := Merge(st.keys, list), last := st.refreshing, refreshing := None, starts := Ended(st.starts, Orderly))
    case End(HttpError) =>
      st.(last := st.refreshing, refreshing := None, starts := Ended(st.starts, Orderly))
    case End(Escaped(merged)) =>
      st.(keys := Merge(st.keys, merged), refreshing := None, starts := Ended(st.starts, Disorderly))
    case Tick(now) => st.(clock := now)
  }

  const Initial := State(map[], None, None, 0.0, [])

  predicate Runs(st: State, run: seq<Action>)
    decreases |run|
  {
    run == [] || (Enabled(st, run[0]) && Runs(Next(st, run[0]), run[1..]))
  }

  function After(st: State, run: seq<Action>): State
    requires Runs(st, run)
    decreases |run|
  {
    if run == [] then st else After(Next(st, run[0]), run[1..])
  }

  /** The last orderly refresh is the one remembered, and every start keeps its distance from the
      orderly ones before it. */
  ghost predicate Inv(st: State) {
    && (st.refreshing.Some? <==> st.starts != [] && st.starts[|st.starts| - 1].ending.Pending?)
    && (st.refreshing.Some? ==> st.starts[|st.starts| - 1].at == st.refreshing.value <= st.clock)
    && (forall i :: 0 <= i < |st.starts| - 1 ==> !st.starts[i].ending.Pending?)
    && (st.last.Some? ==>
      st.last.value <= st.clock && exists i :: 0 <= i < |st.starts| && st.starts[i] == Start(st.last.value, Orderly))
    && (forall i :: 0 <= i < |st.starts| && st.starts[i].ending.Orderly? ==>
      st.last.Some? && st.starts[i].at <= st.last.value)
    && Spaced(st.starts)
  }

  ghost predicate Spaced(starts: seq<Start>) {
    forall i, j :: 0 <= i < j < |starts| && starts[i].ending.Orderly? ==> starts[j].at - starts[i].at >= WINDOW
  }

  lemma EndInv(st: State, a: Action)
    requires Inv(st) && a.End? && Enabled(st, a)
    ensures Inv(Next(st, a))
  {
    var st' := Next(st, a);
    var n := |st.starts| - 1;
    assert forall i :: 0 <= i < n ==> st'.starts[i] == st.starts[i];
    assert st'.starts[n] == Start(st.refreshing.value, if a.outcome.Escaped? then Disorderly else Orderly);
    if a.outcome.Escaped? && st.last.Some? {
      var i :| 0 <= i < |st.starts| && st.starts[i] == Start(st.last.value, Orderly);
      assert i < n && st'.starts[i] == st.starts[i];
    }
  }

  lemma BeginInv(st: State)
    requires Inv(st) && Enabled(st, Begin)
    ensures Inv(Next(st, Begin))
  {
    var st' := Next(st, Begin);
    if !Recent(st.last, st.clock) {
      if st.last.Some? {
        var i :| 0 <= i < |st.starts| && st.starts[i] == Start(st.last.value, Orderly);
        assert st'.starts[i] == st.starts[i];
      }
      assert forall i :: 0 <= i < |st.starts| ==> st'.starts[i] == st.starts[i];
    }
  }

  lemma {:induction false} RunInv(st: State, run: seq<Action>)
    requires Inv(st) && Runs(st, run)
    ensures Inv(After(st, run))
    decreases |run|
  {
    if run != [] {
      match run[0] {
        case Begin => BeginInv(st);
        case End(_) => EndInv(st, run[0]);
        case Tick(_) =>
      }
      RunInv(Next(st, run[0]), run[1..]);
    }
  }

  /** In every run, no refresh starts within the window of an earlier one that ended in a key list
      or an HTTP error. */
  lemma RefreshesAreSpaced(run: seq<Action>)
    requires Runs(Initial, run)
    ensures Spaced(After(Initial, run).starts)
  {
    RunInv(Initial, run);
  }

  /** And only such refreshes hold one back: a caller that takes the lock starts a refresh exactly
      when no orderly one started within the window, so one whose body was malformed does not count. */
  lemma RefreshStartsExactly(run: seq<Action>)
    requires Runs(Initial, run) && Enabled(After(Initial, run), Begin)
    ensures var st := After(Initial, run);
      Next(st, Begin).refreshing.Some? <==>
        forall i :: 0 <= i < |st.starts| && st.starts[i].ending.Orderly? ==> st.clock - st.starts[i].at >= 60.0
  {
    RunInv(Initial, run);
    var st := After(Initial, run);
    if Recent(st.last, st.clock) {
      var i :| 0 <= i < |st.starts| && st.starts[i] == Start(st.last.value, Orderly);
      assert st.starts[i].ending.Orderly? && st.clock - st.starts[i].at < WINDOW;
    }
  }

  /** Sixty seconds later the next caller starts one in any case. */
  lemma WindowPasses(run: seq<Action>)
    requires Runs(Initial, run) && Enabled(After(Initial, run), Begin)
    ensures var st := After(Initial, run);
      Enabled(st, Tick(st.clock + 60.0)) && Enabled(Next(st, Tick(st.clock + 60.0)), Begin)
        && Next(Next(st, Tick(st.clock + 60.0)), Begin).refreshing == Some(st.clock + 60.0)
  {
    RunInv(Initial, run);
  }

  /** The last key of a list with that id. */
  function LastOf(list: seq<Jwk>, kid: string): Option<Jwk> {
    if list == [] then None
    else
      var later := LastOf(list[1..], kid);
      if later.None? && list[0].kid == Some(kid) then Some(list[0]) else later
  }

  lemma {:induction false} LastOfIsLast(list: seq<Jwk>, kid: string)
    ensures LastOf(list, kid).None? <==> forall i :: 0 <= i < |list| ==> list[i].kid != Some(kid)
    ensures LastOf(list, kid).Some? ==>
      exists i :: 0 <= i < |list| && list[i] == LastOf(list, kid).value && list[i].kid == Some(kid)
                  && forall j :: i < j < |list| ==> list[j].kid != Some(kid)
  {
    if list != [] {
      var rest := list[1..];
      LastOfIsLast(rest, kid);
      if LastOf(rest, kid).Some? {
        var i :| 0 <= i < |rest| && rest[i] == LastOf(rest, kid).value && rest[i].kid == Some(kid)
                 && forall j :: i < j < |rest| ==> rest[j].kid != Some(kid);
        assert list[i + 1] == rest[i];
        forall j | i + 1 < j < |list| ensures list[j].kid != Some(kid) { assert rest[j - 1] == list[j]; }
      } else {
        forall j | 0 < j < |list| ensures list[j].kid != Some(kid) { assert rest[j - 1] == list[j]; }
      }
    }
  }

  /** A malformed body lets the next caller refresh at once: two starts at the same clock. */
  lemma MalformedBodyExample()
    ensures var run := [Begin, End(Escaped([])), Begin];
      Runs(Initial, run) && After(Initial, run).starts == [Start(0.0, Disorderly), Start(0.0, Pending)]
  {
    var one := Next(Initial, Begin);
    var two := Next(one, End(Escaped([])));
    var three := Next(two, Begin);
    assert Initial.starts + [Start(0.0, Pending)] == [Start(0.0, Pending)];
    assert one.starts == [Start(0.0, Pending)] && two.starts == [Start(0.0, Disorderly)];
    assert After(three, []) == three && Runs(three, []);
    var run := [Begin, End(Escaped([])), Begin];
    assert run[1..] == [End(Escaped([])), Begin] && run[1..][1..] == [Begin] && [Begin][1..] == [];
    assert Runs(two, [Begin]) && After(two, [Begin]) == three;
    assert Runs(one, run[1..]) && After(one, run[1..]) == three;
  }

  /** After a merge an id has the last key of that id in the list, and otherwise the key it had. */
  lemma {:induction false} MergeExactly(keys: map<string, Jwk>, list: seq<Jwk>, kid: string)
    ensures (kid in Merge(keys, list) <==> kid in keys || LastOf(list, kid).Some?)
    ensures kid in Merge(keys, list) ==>
      Merge(keys, list)[kid] == if LastOf(list, kid).Some? then LastOf(list, kid).value else keys[kid]
    decreases |list|
  {
    if list != [] {
      var keys' := match list[0].kid case Some(k) => keys[k := list[0]] case None => keys;
      MergeExactly(keys', list[1..], kid);
    }
  }

  lemma MergeGrows(keys: map<string, Jwk>, list: seq<Jwk>)
    ensures keys.Keys <= Merge(keys, list).Keys
  {
    forall kid | kid in keys ensures kid in Merge(keys, list) { MergeExactly(keys, list, kid); }
  }

  ghost predicate LastAt(list: seq<Jwk>, kid: string, i: nat)
    requires i < |list|
  {
    list[i].kid == Some(kid) && forall j :: i < j < |list| ==> list[j].kid != Some(kid)
  }

  /** Once a list was fetched, or part of one taken, its last key of an id is known under that id;
      what it does not mention, and everything after an HTTP error, stays as it was. */
  lemma TakenKeysAreKnown(st: State, outcome: Outcome, kid: string)
    requires Enabled(st, End(outcome))
    ensures var keys := Next(st, End(outcome)).keys;
      var list := match outcome case Fetched(l) => l case Escaped(l) => l case HttpError => [];
      && (forall i | 0 <= i < |list| && LastAt(list, kid, i) :: kid in keys && keys[kid] == list[i])
      && ((forall i :: 0 <= i < |list| ==> list[i].kid != Some(kid)) ==>
            (kid in keys <==> kid in st.keys) && (kid in keys ==> keys[kid] == st.keys[kid]))
  {
    var list := match outcome case Fetched(l) => l case Escaped(l) => l case HttpError => [];
    MergeExactly(st.keys, list, kid);
    LastOfIsLast(list, kid);
  }

  /** A known key is never forgotten, however refreshes end. */
  lemma {:induction false} KeysAreKept(st: State, run: seq<Action>)
    requires Runs(st, run)
    ensures st.keys.Keys <= After(st, run).keys.Keys
    decreases |run|
  {
    if run != [] {
      match run[0] {
        case End(Fetched(list)) => MergeGrows(st.keys, list);
        case End(Escaped(merged)) => MergeGrows(st.keys, merged);
        case _ =>
      }
      KeysAreKept(Next(st, run[0]), run[1..]);
    }
  }

  class JwksCache {
    var keys: map<string, Jwk>
    var lastRefresh: Option<real>
    var refreshing: Option<real>
    ghost var clock: real
    ghost var starts: seq<Start>

    ghost function Snapshot(): State
      reads this
    {
      State(keys, lastRefresh, refreshing, clock, starts)
    }

    constructor ()
      ensures Snapshot() == Initial
    {
      keys, lastRefresh, refreshing, clock, starts := map[], None, None, 0.0, [];
    }

    /** `_maybe_refresh` once it has the lock, until the request is sent. */
    method BeginRefresh(now: real) returns (started: bool)
      requires Enabled(Snapshot(), Begin) && now == clock
      modifies this
      ensures Snapshot() == Next(old(Snapshot()), Begin) && started == refreshing.Some?
    {
      if lastRefresh.Some? && now - lastRefresh.value < WINDOW {
        return false;
      }
      refreshing := Some(now);
      starts := starts + [Start(now, Pending)];
      started := true;
    }

    /** The rest of `_maybe_refresh`, once the request has ended. */
    method EndRefresh(outcome: Outcome)
      requires Enabled(Snapshot(), End(outcome))
      modifies this
      ensures Snapshot() == Next(old(Snapshot()), End(outcome))
    {
      match outcome {
        case Fetched(list) => TakeKeys(list);
        case HttpError =>
        case Escaped(merged) => TakeKeys(merged);
      }
      if !outcome.Escaped? {
        lastRefresh := refreshing;
      }
      refreshing := None;
      starts := Ended(starts, if outcome.Escaped? then Disorderly else Orderly);
    }

    method TakeKeys(list: seq<Jwk>)
      modifies this`keys
      ensures keys == Merge(old(keys), list)
    {
      for i := 0 to |list|
        invariant Merge(keys, list[i..]) == Merge(old(keys), list)
      {
        if list[i].kid.Some? {
          keys := keys[list[i].kid.value := list[i]];
        }
      }
    }
  }
}
