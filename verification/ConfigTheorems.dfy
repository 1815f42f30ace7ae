/** Writing decisions and reading them back: what returns, what is reported, and what settles. */
module ConfigTheorems {
  import opened Wrappers
  import opened Operations
  import opened Ordering
  import opened ConfigFile
  import B = Bindings

  // ---- One operation

  /** The method is upper-case and no parameter has an empty wire name beside a non-empty name. */
  ghost predicate Canonical(b: B.Binding) {
    Upper(b.httpMethod) == b.httpMethod && forall p :: p in b.parameters ==> p.wireName != "" || p.arg == ""
  }

  ghost predicate CanonicalDecision(d: Decision) {
    d.operation.binding.Http? && Canonical(d.operation.binding.http)
  }

  ghost predicate TitleKept(op: Operation) {
    op.title != "" || op.description == ""
  }

  ghost predicate Writable(d: Decision) {
    d.exposed && d.operation.binding.Http?
  }

  function ReadBack(b: B.Binding): B.Binding {
    b.(httpMethod := Upper(b.httpMethod), parameters := ReadParameters(WriteParameters(b.parameters)))
  }

  /** A binding survives the file exactly when it is canonical. */
  lemma ReadBackExactly(b: B.Binding)
    ensures ReadBack(b) == b <==> Canonical(b)
  {
    var ps, back := b.parameters, ReadParameters(WriteParameters(b.parameters));
    if Canonical(b) {
      forall i | 0 <= i < |ps| ensures back[i] == ps[i] { assert ps[i] in ps; }
    }
    if ReadBack(b) == b {
      forall p | p in ps ensures p.wireName != "" || p.arg == "" {
        var i :| 0 <= i < |ps| && ps[i] == p;
        assert back[i] == p;
      }
    }
  }

  lemma {:induction false} UpperTwice(s: string)
    ensures Upper(Upper(s)) == Upper(s)
  {
    if s != "" {
      assert Upper(s)[1..] == Upper(s[1..]);
      UpperTwice(s[1..]);
    }
  }

  /** What was read is canonical, whatever was written. */
  lemma ReadingIsCanonical(e: Entry, policy: Requires)
    requires e.binding.HttpEntry? && EntryEffect(e).Some?
    ensures Writable(ReadEntry(e, policy)) && Canonical(ReadEntry(e, policy).operation.binding.http)
    ensures TitleKept(ReadEntry(e, policy).operation)
  {
    UpperTwice(e.binding.httpMethod);
  }

  lemma ReadsItsBinding(d: Decision, policy: Requires)
    requires Writable(d)
    ensures var back := ReadEntry(WriteEntry(d), policy);
      && back.operation.id == d.operation.id && back.operation.binding == Http(ReadBack(d.operation.binding.http))
      && back.effect == d.effect && back.sensitivity == d.sensitivity
  {}

  /** The file has no place for these. */
  ghost predicate Unburdened(op: Operation) {
    op.inputSchema == map[] && op.meta == map[]
  }

  /** Reading returns the decided operation exactly when its binding is canonical, its title is not
      lost to the description, and it carries no input schema and no metadata; writing it again gives
      the same entry exactly when the first two hold. */
  lemma RoundTripExactly(d: Decision, policy: Requires)
    requires Writable(d)
    ensures var back := ReadEntry(WriteEntry(d), policy);
      && (back.operation == d.operation.(effect := d.effect, sensitivity := d.sensitivity) <==>
            Canonical(d.operation.binding.http) && TitleKept(d.operation) && Unburdened(d.operation))
      && (WriteEntry(back) == WriteEntry(d) <==> Canonical(d.operation.binding.http) && TitleKept(d.operation))
  {
    var b := d.operation.binding.http;
    ReadBackExactly(b);
    var back := ReadEntry(WriteEntry(d), policy).operation.binding.http;
    assert back == ReadBack(b);
    if WriteEntry(ReadEntry(WriteEntry(d), policy)) == WriteEntry(d) {
      WrittenParametersTell(back.parameters, b.parameters);
    }
  }

  lemma WrittenParametersTell(a: seq<B.Parameter>, b: seq<B.Parameter>)
    requires WriteParameters(a) == WriteParameters(b)
    ensures a == b
  {
    assert |a| == |b|;
    forall i | 0 <= i < |a| ensures a[i] == b[i] {
      assert WriteParameters(a)[i] == WriteParameter(a[i]) && WriteParameters(b)[i] == WriteParameter(b[i]);
    }
  }

  // ---- What a hand-written entry leaves out

  /** Upper-casing changes each of the letters a to z to the capital 32 places before it. */
  lemma {:induction false} UpperAt(s: string, i: nat)
    requires i < |s|
    ensures |Upper(s)| == |s|
    ensures Upper(s)[i] as int == s[i] as int - if 97 <= s[i] as int <= 122 then 32 else 0
  {
    if |s| > 1 { UpperAt(s[1..], if i > 0 then i - 1 else 0); }
  }

  /** The effect follows from the method, however it is written: GET reads, PUT and DELETE may be
      repeated, POST and PATCH may not, and no other method has one. */
  lemma MethodDecides(e: Entry, policy: Requires)
    requires e.binding.HttpEntry? && e.effect.None?
    ensures var m := Upper(e.binding.httpMethod);
      && (EntryEffect(e).Some? <==> m in {"GET", "PUT", "DELETE", "POST", "PATCH"})
      && (EntryEffect(e).Some? ==> var d := ReadEntry(e, policy);
            && d.effect == d.operation.effect
            && (d.effect == ReadOnly <==> m == "GET")
            && (d.effect == IdempotentWrite <==> m == "PUT" || m == "DELETE")
            && (d.effect == Action <==> m == "POST" || m == "PATCH"))
  {}

  /** A missing name is empty, a missing or empty title is the description, a missing sensitivity is
      normal, and a missing or empty wire name is the argument's. */
  lemma LeftOutDefaults(e: Entry, policy: Requires, i: nat)
    requires e.binding.HttpEntry? && EntryEffect(e).Some? && i < |e.binding.parameters|
    ensures var d, p := ReadEntry(e, policy), e.binding.parameters[i];
      && d.exposed && (e.effect.Some? ==> d.effect == e.effect.value)
      && d.operation.name == (if e.name.Some? then e.name.value else "")
      && d.operation.title == (if e.title.None? || e.title.value == "" then e.description else e.title.value)
      && d.sensitivity == d.operation.sensitivity
      && d.sensitivity == (if e.sensitivity.Some? then e.sensitivity.value else Normal)
      && |d.operation.binding.http.parameters| == |e.binding.parameters|
      && d.operation.binding.http.parameters[i].wireName ==
           (if p.wireName.None? || p.wireName.value == "" then p.arg else p.wireName.value)
  {}

  /** The `k`-th entry is the last HTTP entry of its id. */
  ghost predicate LastHttp(es: seq<Entry>, k: nat)
    requires k < |es|
  {
    es[k].binding.HttpEntry? && forall j :: k < j < |es| && es[j].binding.HttpEntry? ==> es[j].id != es[k].id
  }

  ghost predicate EffectsKnown(es: seq<Entry>) {
    forall k :: 0 <= k < |es| && es[k].binding.HttpEntry? ==> EntryEffect(es[k]).Some?
  }

  ghost predicate HasLast(es: seq<Entry>, policy: Requires, decisions: map<string, Decision>)
    requires EffectsKnown(es)
  {
    forall k :: 0 <= k < |es| && LastHttp(es, k) ==>
      es[k].id in decisions && decisions[es[k].id] == ReadEntry(es[k], policy)
  }

  ghost predicate OnlyLast(es: seq<Entry>, decisions: map<string, Decision>) {
    forall id :: id in decisions ==> exists k :: 0 <= k < |es| && LastHttp(es, k) && es[k].id == id
  }

  lemma LastHttpSnoc(front: seq<Entry>, last: Entry, k: nat)
    requires k < |front|
    ensures LastHttp(front + [last], k) <==> LastHttp(front, k) && (last.binding.HttpEntry? ==> last.id != front[k].id)
  {
    var es := front + [last];
    assert es[k] == front[k] && es[|front|] == last;
    if LastHttp(es, k) {
      forall j | k < j < |front| && front[j].binding.HttpEntry? ensures front[j].id != front[k].id {
        assert es[j] == front[j];
      }
    }
  }

  lemma HasLastSnoc(front: seq<Entry>, last: Entry, policy: Requires, decisions: map<string, Decision>)
    requires EffectsKnown(front) && HasLast(front, policy, decisions)
    requires last.binding.HttpEntry? ==> EntryEffect(last).Some?
    ensures EffectsKnown(front + [last])
    ensures HasLast(front + [last], policy,
                    if last.binding.HttpEntry? then decisions[last.id := ReadEntry(last, policy)] else decisions)
  {
    var es, n := front + [last], |front|;
    assert es[n] == last && forall k :: 0 <= k < n ==> es[k] == front[k];
    forall k | 0 <= k < n && LastHttp(es, k) ensures LastHttp(front, k) {
      LastHttpSnoc(front, last, k);
    }
  }

  lemma OnlyLastSnoc(front: seq<Entry>, last: Entry, decisions: map<string, Decision>, now: map<string, Decision>)
    requires OnlyLast(front, decisions)
    requires forall id :: id in now ==> id in decisions || (last.binding.HttpEntry? && id == last.id)
    ensures OnlyLast(front + [last], now)
  {
    var es, n := front + [last], |front|;
    assert es[n] == last;
    assert last.binding.HttpEntry? ==> LastHttp(es, n);
    forall id | id in now && !(last.binding.HttpEntry? && id == last.id)
      ensures exists k :: 0 <= k < |es| && LastHttp(es, k) && es[k].id == id
    {
      var k :| 0 <= k < n && LastHttp(front, k) && front[k].id == id;
      LastHttpSnoc(front, last, k);
      assert LastHttp(es, k) && es[k].id == id;
    }
  }

  /** A file is read exactly when each HTTP entry has an effect; each id then has the decision of its last
      HTTP entry, and GraphQL entries are passed over. */
  lemma {:induction false} ReadsExactly(es: seq<Entry>, policy: Requires)
    ensures ReadAll(es, policy).Some? <==> EffectsKnown(es)
    ensures ReadAll(es, policy).Some? ==> HasLast(es, policy, ReadAll(es, policy).value)
    ensures ReadAll(es, policy).Some? ==> OnlyLast(es, ReadAll(es, policy).value)
  {
    if es != [] {
      var n, front := |es| - 1, es[..|es| - 1];
      ReadsExactly(front, policy);
      assert es == front + [es[n]];
      assert forall k :: 0 <= k < n ==> front[k] == es[k];
      if ReadAll(es, policy).Some? {
        HasLastSnoc(front, es[n], policy, ReadAll(front, policy).value);
        OnlyLastSnoc(front, es[n], ReadAll(front, policy).value, ReadAll(es, policy).value);
      }
    }
  }

  // ---- The whole file

  function Exposed(ds: seq<Decision>): seq<Decision> {
    if ds == [] then [] else (if ds[0].exposed then [ds[0]] else []) + Exposed(ds[1..])
  }

  ghost predicate AllWritable(ds: seq<Decision>) {
    forall i :: 0 <= i < |ds| ==> Writable(ds[i])
  }

  ghost function Entries(ds: seq<Decision>): (es: seq<Entry>)
    requires AllWritable(ds)
    ensures |es| == |ds| && forall i :: 0 <= i < |ds| ==> es[i] == WriteEntry(ds[i])
  {
    seq(|ds|, i requires 0 <= i < |ds| => WriteEntry(ds[i]))
  }

  lemma {:induction false} ExposedMembers(ds: seq<Decision>)
    ensures forall d :: d in Exposed(ds) <==> d in ds && d.exposed
  {
    if ds != [] {
      ExposedMembers(ds[1..]);
      assert ds == [ds[0]] + ds[1..];
    }
  }

  lemma AllWritableCons(d: Decision, rest: seq<Decision>)
    ensures AllWritable([d] + rest) <==> Writable(d) && AllWritable(rest)
  {
    var all := [d] + rest;
    if AllWritable(all) {
      assert Writable(all[0]);
      forall i | 0 <= i < |rest| ensures Writable(rest[i]) { assert rest[i] == all[i + 1]; }
    }
  }

  lemma EntriesCons(d: Decision, rest: seq<Decision>)
    requires AllWritable([d] + rest) && AllWritable(rest) && Writable(d)
    ensures Entries([d] + rest) == [WriteEntry(d)] + Entries(rest)
  {
    var all := [d] + rest;
    forall i | 0 <= i < |all| ensures Entries(all)[i] == ([WriteEntry(d)] + Entries(rest))[i] {
      if i > 0 { assert all[i] == rest[i - 1]; }
    }
  }

  lemma {:induction false} WritesTheExposed(ds: seq<Decision>)
    ensures WriteAll(ds).Ok? <==> AllWritable(Exposed(ds))
    ensures WriteAll(ds).Ok? ==> WriteAll(ds).value == Entries(Exposed(ds))
  {
    if ds != [] {
      var rest := Exposed(ds[1..]);
      WritesTheExposed(ds[1..]);
      if ds[0].exposed {
        assert Exposed(ds) == [ds[0]] + rest;
        AllWritableCons(ds[0], rest);
        if AllWritable([ds[0]] + rest) { EntriesCons(ds[0], rest); }
      } else {
        assert Exposed(ds) == rest;
      }
    }
  }

  lemma {:induction false} ExposedSorted(ds: seq<Decision>)
    requires Sorted(IdOf, ds)
    ensures Sorted(IdOf, Exposed(ds))
  {
    if ds != [] {
      var rest := Exposed(ds[1..]);
      assert Sorted(IdOf, ds[1..]);
      ExposedSorted(ds[1..]);
      forall j | 0 <= j < |rest| ensures Before(IdOf(ds[0]), IdOf(rest[j])) {
        var k := PlaceInTail(ds, rest[j]);
      }
    }
  }

  /** An exposed decision of the tail stands somewhere behind the first. */
  lemma PlaceInTail(ds: seq<Decision>, d: Decision) returns (k: nat)
    requires ds != [] && d in Exposed(ds[1..])
    ensures 0 < k < |ds| && ds[k] == d
  {
    ExposedMembers(ds[1..]);
    var i :| 0 <= i < |ds[1..]| && ds[1..][i] == d;
    k := i + 1;
  }

  /** No id is decided twice. */
  ghost predicate OncePerId(ds: seq<Decision>) {
    forall i, j :: 0 <= i < j < |ds| ==> IdOf(ds[i]) != IdOf(ds[j])
  }

  lemma OnceMeansDistinct(ds: seq<Decision>)
    requires OncePerId(ds)
    ensures DistinctKeys(IdOf, ds)
  {
    forall x, y | x in ds && y in ds && IdOf(x) == IdOf(y) ensures x == y {
      var i :| 0 <= i < |ds| && ds[i] == x;
      var j :| 0 <= j < |ds| && ds[j] == y;
      assert i == j;
    }
  }

  /** The exposed decisions in the order of the file. */
  ghost function Written(ds: seq<Decision>): seq<Decision> {
    Exposed(SortBy(IdOf, ds))
  }

  lemma WrittenIs(ds: seq<Decision>)
    ensures Render(ds).Ok? <==> AllWritable(Written(ds))
    ensures Render(ds).Ok? ==> Render(ds).value == Entries(Written(ds))
    ensures Sorted(IdOf, Written(ds)) && forall d :: d in Written(ds) <==> d in ds && d.exposed
  {
    var sorted := SortBy(IdOf, ds);
    SortKeeps(IdOf, ds);
    WritesTheExposed(sorted);
    ExposedMembers(sorted);
    ExposedSorted(sorted);
    forall d ensures d in sorted <==> d in ds { assert d in multiset(sorted) <==> d in multiset(ds); }
  }

  lemma {:induction false} ReadsKeys(xs: seq<Decision>, policy: Requires)
    requires AllWritable(xs)
    ensures var back := ReadAll(Entries(xs), policy);
      back.Some? && forall id :: id in back.value <==> exists k :: 0 <= k < |xs| && IdOf(xs[k]) == id
  {
    if xs != [] {
      var n := |xs| - 1;
      ReadsKeys(xs[..n], policy);
      assert Entries(xs)[..n] == Entries(xs[..n]) && Writable(xs[n]);
    }
  }

  lemma {:induction false} ReadsValue(xs: seq<Decision>, policy: Requires, k: nat)
    requires AllWritable(xs) && DistinctKeys(IdOf, xs) && k < |xs|
    ensures var back := ReadAll(Entries(xs), policy);
      back.Some? && IdOf(xs[k]) in back.value && back.value[IdOf(xs[k])] == ReadEntry(WriteEntry(xs[k]), policy)
  {
    var n := |xs| - 1;
    assert Entries(xs)[..n] == Entries(xs[..n]) && Writable(xs[n]);
    ReadsKeys(xs, policy);
    if IdOf(xs[k]) == IdOf(xs[n]) {
      assert xs[k] in xs && xs[n] in xs;
    } else {
      ReadsValue(xs[..n], policy, k);
    }
  }

  lemma ReadsEntries(xs: seq<Decision>, policy: Requires)
    requires AllWritable(xs) && DistinctKeys(IdOf, xs)
    ensures var back := ReadAll(Entries(xs), policy);
      && back.Some?
      && (forall d :: d in xs ==> IdOf(d) in back.value && back.value[IdOf(d)] == ReadEntry(WriteEntry(d), policy))
      && (forall id :: id in back.value ==> exists d :: d in xs && IdOf(d) == id)
  {
    ReadsKeys(xs, policy);
    forall d | d in xs
      ensures IdOf(d) in ReadAll(Entries(xs), policy).value
      ensures ReadAll(Entries(xs), policy).value[IdOf(d)] == ReadEntry(WriteEntry(d), policy)
    {
      var k :| 0 <= k < |xs| && xs[k] == d;
      ReadsValue(xs, policy, k);
    }
    forall id | id in ReadAll(Entries(xs), policy).value ensures exists d :: d in xs && IdOf(d) == id {
      var k :| 0 <= k < |xs| && IdOf(xs[k]) == id;
      assert xs[k] in xs;
    }
  }

  function OperationsOf(ds: seq<Decision>): (ops: seq<Operation>)
    ensures |ops| == |ds| && forall i :: 0 <= i < |ds| ==> ops[i] == ds[i].operation
  {
    seq(|ds|, i requires 0 <= i < |ds| => ds[i].operation)
  }

  lemma LastIdIsNew(ds: seq<Decision>, front: seq<Decision>, last: Decision)
    requires OncePerId(ds) && ds == front + [last]
    ensures OncePerId(front) && forall d :: d in front ==> IdOf(d) != IdOf(last)
  {
    assert forall i :: 0 <= i < |front| ==> ds[i] == front[i];
    forall d | d in front ensures IdOf(d) != IdOf(last) {
      var k :| 0 <= k < |front| && front[k] == d;
      assert ds[k] == d && ds[|front|] == last;
    }
  }

  lemma {:induction false} ByIdFinds(ds: seq<Decision>)
    requires OncePerId(ds)
    ensures forall id :: id in ById(OperationsOf(ds)) <==> exists d :: d in ds && IdOf(d) == id
    ensures forall d :: d in ds ==> IdOf(d) in ById(OperationsOf(ds)) && ById(OperationsOf(ds))[IdOf(d)] == d.operation
  {
    if ds != [] {
      var front, last := ds[..|ds| - 1], ds[|ds| - 1];
      LastIdIsNew(ds, front, last);
      ByIdFinds(front);
      assert OperationsOf(ds)[..|ds| - 1] == OperationsOf(front);
      assert ById(OperationsOf(ds)) == ById(OperationsOf(front))[IdOf(last) := last.operation];
      assert last in ds && forall d :: d in ds <==> d in front || d == last;
    }
  }

  /** After writing, the same import reports nothing removed; the declined are new, the exposed
      unchanged when their binding is canonical and changed otherwise. */
  lemma WriteReadDiff(ds: seq<Decision>, policy: Requires, r: Report)
    requires OncePerId(ds) && Render(ds).Ok? && ReadAll(Render(ds).value, policy).Some?
    requires ReportOf(r, ReadAll(Render(ds).value, policy).value, OperationsOf(ds))
    ensures r.removed == []
    ensures forall d :: d in ds ==>
      && (IdOf(d) in r.added <==> !d.exposed)
      && (IdOf(d) in r.same <==> d.exposed && CanonicalDecision(d))
      && (IdOf(d) in r.changed <==> d.exposed && !CanonicalDecision(d))
    ensures forall id :: id in r.added || id in r.same || id in r.changed ==> exists d :: d in ds && IdOf(d) == id
  {
    var xs := Written(ds);
    WrittenIs(ds);
    OnceMeansDistinct(ds);
    ReadsEntries(xs, policy);
    ByIdFinds(ds);
    var previous := ReadAll(Entries(xs), policy).value;
    forall id | id in previous ensures id in ById(OperationsOf(ds)) {
      var d :| d in xs && IdOf(d) == id;
      assert d in ds;
    }
    EmptyOrHas(r.removed);
    forall d | d in ds
      ensures IdOf(d) in previous <==> d.exposed
      ensures d.exposed ==>
        d.operation.binding.Http?
          && (previous[IdOf(d)].operation.binding == d.operation.binding <==> CanonicalDecision(d))
    {
      if IdOf(d) in previous {
        var x :| x in xs && IdOf(x) == IdOf(d);
        assert x in ds && x == d;
      }
      if d.exposed {
        assert d in xs;
        ReadsItsBinding(d, policy);
        ReadBackExactly(d.operation.binding.http);
      }
    }
  }

  /** Reading what was written never fails, and the comparison can be made. */
  lemma WrittenCanBeRead(ds: seq<Decision>, policy: Requires)
    requires OncePerId(ds) && Render(ds).Ok?
    ensures ReadAll(Render(ds).value, policy).Some?
      && Comparable(ReadAll(Render(ds).value, policy).value, OperationsOf(ds))
  {
    WrittenIs(ds);
    OnceMeansDistinct(ds);
    ReadsEntries(Written(ds), policy);
    ByIdFinds(ds);
    var previous := ReadAll(Render(ds).value, policy).value;
    forall id | id in previous && id in ById(OperationsOf(ds))
      ensures previous[id].operation.binding.Http? && ById(OperationsOf(ds))[id].binding.Http?
    {
      var x :| x in Written(ds) && IdOf(x) == id;
      assert x in ds;
      ReadsItsBinding(x, policy);
      var k :| 0 <= k < |Written(ds)| && Written(ds)[k] == x;
      assert Writable(Written(ds)[k]);
    }
  }

  // ---- Writing again what was read

  ghost function ReadDecisions(xs: seq<Decision>, policy: Requires): (ys: seq<Decision>)
    requires AllWritable(xs)
    ensures |ys| == |xs| && forall i :: 0 <= i < |xs| ==> ys[i] == ReadEntry(WriteEntry(xs[i]), policy)
  {
    seq(|xs|, i requires 0 <= i < |xs| => ReadEntry(WriteEntry(xs[i]), policy))
  }

  ghost predicate Stable(d: Decision) {
    Writable(d) && CanonicalDecision(d) && TitleKept(d.operation)
  }

  /** The decisions that a file of `ds` reads back as, in any order. */
  ghost predicate ReadFrom(again: seq<Decision>, ds: seq<Decision>, policy: Requires) {
    AllWritable(Written(ds)) && multiset(again) == multiset(ReadDecisions(Written(ds), policy))
  }

  lemma ReadDecisionsSorted(xs: seq<Decision>, policy: Requires)
    requires AllWritable(xs) && Sorted(IdOf, xs) && DistinctKeys(IdOf, xs)
    ensures var ys := ReadDecisions(xs, policy);
      && Sorted(IdOf, ys) && DistinctKeys(IdOf, ys) && AllWritable(ys)
      && forall i :: 0 <= i < |ys| ==> IdOf(ys[i]) == IdOf(xs[i])
  {
    var ys := ReadDecisions(xs, policy);
    forall i | 0 <= i < |ys| ensures IdOf(ys[i]) == IdOf(xs[i]) && Writable(ys[i]) {
      ReadsItsBinding(xs[i], policy);
      ReadingIsCanonical(WriteEntry(xs[i]), policy);
    }
    forall x, y | x in ys && y in ys && IdOf(x) == IdOf(y) ensures x == y {
      var i :| 0 <= i < |ys| && ys[i] == x;
      var j :| 0 <= j < |ys| && ys[j] == y;
      assert xs[i] in xs && xs[j] in xs;
    }
  }

  /** Rewriting puts the decisions read back in the order of the file. */
  lemma RewritesInOrder(ds: seq<Decision>, again: seq<Decision>, policy: Requires)
    requires OncePerId(ds) && ReadFrom(again, ds, policy)
    ensures Written(again) == ReadDecisions(Written(ds), policy) && Render(again).Ok?
    ensures Render(again).value == Entries(Written(again))
  {
    var xs, ys := Written(ds), ReadDecisions(Written(ds), policy);
    WrittenIs(ds);
    OnceMeansDistinct(ds);
    ReadDecisionsSorted(xs, policy);
    SortKeeps(IdOf, again);
    SortedUnique(IdOf, ys, SortBy(IdOf, again));
    AllExposed(ys);
    WrittenIs(again);
  }

  lemma {:induction false} AllExposed(ds: seq<Decision>)
    requires AllWritable(ds)
    ensures Exposed(ds) == ds
  {
    if ds != [] {
      assert Writable(ds[0]) && forall i :: 0 <= i < |ds[1..]| ==> ds[1..][i] == ds[i + 1];
      AllExposed(ds[1..]);
    }
  }

  /** The second file is the first exactly when every written decision is stable. */
  lemma RewriteExactly(ds: seq<Decision>, again: seq<Decision>, policy: Requires)
    requires OncePerId(ds) && ReadFrom(again, ds, policy)
    ensures Render(again) == Render(ds) <==> forall d :: d in ds && d.exposed ==> Stable(d)
  {
    var xs := Written(ds);
    WrittenIs(ds);
    RewritesInOrder(ds, again, policy);
    forall i | 0 <= i < |xs| ensures Entries(Written(again))[i] == Entries(xs)[i] <==> Stable(xs[i]) {
      RoundTripExactly(xs[i], policy);
    }
    if Render(again) == Render(ds) {
      forall d | d in ds && d.exposed ensures Stable(d) {
        assert d in xs;
        var i :| 0 <= i < |xs| && xs[i] == d;
        assert Entries(Written(again))[i] == Entries(xs)[i];
      }
    }
    if forall d :: d in ds && d.exposed ==> Stable(d) {
      forall i | 0 <= i < |xs| ensures Stable(xs[i]) { assert xs[i] in xs; }
      assert Entries(Written(again)) == Entries(xs);
    }
  }

  /** Whatever was decided, the file settles after one round: the third is the second. */
  lemma SettlesAfterOneRound(ds: seq<Decision>, again: seq<Decision>, third: seq<Decision>, policy: Requires)
    requires OncePerId(ds) && ReadFrom(again, ds, policy) && ReadFrom(third, again, policy)
    ensures Render(third) == Render(again)
  {
    var xs, ys := Written(ds), ReadDecisions(Written(ds), policy);
    forall d | d in again ensures Stable(d) {
      assert d in multiset(ys);
      var i :| 0 <= i < |ys| && ys[i] == d;
      ReadingIsCanonical(WriteEntry(xs[i]), policy);
    }
    OnceAgain(ds, again, policy);
    RewriteExactly(again, third, policy);
  }

  lemma OnceAgain(ds: seq<Decision>, again: seq<Decision>, policy: Requires)
    requires OncePerId(ds) && ReadFrom(again, ds, policy)
    ensures OncePerId(again)
  {
    var xs, ys := Written(ds), ReadDecisions(Written(ds), policy);
    WrittenOnce(ds);
    WrittenIs(ds);
    OnceMeansDistinct(ds);
    ReadDecisionsSorted(xs, policy);
    forall i, j | 0 <= i < j < |again| ensures IdOf(again[i]) != IdOf(again[j]) {
      assert again[i] in multiset(ys) && again[j] in multiset(ys);
      TwiceMeansRepeated(again, again[i]);
      TwiceMeansRepeated(ys, again[i]);
    }
  }

  lemma WrittenOnce(ds: seq<Decision>)
    requires OncePerId(ds)
    ensures OncePerId(Written(ds))
  {
    var sorted := SortBy(IdOf, ds);
    SortKeeps(IdOf, ds);
    OnceMeansDistinct(ds);
    forall i, j | 0 <= i < j < |sorted| ensures IdOf(sorted[i]) != IdOf(sorted[j]) {
      assert sorted[i] in multiset(ds) && sorted[j] in multiset(ds);
      TwiceMeansRepeated(sorted, sorted[i]);
      TwiceMeansRepeated(ds, sorted[i]);
    }
    ExposedOnce(sorted);
  }

  lemma {:induction false} ExposedOnce(ds: seq<Decision>)
    requires OncePerId(ds)
    ensures OncePerId(Exposed(ds))
  {
    if ds != [] {
      var rest := Exposed(ds[1..]);
      assert OncePerId(ds[1..]);
      ExposedOnce(ds[1..]);
      forall j | 0 <= j < |rest| ensures IdOf(ds[0]) != IdOf(rest[j]) {
        var k := PlaceInTail(ds, rest[j]);
      }
    }
  }
}
