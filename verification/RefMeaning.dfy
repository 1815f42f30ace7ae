/** What the resolved document is: the plain expansion of the input, and free of `$ref`. */
module RefMeaning {
  import opened Wrappers
  import opened Documents
  import opened Refs
  import opened RefGraph
  import opened RefTheorems

  datatype Expansion<+T> = OutOfFuel | Done(r: Result<T, RefError>)

  /** The reference definition: expand every reference from scratch, with no cache and no
      chain, giving up after `fuel` nested expansions. */
  function Expand(s: Setup, node: Node, doc: DocId, fuel: nat): Expansion<Node>
    requires s.Valid() && doc in s.contents
    decreases fuel, 1, node, 1
  {
    match RefText(node)
    case Some(ref) => ExpandRef(s, Key(doc, ref), fuel)
    case None =>
      match node
      case Mapping(_, values) => Rebuilt(node, ExpandAll(s, values, doc, fuel))
      case List(items) => Rebuilt(node, ExpandAll(s, items, doc, fuel))
      case _ => Done(Ok(node))
  }

  function Rebuilt(node: Node, e: Expansion<seq<Node>>): Expansion<Node> {
    match e
    case OutOfFuel => OutOfFuel
    case Done(r) => Done(Rewrap(node, r))
  }

  function ExpandAll(s: Setup, nodes: seq<Node>, doc: DocId, fuel: nat): Expansion<seq<Node>>
    requires s.Valid() && doc in s.contents
    decreases fuel, 1, nodes, 0
  {
    if nodes == [] then Done(Ok([]))
    else
      match Expand(s, nodes[0], doc, fuel)
      case OutOfFuel => OutOfFuel
      case Done(Err(e)) => Done(Err(e))
      case Done(Ok(first)) =>
        match ExpandAll(s, nodes[1..], doc, fuel)
        case OutOfFuel => OutOfFuel
        case Done(Err(e)) => Done(Err(e))
        case Done(Ok(rest)) => Done(Ok([first] + rest))
  }

  function ExpandRef(s: Setup, key: Key, fuel: nat): Expansion<Node>
    requires s.Valid() && key.doc in s.contents
    decreases fuel, 0
  {
    if fuel == 0 then OutOfFuel
    else
      match Locate(s, key)
      case Err(e) => Done(Err(e))
      case Ok(to) => Expand(s, to.node, to.doc, fuel - 1)
  }

  lemma {:induction false} MoreFuel(s: Setup, node: Node, doc: DocId, f: nat, g: nat)
    requires s.Valid() && doc in s.contents && f <= g && Expand(s, node, doc, f).Done?
    ensures Expand(s, node, doc, g) == Expand(s, node, doc, f)
    decreases f, node, 1
  {
    match RefText(node)
    case None =>
      match node {
        case Mapping(_, values) => MoreFuelAll(s, values, doc, f, g);
        case List(items) => MoreFuelAll(s, items, doc, f, g);
        case _ =>
      }
    case Some(ref) =>
      if Locate(s, Key(doc, ref)).Ok? {
        var to := Locate(s, Key(doc, ref)).value;
        MoreFuel(s, to.node, to.doc, f - 1, g - 1);
      }
  }

  lemma {:induction false} MoreFuelAll(s: Setup, nodes: seq<Node>, doc: DocId, f: nat, g: nat)
    requires s.Valid() && doc in s.contents && f <= g && ExpandAll(s, nodes, doc, f).Done?
    ensures ExpandAll(s, nodes, doc, g) == ExpandAll(s, nodes, doc, f)
    decreases f, nodes, 0
  {
    if nodes != [] {
      MoreFuel(s, nodes[0], doc, f, g);
      if Expand(s, nodes[0], doc, f).r.Ok? {
        MoreFuelAll(s, nodes[1..], doc, f, g);
      }
    }
  }

  // ---- Without a warning, the memoised result is the plain expansion.

  /** The i-th finished reference expands to its cached value with fuel `i`. */
  ghost predicate CacheIsPlain(s: Setup, st: State)
    requires s.Valid()
  {
    forall i :: 0 <= i < |st.order| ==> PlainAt(s, st.order[i], i, st)
  }

  ghost predicate PlainAt(s: Setup, k: Key, i: nat, st: State)
    requires s.Valid()
  {
    k.doc in s.contents && k in st.cache && ExpandRef(s, k, i + 1) == Done(Ok(st.cache[k]))
  }

  ghost predicate ExpandsTo(s: Setup, node: Node, doc: DocId, fuel: nat, r: Result<Node, RefError>)
    requires s.Valid() && doc in s.contents
  {
    Expand(s, node, doc, fuel) == Done(r)
  }

  lemma {:induction false} WalkPlain(s: Setup, node: Node, chain: seq<Key>, doc: DocId, st: State, fuel: nat)
    requires InScope(s, doc, AllRefs(node), chain) && Ledger(st, chain) && CacheIsPlain(s, st)
    requires Walk(s, node, chain, doc, st).1.warnings == []
    ensures Walk(s, node, chain, doc, st).0.Ok? ==> CacheIsPlain(s, Walk(s, node, chain, doc, st).1)
    ensures fuel >= |Walk(s, node, chain, doc, st).1.expanded| - |chain| ==>
      ExpandsTo(s, node, doc, fuel, Walk(s, node, chain, doc, st).0)
    decreases Budget(s, chain), 1, node, 1
  {
    match RefText(node)
    case None =>
      match node {
        case Mapping(_, values) => WalkAllPlain(s, values, chain, doc, st, fuel);
        case List(items) => WalkAllPlain(s, items, chain, doc, st, fuel);
        case _ =>
      }
    case Some(ref) => ResolvePlain(s, ref, chain, doc, st, fuel);
  }

  lemma {:induction false} WalkAllPlain(s: Setup, nodes: seq<Node>, chain: seq<Key>, doc: DocId, st: State, fuel: nat)
    requires InScope(s, doc, AllRefsIn(nodes), chain) && Ledger(st, chain) && CacheIsPlain(s, st)
    requires WalkAll(s, nodes, chain, doc, st).1.warnings == []
    ensures var (r, st') := WalkAll(s, nodes, chain, doc, st);
      && (r.Ok? ==> CacheIsPlain(s, st'))
      && (fuel >= |st'.expanded| - |chain| ==> ExpandAll(s, nodes, doc, fuel) == Done(r))
    decreases Budget(s, chain), 1, nodes, 0
  {
    if nodes != [] {
      WalkLedger(s, nodes[0], chain, doc, st);
      var (r, st1) := Walk(s, nodes[0], chain, doc, st);
      if r.Ok? {
        WalkAllLedger(s, nodes[1..], chain, doc, st1);
        WalkPlain(s, nodes[0], chain, doc, st, fuel);
        WalkAllPlain(s, nodes[1..], chain, doc, st1, fuel);
      } else {
        WalkPlain(s, nodes[0], chain, doc, st, fuel);
      }
    }
  }

  lemma {:induction false} ResolvePlain(s: Setup, ref: string, chain: seq<Key>, doc: DocId, st: State, fuel: nat)
    requires InScope(s, doc, {ref}, chain) && Ledger(st, chain) && CacheIsPlain(s, st)
    requires ResolveRef(s, ref, chain, doc, st).1.warnings == []
    ensures var (r, st') := ResolveRef(s, ref, chain, doc, st);
      && (r.Ok? ==> CacheIsPlain(s, st'))
      && (fuel >= |st'.expanded| - |chain| ==> ExpandRef(s, Key(doc, ref), fuel) == Done(r))
    decreases Budget(s, chain), 0, 2
  {
    var key := Key(doc, ref);
    assert key !in chain;
    if key in st.cache {
      CachedIsPlain(s, key, st, fuel);
    } else if Locate(s, key).Ok? {
      OpenPlain(s, key, chain, st);
      FreshPlain(s, key, chain, Open(s, key, st), fuel);
    }
  }

  lemma {:induction false} FreshPlain(s: Setup, key: Key, chain: seq<Key>, st0: State, fuel: nat)
    requires InScope(s, key.doc, {key.ref}, chain) && key !in chain && Locate(s, key).Ok?
    requires InScope(s, Locate(s, key).value.doc, AllRefs(Locate(s, key).value.node), chain + [key])
    requires Ledger(st0, chain + [key]) && CacheIsPlain(s, st0)
    requires var to := Locate(s, key).value; Walk(s, to.node, chain + [key], to.doc, st0).1.warnings == []
    ensures var to := Locate(s, key).value; var (r, st1) := Walk(s, to.node, chain + [key], to.doc, st0);
      && (r.Ok? ==> CacheIsPlain(s, Close(key, r, st1)))
      && (fuel >= |st1.expanded| - |chain| ==> ExpandRef(s, key, fuel) == Done(r))
    decreases Budget(s, chain), 0, 1
  {
    var to := Locate(s, key).value;
    var (r, st1) := Walk(s, to.node, chain + [key], to.doc, st0);
    FreshCount(s, to, key, chain, st0);
    if fuel >= |st1.expanded| - |chain| {
      TargetPlain(s, key, to, chain, st0, fuel - 1);
      assert ExpandsTo(s, to.node, to.doc, fuel - 1, r);
    }
    if r.Ok? {
      TargetPlain(s, key, to, chain, st0, |st1.order|);
      assert ExpandsTo(s, to.node, to.doc, |st1.order|, r);
      ClosePlain(s, key, r.value, st1);
    }
  }

  lemma {:induction false} TargetPlain(s: Setup, key: Key, to: Located, chain: seq<Key>, st0: State, fuel: nat)
    requires InScope(s, to.doc, AllRefs(to.node), chain + [key]) && key in Universe(s) && key !in chain
    requires Ledger(st0, chain + [key]) && CacheIsPlain(s, st0)
    requires Walk(s, to.node, chain + [key], to.doc, st0).1.warnings == []
    ensures var (r, st1) := Walk(s, to.node, chain + [key], to.doc, st0);
      && (r.Ok? ==> CacheIsPlain(s, st1))
      && (fuel >= |st1.expanded| - |chain| - 1 ==> ExpandsTo(s, to.node, to.doc, fuel, r))
    decreases Budget(s, chain), 0, 0
  {
    BudgetDrops(s, chain, key);
    assert |chain + [key]| == |chain| + 1;
    WalkPlain(s, to.node, chain + [key], to.doc, st0, fuel);
  }

  lemma FreshCount(s: Setup, to: Located, key: Key, chain: seq<Key>, st0: State)
    requires InScope(s, to.doc, AllRefs(to.node), chain + [key]) && Ledger(st0, chain + [key])
    ensures var (r, st1) := Walk(s, to.node, chain + [key], to.doc, st0);
      |st1.expanded| > |chain| &&
      (r.Ok? ==> key !in st1.order && |st1.order| == |st1.expanded| - |chain| - 1)
  {
    assert key in chain + [key] && |chain + [key]| == |chain| + 1;
    WalkLedger(s, to.node, chain + [key], to.doc, st0);
  }

  lemma OpenPlain(s: Setup, key: Key, chain: seq<Key>, st: State)
    requires s.Valid() && CacheIsPlain(s, st) && Ledger(st, chain) && key.doc in s.contents && Locate(s, key).Ok?
    requires key !in chain && key !in st.cache
    ensures CacheIsPlain(s, Open(s, key, st)) && Ledger(Open(s, key, st), chain + [key])
  {
    OpenLedger(s, key, chain, st);
    var st0 := Open(s, key, st);
    forall i | 0 <= i < |st0.order| ensures PlainAt(s, st0.order[i], i, st0) {
      assert PlainAt(s, st.order[i], i, st);
    }
  }

  lemma CachedIsPlain(s: Setup, key: Key, st: State, fuel: nat)
    requires s.Valid() && key.doc in s.contents && CacheIsPlain(s, st) && key in st.order
    ensures key in st.cache && (fuel >= |st.order| ==> ExpandRef(s, key, fuel) == Done(Ok(st.cache[key])))
  {
    var i :| 0 <= i < |st.order| && st.order[i] == key;
    assert PlainAt(s, st.order[i], i, st);
    if fuel >= |st.order| {
      var to := Locate(s, key).value;
      MoreFuel(s, to.node, to.doc, i, fuel - 1);
    }
  }

  lemma ClosePlain(s: Setup, key: Key, v: Node, st: State)
    requires s.Valid() && key.doc in s.contents && CacheIsPlain(s, st) && key !in st.order
    requires ExpandRef(s, key, |st.order| + 1) == Done(Ok(v))
    ensures CacheIsPlain(s, Close(key, Ok(v), st))
  {
    var st' := Close(key, Ok(v), st);
    forall i | 0 <= i < |st'.order| ensures PlainAt(s, st'.order[i], i, st') {
      if i < |st.order| { assert PlainAt(s, st.order[i], i, st); }
    }
  }

  /** Over an acyclic graph, memoisation and cycle cutting are invisible: the run ends exactly
      as the plain expansion does, failures included, whatever fuel that is given beyond the
      number of references expanded. */
  lemma AcyclicRunIsPlain(s: Setup, fuel: nat)
    requires s.Valid() && Acyclic(s) && fuel >= |Resolve(s).1.expanded|
    ensures Expand(s, s.contents[s.entry], s.entry, fuel) == Done(Resolve(s).0)
  {
    InitialSettled(s);
    AcyclicIsSilent(s);
    WalkPlain(s, s.contents[s.entry], [], s.entry, Initial, fuel);
    assert ExpandsTo(s, s.contents[s.entry], s.entry, fuel, Resolve(s).0);
  }

  // ---- Over a cyclic graph, the plain expansion never ends.

  /** Once all that is met is finished, the plain expansion meets no broken reference. */
  lemma {:induction false} NeverFails(s: Setup, st: State, node: Node, doc: DocId, fuel: nat)
    requires s.Valid() && doc in s.contents && Closed(s, st, []) && Finished(st, doc, Visible(node))
    ensures var e := Expand(s, node, doc, fuel); e.Done? ==> e.r.Ok?
    decreases fuel, node, 1
  {
    match RefText(node)
    case None =>
      match node {
        case Mapping(_, values) => NeverFailsAll(s, st, values, doc, fuel);
        case List(items) => NeverFailsAll(s, st, items, doc, fuel);
        case _ =>
      }
    case Some(ref) =>
      var key := Key(doc, ref);
      if fuel > 0 {
        var to := Locate(s, key).value;
        forall r | r in Visible(to.node) ensures Key(to.doc, r) in st.order {
          assert Edge(s, key, Key(to.doc, r));
        }
        NeverFails(s, st, to.node, to.doc, fuel - 1);
      }
  }

  lemma {:induction false} NeverFailsAll(s: Setup, st: State, nodes: seq<Node>, doc: DocId, fuel: nat)
    requires s.Valid() && doc in s.contents && Closed(s, st, []) && Finished(st, doc, VisibleIn(nodes))
    ensures var e := ExpandAll(s, nodes, doc, fuel); e.Done? ==> e.r.Ok?
    decreases fuel, nodes, 0
  {
    if nodes != [] {
      NeverFails(s, st, nodes[0], doc, fuel);
      NeverFailsAll(s, st, nodes[1..], doc, fuel);
    }
  }

  ghost predicate Ends(s: Setup, node: Node, doc: DocId, fuel: nat)
    requires s.Valid() && doc in s.contents
  {
    Expand(s, node, doc, fuel).Done? && Expand(s, node, doc, fuel).r.Ok?
  }

  ghost predicate RefEnds(s: Setup, key: Key, fuel: nat)
    requires s.Valid()
  {
    key.doc in s.contents && ExpandRef(s, key, fuel).Done? && ExpandRef(s, key, fuel).r.Ok?
  }

  /** An expansion that ends has expanded everything it meets. */
  lemma {:induction false} EndsInside(s: Setup, node: Node, doc: DocId, fuel: nat, ref: string)
    requires s.Valid() && doc in s.contents && ref in Visible(node) && Ends(s, node, doc, fuel)
    ensures RefEnds(s, Key(doc, ref), fuel)
    decreases fuel, node, 1
  {
    if RefText(node).None? {
      match node {
        case Mapping(_, values) => EndsInsideAll(s, values, doc, fuel, ref);
        case List(items) => EndsInsideAll(s, items, doc, fuel, ref);
        case _ =>
      }
    }
  }

  lemma {:induction false} EndsInsideAll(s: Setup, nodes: seq<Node>, doc: DocId, fuel: nat, ref: string)
    requires s.Valid() && doc in s.contents && ref in VisibleIn(nodes)
    requires ExpandAll(s, nodes, doc, fuel).Done? && ExpandAll(s, nodes, doc, fuel).r.Ok?
    ensures RefEnds(s, Key(doc, ref), fuel)
    decreases fuel, nodes, 0
  {
    if ref in Visible(nodes[0]) {
      EndsInside(s, nodes[0], doc, fuel, ref);
    } else {
      EndsInsideAll(s, nodes[1..], doc, fuel, ref);
    }
  }

  /** Every step along a walk costs one unit of fuel. */
  lemma {:induction false} FuelAlong(s: Setup, p: seq<Key>, fuel: nat)
    requires s.Valid() && |p| > 0 && Linked(s, p) && RefEnds(s, p[0], fuel)
    ensures fuel >= |p| && RefEnds(s, p[|p| - 1], fuel - (|p| - 1))
  {
    if |p| > 1 {
      assert Edge(s, p[0], p[1]) && p[1] == Key(p[1].doc, p[1].ref);
      var to := Locate(s, p[0]).value;
      EndsInside(s, to.node, to.doc, fuel - 1, p[1].ref);
      var q := p[1..];
      forall i | 0 <= i < |q| - 1 ensures Edge(s, q[i], q[i + 1]) {
        assert Edge(s, p[i + 1], p[i + 2]);
      }
      FuelAlong(s, q, fuel - 1);
    }
  }

  /** So a reference on a cycle never ends: going round once more would need less fuel. */
  lemma {:induction false} LoopNeverEnds(s: Setup, loop: seq<Key>, fuel: nat)
    requires s.Valid() && |loop| > 1 && Linked(s, loop) && loop[0] == loop[|loop| - 1]
    ensures !RefEnds(s, loop[0], fuel)
    decreases fuel
  {
    if RefEnds(s, loop[0], fuel) {
      FuelAlong(s, loop, fuel);
      LoopNeverEnds(s, loop, fuel - (|loop| - 1));
    }
  }

  lemma LinkedSlice(s: Setup, p: seq<Key>, i: nat, j: nat)
    requires s.Valid() && Linked(s, p) && i <= j <= |p|
    ensures Linked(s, p[i..j])
  {
    forall k | 0 <= k < j - i - 1 ensures Edge(s, p[i..j][k], p[i..j][k + 1]) {
      assert Edge(s, p[i + k], p[i + k + 1]);
    }
  }

  lemma CycleNeverEnds(s: Setup, p: seq<Key>, i: nat, j: nat, fuel: nat)
    requires s.Valid() && RefPath(s, p) && i < j < |p| && p[i] == p[j]
    ensures !Ends(s, s.contents[s.entry], s.entry, fuel)
  {
    if Ends(s, s.contents[s.entry], s.entry, fuel) {
      assert p[0] == Key(s.entry, p[0].ref);
      EndsInside(s, s.contents[s.entry], s.entry, fuel, p[0].ref);
      LinkedSlice(s, p, 0, i + 1);
      FuelAlong(s, p[0..i + 1], fuel);
      LinkedSlice(s, p, i, j + 1);
      LoopNeverEnds(s, p[i..j + 1], fuel - i);
    }
  }

  /** When a run succeeds, its warnings are empty exactly when plain expansion ends, and then
      the two agree: cycle cutting changes the meaning of no document that has one. */
  lemma ResolvesExactly(s: Setup, fuel: nat)
    requires s.Valid() && Resolve(s).0.Ok? && fuel >= |Resolve(s).1.expanded|
    ensures Expand(s, s.contents[s.entry], s.entry, fuel) ==
      if Resolve(s).1.warnings == [] then Done(Resolve(s).0) else OutOfFuel
  {
    WarnsExactlyOnCycles(s);
    if Acyclic(s) {
      AcyclicRunIsPlain(s, fuel);
    } else {
      var root := s.contents[s.entry];
      InitialSettled(s);
      WalkSettled(s, root, [], s.entry, Initial);
      WalkLedger(s, root, [], s.entry, Initial);
      NeverFails(s, Resolve(s).1, root, s.entry, fuel);
      var p: seq<Key> :| RefPath(s, p) && !NoDup(p);
      var i, j :| 0 <= i < j < |p| && p[i] == p[j];
      CycleNeverEnds(s, p, i, j, fuel);
    }
  }

  // ---- What is left of `$ref` in the output.

  /** A mapping with a `$ref` key, anywhere. */
  predicate HasRef(node: Node)
    decreases node, 1
  {
    match node
    case Mapping(keys, values) => "$ref" in keys || AnyHasRef(values)
    case List(items) => AnyHasRef(items)
    case _ => false
  }

  predicate AnyHasRef(nodes: seq<Node>)
    decreases nodes, 0
  {
    nodes != [] && (HasRef(nodes[0]) || AnyHasRef(nodes[1..]))
  }

  /** A mapping whose `$ref` is not a string, among the nodes a walk passes through. */
  predicate Stray(node: Node)
    decreases node, 1
  {
    RefText(node).None? &&
    match node
    case Mapping(keys, values) => "$ref" in keys || AnyStray(values)
    case List(items) => AnyStray(items)
    case _ => false
  }

  predicate AnyStray(nodes: seq<Node>)
    decreases nodes, 0
  {
    nodes != [] && (Stray(nodes[0]) || AnyStray(nodes[1..]))
  }

  ghost predicate StrayTarget(s: Setup, k: Key)
    requires s.Valid()
  {
    k.doc in s.contents && Locate(s, k).Ok? && Stray(Locate(s, k).value.node)
  }

  ghost predicate AnyStrayTarget(s: Setup, keys: seq<Key>)
    requires s.Valid()
  {
    exists k :: k in keys && StrayTarget(s, k)
  }

  /** A cached result with a `$ref` has a cause among the expanded references. */
  ghost predicate Explained(s: Setup, st: State)
    requires s.Valid()
  {
    forall k :: k in st.cache && HasRef(st.cache[k]) ==> AnyStrayTarget(s, st.expanded)
  }

  /** A `$ref` in a result comes from a stray one, and a stray one met while producing a result
      shows up in it. */
  ghost predicate Accounted(s: Setup, met: bool, has: bool, st: State, st': State)
    requires s.Valid()
  {
    && Explained(s, st') && st.expanded <= st'.expanded
    && (has ==> met || AnyStrayTarget(s, st'.expanded))
    && (met || AnyStrayTarget(s, st'.expanded[|st.expanded|..]) ==> has)
  }

  lemma {:induction false} WalkAccounted(s: Setup, node: Node, chain: seq<Key>, doc: DocId, st: State)
    requires InScope(s, doc, AllRefs(node), chain) && Explained(s, st)
    ensures var (r, st') := Walk(s, node, chain, doc, st);
      r.Ok? ==> Accounted(s, Stray(node), HasRef(r.value), st, st')
    decreases Budget(s, chain), 1, node, 1
  {
    match RefText(node)
    case None =>
      match node {
        case Mapping(_, values) => WalkAllAccounted(s, values, chain, doc, st);
        case List(items) => WalkAllAccounted(s, items, chain, doc, st);
        case _ =>
      }
    case Some(ref) => ResolveAccounted(s, ref, chain, doc, st);
  }

  lemma {:induction false} WalkAllAccounted(s: Setup, nodes: seq<Node>, chain: seq<Key>, doc: DocId, st: State)
    requires InScope(s, doc, AllRefsIn(nodes), chain) && Explained(s, st)
    ensures var (r, st') := WalkAll(s, nodes, chain, doc, st);
      r.Ok? ==> Accounted(s, AnyStray(nodes), AnyHasRef(r.value), st, st')
    decreases Budget(s, chain), 1, nodes, 0
  {
    if nodes != [] {
      WalkAccounted(s, nodes[0], chain, doc, st);
      var (r1, st1) := Walk(s, nodes[0], chain, doc, st);
      if r1.Ok? {
        WalkAllAccounted(s, nodes[1..], chain, doc, st1);
        var (r2, st2) := WalkAll(s, nodes[1..], chain, doc, st1);
        if r2.Ok? {
          assert ([r1.value] + r2.value)[1..] == r2.value;
          var n, m := |st.expanded|, |st1.expanded|;
          assert st2.expanded[n..] == st1.expanded[n..] + st2.expanded[m..];
          assert forall k :: k in st1.expanded ==> k in st2.expanded;
        }
      }
    }
  }

  lemma {:induction false} ResolveAccounted(s: Setup, ref: string, chain: seq<Key>, doc: DocId, st: State)
    requires InScope(s, doc, {ref}, chain) && Explained(s, st)
    ensures var (r, st') := ResolveRef(s, ref, chain, doc, st);
      r.Ok? ==> Accounted(s, false, HasRef(r.value), st, st')
    decreases Budget(s, chain), 0
  {
    var key := Key(doc, ref);
    if key !in chain && key !in st.cache && Locate(s, key).Ok? {
      var to := Locate(s, key).value;
      var st0 := Open(s, key, st);
      BudgetDrops(s, chain, key);
      OpenExplained(s, key, st);
      WalkAccounted(s, to.node, chain + [key], to.doc, st0);
      var (r, st1) := Walk(s, to.node, chain + [key], to.doc, st0);
      assert ResolveRef(s, ref, chain, doc, st) == (r, Close(key, r, st1));
      if r.Ok? {
        CloseAccounted(s, key, r.value, st, st1);
      }
    }
  }

  lemma OpenExpands(s: Setup, key: Key, st: State)
    requires s.Valid()
    ensures Open(s, key, st).expanded == st.expanded + [key]
  {}

  lemma OpenExplained(s: Setup, key: Key, st: State)
    requires s.Valid() && Explained(s, st)
    ensures Explained(s, Open(s, key, st)) && Open(s, key, st).expanded == st.expanded + [key]
  {
    assert forall k :: k in st.expanded ==> k in st.expanded + [key];
  }

  lemma CloseAccounted(s: Setup, key: Key, v: Node, st: State, st1: State)
    requires s.Valid() && key.doc in s.contents && Locate(s, key).Ok?
    requires Accounted(s, Stray(Locate(s, key).value.node), HasRef(v), Open(s, key, st), st1)
    ensures Accounted(s, false, HasRef(v), st, Close(key, Ok(v), st1))
  {
    var n := |st.expanded|;
    OpenExpands(s, key, st);
    assert st1.expanded[n..] == [key] + st1.expanded[n + 1..];
    assert key in st1.expanded[n..] && key in st1.expanded;
  }

  /** Exactly the references reachable from the entry document are expanded. */
  lemma ExpandedIffReachable(s: Setup, k: Key)
    requires s.Valid() && Resolve(s).0.Ok?
    ensures k in Resolve(s).1.expanded <==> Reachable(s, k)
  {
    var root := s.contents[s.entry];
    var st := Resolve(s).1;
    InitialSettled(s);
    EntryContinues(s);
    WalkReaches(s, root, [], s.entry, Initial);
    WalkLedger(s, root, [], s.entry, Initial);
    WalkSettled(s, root, [], s.entry, Initial);
    if Reachable(s, k) {
      var p: seq<Key> :| RefPath(s, p) && p[|p| - 1] == k;
      assert p[0] == Key(s.entry, p[0].ref);
      StaysClosed(s, st, p);
    }
  }

  lemma {:induction false} StaysClosed(s: Setup, st: State, p: seq<Key>)
    requires s.Valid() && Closed(s, st, []) && |p| > 0 && Linked(s, p) && p[0] in st.order
    ensures p[|p| - 1] in st.order
  {
    if |p| > 1 {
      var q := p[..|p| - 1];
      LinkedSlice(s, p, 0, |p| - 1);
      StaysClosed(s, st, q);
      assert Edge(s, p[|p| - 2], p[|p| - 1]);
    }
  }

  /** The output has a mapping with a `$ref` key exactly when some mapping the run walks
      through, in the entry document or at a reachable target, has a `$ref` that is not a
      string; cycles, cached results and external documents leave none behind. */
  lemma RefFreeExactly(s: Setup)
    requires s.Valid() && Resolve(s).0.Ok?
    ensures HasRef(Resolve(s).0.value) <==>
      Stray(s.contents[s.entry]) || exists k :: Reachable(s, k) && StrayTarget(s, k)
  {
    var st := Resolve(s).1;
    InitialSettled(s);
    WalkAccounted(s, s.contents[s.entry], [], s.entry, Initial);
    assert st.expanded[0..] == st.expanded;
    forall k ensures k in st.expanded <==> Reachable(s, k) {
      ExpandedIffReachable(s, k);
    }
  }
}
