/** The theorems about a whole run of the resolver. */
module RefTheorems {
  import opened Wrappers
  import opened Documents
  import opened Refs
  import opened RefGraph

  // ---- A warning is given only for a cycle.

  lemma LinkedExtend(s: Setup, p: seq<Key>, k: Key)
    requires s.Valid() && Linked(s, p) && (p != [] ==> Edge(s, p[|p| - 1], k))
    ensures Linked(s, p + [k])
  {
    forall i | 0 <= i < |p| ensures Edge(s, (p + [k])[i], (p + [k])[i + 1]) {}
  }

  /** Every reference met here continues the walk that the chain is. */
  ghost predicate Continues(s: Setup, chain: seq<Key>, doc: DocId, refs: set<string>)
    requires s.Valid()
  {
    forall r :: r in refs ==> RefPath(s, chain + [Key(doc, r)])
  }

  lemma ContinuesInto(s: Setup, chain: seq<Key>, key: Key)
    requires s.Valid() && key.doc in s.contents && Locate(s, key).Ok? && RefPath(s, chain + [key])
    ensures var to := Locate(s, key).value; Continues(s, chain + [key], to.doc, Visible(to.node))
  {
    var to := Locate(s, key).value;
    forall r | r in Visible(to.node) ensures RefPath(s, chain + [key] + [Key(to.doc, r)]) {
      LinkedExtend(s, chain + [key], Key(to.doc, r));
    }
  }

  lemma NextIsFresh(s: Setup, chain: seq<Key>, key: Key)
    requires s.Valid() && Acyclic(s) && RefPath(s, chain + [key])
    ensures key !in chain
  {
    var p := chain + [key];
    assert NoDup(p) && p[|chain|] == key;
    forall i | 0 <= i < |chain| ensures chain[i] != key {
      assert p[i] != p[|chain|];
    }
  }

  lemma {:induction false} WalkSilent(s: Setup, node: Node, chain: seq<Key>, doc: DocId, st: State)
    requires InScope(s, doc, AllRefs(node), chain) && Acyclic(s) && Continues(s, chain, doc, Visible(node))
    ensures Walk(s, node, chain, doc, st).1.warnings == st.warnings
    decreases Budget(s, chain), 1, node, 1
  {
    match RefText(node)
    case None =>
      match node {
        case Mapping(_, values) => WalkAllSilent(s, values, chain, doc, st);
        case List(items) => WalkAllSilent(s, items, chain, doc, st);
        case _ =>
      }
    case Some(ref) => ResolveSilent(s, ref, chain, doc, st);
  }

  lemma {:induction false} WalkAllSilent(s: Setup, nodes: seq<Node>, chain: seq<Key>, doc: DocId, st: State)
    requires InScope(s, doc, AllRefsIn(nodes), chain) && Acyclic(s) && Continues(s, chain, doc, VisibleIn(nodes))
    ensures WalkAll(s, nodes, chain, doc, st).1.warnings == st.warnings
    decreases Budget(s, chain), 1, nodes, 0
  {
    if nodes != [] {
      WalkSilent(s, nodes[0], chain, doc, st);
      WalkAllSilent(s, nodes[1..], chain, doc, Walk(s, nodes[0], chain, doc, st).1);
    }
  }

  lemma {:induction false} ResolveSilent(s: Setup, ref: string, chain: seq<Key>, doc: DocId, st: State)
    requires InScope(s, doc, {ref}, chain) && Acyclic(s) && Continues(s, chain, doc, {ref})
    ensures ResolveRef(s, ref, chain, doc, st).1.warnings == st.warnings
    decreases Budget(s, chain), 0, 1
  {
    var key := Key(doc, ref);
    NextIsFresh(s, chain, key);
    if key !in st.cache && Locate(s, key).Ok? {
      ContinuesInto(s, chain, key);
      FreshSilent(s, key, Locate(s, key).value, chain, Open(s, key, st));
    }
  }

  lemma {:induction false} FreshSilent(s: Setup, key: Key, to: Located, chain: seq<Key>, st0: State)
    requires InScope(s, to.doc, AllRefs(to.node), chain + [key]) && key in Universe(s) && key !in chain
    requires Acyclic(s) && Continues(s, chain + [key], to.doc, Visible(to.node))
    ensures Walk(s, to.node, chain + [key], to.doc, st0).1.warnings == st0.warnings
    decreases Budget(s, chain), 0, 0
  {
    BudgetDrops(s, chain, key);
    WalkSilent(s, to.node, chain + [key], to.doc, st0);
  }

  // ---- Without a warning, references finish in topological order.

  /** What a finished reference leads to is finished or open. */
  ghost predicate Closed(s: Setup, st: State, chain: seq<Key>)
    requires s.Valid()
  {
    forall k :: k in st.order ==>
      k.doc in s.contents && Locate(s, k).Ok? && forall b :: Edge(s, k, b) ==> b in st.order || b in chain
  }

  ghost predicate Topological(s: Setup, order: seq<Key>)
    requires s.Valid()
  {
    forall i, b :: 0 <= i < |order| && Edge(s, order[i], b) ==> b in order[..i]
  }

  ghost predicate Settled(s: Setup, st: State, chain: seq<Key>)
    requires s.Valid()
  {
    Ledger(st, chain) && Closed(s, st, chain) && (st.warnings == [] ==> Topological(s, st.order))
  }

  ghost predicate Finished(st: State, doc: DocId, refs: set<string>) {
    forall r :: r in refs ==> Key(doc, r) in st.order
  }

  lemma {:induction false} WalkSettled(s: Setup, node: Node, chain: seq<Key>, doc: DocId, st: State)
    requires InScope(s, doc, AllRefs(node), chain) && Settled(s, st, chain)
    ensures var (r, st') := Walk(s, node, chain, doc, st);
      r.Ok? ==> Settled(s, st', chain) && (st'.warnings == [] ==> Finished(st', doc, Visible(node)))
    decreases Budget(s, chain), 1, node, 1
  {
    match RefText(node)
    case None =>
      match node {
        case Mapping(_, values) => WalkAllSettled(s, values, chain, doc, st);
        case List(items) => WalkAllSettled(s, items, chain, doc, st);
        case _ =>
      }
    case Some(ref) => ResolveSettled(s, ref, chain, doc, st);
  }

  lemma {:induction false} WalkAllSettled(s: Setup, nodes: seq<Node>, chain: seq<Key>, doc: DocId, st: State)
    requires InScope(s, doc, AllRefsIn(nodes), chain) && Settled(s, st, chain)
    ensures var (r, st') := WalkAll(s, nodes, chain, doc, st);
      r.Ok? ==> Settled(s, st', chain) && (st'.warnings == [] ==> Finished(st', doc, VisibleIn(nodes)))
    decreases Budget(s, chain), 1, nodes, 0
  {
    if nodes != [] {
      WalkSettled(s, nodes[0], chain, doc, st);
      var (r, st1) := Walk(s, nodes[0], chain, doc, st);
      if r.Ok? {
        WalkAllSettled(s, nodes[1..], chain, doc, st1);
        WalkAllLedger(s, nodes[1..], chain, doc, st1);
      }
    }
  }

  lemma {:induction false} ResolveSettled(s: Setup, ref: string, chain: seq<Key>, doc: DocId, st: State)
    requires InScope(s, doc, {ref}, chain) && Settled(s, st, chain)
    ensures var (r, st') := ResolveRef(s, ref, chain, doc, st);
      r.Ok? ==> Settled(s, st', chain) && (st'.warnings == [] ==> Finished(st', doc, {ref}))
    decreases Budget(s, chain), 0, 1
  {
    var key := Key(doc, ref);
    if key !in chain && key !in st.cache && Locate(s, key).Ok? {
      OpenSettled(s, key, chain, st);
      FreshSettled(s, key, Locate(s, key).value, chain, Open(s, key, st));
    }
  }

  lemma OpenSettled(s: Setup, key: Key, chain: seq<Key>, st: State)
    requires s.Valid() && Settled(s, st, chain) && key.doc in s.contents && Locate(s, key).Ok?
    requires key !in chain && key !in st.cache
    ensures Settled(s, Open(s, key, st), chain + [key])
  {
    OpenLedger(s, key, chain, st);
  }

  lemma {:induction false} FreshSettled(s: Setup, key: Key, to: Located, chain: seq<Key>, st0: State)
    requires InScope(s, to.doc, AllRefs(to.node), chain + [key]) && Settled(s, st0, chain + [key])
    requires key in Universe(s) && key !in chain && Locate(s, key) == Ok(to)
    ensures var (r, st1) := Walk(s, to.node, chain + [key], to.doc, st0);
      r.Ok? ==> Settled(s, Close(key, r, st1), chain)
    decreases Budget(s, chain), 0, 0
  {
    BudgetDrops(s, chain, key);
    WalkSettled(s, to.node, chain + [key], to.doc, st0);
    WalkLedger(s, to.node, chain + [key], to.doc, st0);
    var (r, st1) := Walk(s, to.node, chain + [key], to.doc, st0);
    if r.Ok? {
      CloseSettled(s, key, r.value, chain, st1);
    }
  }

  lemma CloseSettled(s: Setup, key: Key, v: Node, chain: seq<Key>, st: State)
    requires s.Valid() && key.doc in s.contents && Locate(s, key).Ok? && Settled(s, st, chain + [key])
    requires var to := Locate(s, key).value;
      && Seen(st, chain + [key], to.doc, Visible(to.node))
      && (st.warnings == [] ==> Finished(st, to.doc, Visible(to.node)))
    ensures Settled(s, Close(key, Ok(v), st), chain)
  {
    CloseLedger(key, v, chain, st);
    CloseClosed(s, key, v, chain, st);
    if st.warnings == [] {
      CloseTopological(s, key, st.order);
    }
  }

  lemma CloseClosed(s: Setup, key: Key, v: Node, chain: seq<Key>, st: State)
    requires s.Valid() && key.doc in s.contents && Locate(s, key).Ok? && Closed(s, st, chain + [key])
    requires var to := Locate(s, key).value; Seen(st, chain + [key], to.doc, Visible(to.node))
    ensures Closed(s, Close(key, Ok(v), st), chain)
  {
    var order' := st.order + [key];
    forall k, b | k in order' && k.doc in s.contents && Locate(s, k).Ok? && Edge(s, k, b)
      ensures b in order' || b in chain
    {
      assert b == Key(b.doc, b.ref);
      assert b in st.order || b in chain + [key];
    }
  }

  lemma CloseTopological(s: Setup, key: Key, order: seq<Key>)
    requires s.Valid() && key.doc in s.contents && Locate(s, key).Ok? && Topological(s, order)
    requires var to := Locate(s, key).value; forall r :: r in Visible(to.node) ==> Key(to.doc, r) in order
    ensures Topological(s, order + [key])
  {
    var order' := order + [key];
    forall i, b | 0 <= i < |order'| && Edge(s, order'[i], b)
      ensures b in order'[..i]
    {
      assert b == Key(b.doc, b.ref);
      assert order'[..i] == order[..i];
    }
  }

  function Index(order: seq<Key>, k: Key): (i: nat)
    requires k in order
    ensures i < |order| && order[i] == k && k !in order[..i]
  {
    if order[0] == k then 0 else 1 + Index(order[1..], k)
  }

  lemma {:induction false} IndexIsLeast(order: seq<Key>, j: nat)
    requires j < |order|
    ensures Index(order, order[j]) <= j
  {
    if order[0] != order[j] { IndexIsLeast(order[1..], j - 1); }
  }

  lemma EdgeDescends(s: Setup, order: seq<Key>, a: Key, b: Key)
    requires s.Valid() && Topological(s, order) && a in order && Edge(s, a, b)
    ensures b in order && Index(order, b) < Index(order, a)
  {
    var i := Index(order, a);
    assert b in order[..i];
    var j :| 0 <= j < i && order[j] == b;
    IndexIsLeast(order, j);
  }

  lemma {:induction false} PathDescends(s: Setup, order: seq<Key>, p: seq<Key>)
    requires s.Valid() && Topological(s, order) && |p| > 0 && p[0] in order && Linked(s, p)
    ensures forall i :: 0 < i < |p| ==> p[i] in order && Index(order, p[i]) < Index(order, p[0])
    ensures NoDup(p)
  {
    if |p| > 1 {
      EdgeDescends(s, order, p[0], p[1]);
      var q := p[1..];
      forall i | 0 <= i < |q| - 1 ensures Edge(s, q[i], q[i + 1]) {
        assert Edge(s, p[i + 1], p[i + 2]);
      }
      PathDescends(s, order, q);
      forall i | 1 < i < |p| ensures p[i] in order && Index(order, p[i]) < Index(order, p[0]) {
        assert p[i] == q[i - 1];
      }
      forall i, j | 0 <= i < j < |p| ensures p[i] != p[j] {
        if i > 0 {
          assert p[i] == q[i - 1] && p[j] == q[j - 1];
        }
      }
    }
  }

  lemma InitialSettled(s: Setup)
    requires s.Valid()
    ensures Settled(s, Initial, []) && InScope(s, s.entry, AllRefs(s.contents[s.entry]), [])
  {}

  /** On every successful run, a warning is given exactly when the graph has a cycle. */
  lemma WarnsExactlyOnCycles(s: Setup)
    requires s.Valid() && Resolve(s).0.Ok?
    ensures Resolve(s).1.warnings == [] <==> Acyclic(s)
  {
    var root := s.contents[s.entry];
    InitialSettled(s);
    if Acyclic(s) {
      AcyclicIsSilent(s);
    }
    WalkSettled(s, root, [], s.entry, Initial);
    var st := Resolve(s).1;
    if st.warnings == [] {
      forall p: seq<Key> | RefPath(s, p) ensures NoDup(p) {
        assert p[0] == Key(s.entry, p[0].ref);
        PathDescends(s, st.order, p);
      }
    }
  }

  /** An acyclic graph draws no warning, whether or not the run succeeds. */
  lemma AcyclicIsSilent(s: Setup)
    requires s.Valid() && Acyclic(s)
    ensures Resolve(s).1.warnings == []
  {
    var root := s.contents[s.entry];
    InitialSettled(s);
    EntryContinues(s);
    WalkSilent(s, root, [], s.entry, Initial);
  }

  // ---- Only reachable references are expanded.

  ghost predicate Met(s: Setup, k: Key)
    requires s.Valid()
  {
    k in Universe(s) && Reachable(s, k)
  }

  lemma {:induction false} WalkReaches(s: Setup, node: Node, chain: seq<Key>, doc: DocId, st: State)
    requires InScope(s, doc, AllRefs(node), chain) && Continues(s, chain, doc, Visible(node))
    ensures forall k :: k in Walk(s, node, chain, doc, st).1.expanded ==> k in st.expanded || Met(s, k)
    decreases Budget(s, chain), 1, node, 1
  {
    match RefText(node)
    case None =>
      match node {
        case Mapping(_, values) => WalkAllReaches(s, values, chain, doc, st);
        case List(items) => WalkAllReaches(s, items, chain, doc, st);
        case _ =>
      }
    case Some(ref) => ResolveReaches(s, ref, chain, doc, st);
  }

  lemma {:induction false} WalkAllReaches(s: Setup, nodes: seq<Node>, chain: seq<Key>, doc: DocId, st: State)
    requires InScope(s, doc, AllRefsIn(nodes), chain) && Continues(s, chain, doc, VisibleIn(nodes))
    ensures forall k :: k in WalkAll(s, nodes, chain, doc, st).1.expanded ==> k in st.expanded || Met(s, k)
    decreases Budget(s, chain), 1, nodes, 0
  {
    if nodes != [] {
      WalkReaches(s, nodes[0], chain, doc, st);
      WalkAllReaches(s, nodes[1..], chain, doc, Walk(s, nodes[0], chain, doc, st).1);
    }
  }

  lemma {:induction false} ResolveReaches(s: Setup, ref: string, chain: seq<Key>, doc: DocId, st: State)
    requires InScope(s, doc, {ref}, chain) && Continues(s, chain, doc, {ref})
    ensures forall k :: k in ResolveRef(s, ref, chain, doc, st).1.expanded ==> k in st.expanded || Met(s, k)
    decreases Budget(s, chain), 0, 1
  {
    var key := Key(doc, ref);
    assert RefPath(s, chain + [key]) && (chain + [key])[|chain|] == key;
    if key !in chain && key !in st.cache && Locate(s, key).Ok? {
      ContinuesInto(s, chain, key);
      FreshReaches(s, key, Locate(s, key).value, chain, Open(s, key, st));
    }
  }

  lemma {:induction false} FreshReaches(s: Setup, key: Key, to: Located, chain: seq<Key>, st0: State)
    requires InScope(s, to.doc, AllRefs(to.node), chain + [key]) && key in Universe(s) && key !in chain
    requires Continues(s, chain + [key], to.doc, Visible(to.node))
    ensures var (r, st1) := Walk(s, to.node, chain + [key], to.doc, st0);
      forall k :: k in Close(key, r, st1).expanded ==> k in st0.expanded || Met(s, k)
    decreases Budget(s, chain), 0, 0
  {
    BudgetDrops(s, chain, key);
    WalkReaches(s, to.node, chain + [key], to.doc, st0);
  }

  lemma EntryContinues(s: Setup)
    requires s.Valid()
    ensures Continues(s, [], s.entry, Visible(s.contents[s.entry]))
  {
    forall r | r in Visible(s.contents[s.entry]) ensures RefPath(s, [] + [Key(s.entry, r)]) {
      assert [] + [Key(s.entry, r)] == [Key(s.entry, r)];
    }
  }

  /** No reference is expanded twice and no target fetched twice in any run, failed or not,
      so there are at most as many expansions as distinct references in the documents. */
  lemma ExpandedOnce(s: Setup)
    requires s.Valid()
    ensures NoDup(Resolve(s).1.expanded) && NoDup(Resolve(s).1.fetched)
    ensures |Resolve(s).1.expanded| <= |Universe(s)|
  {
    InitialSettled(s);
    EntryContinues(s);
    WalkLedger(s, s.contents[s.entry], [], s.entry, Initial);
    WalkReaches(s, s.contents[s.entry], [], s.entry, Initial);
    NoDupBound(Resolve(s).1.expanded, Universe(s));
  }
}
