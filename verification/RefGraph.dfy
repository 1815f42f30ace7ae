/** The reference graph, and what every run of the resolver keeps. */
module RefGraph {
  import opened Wrappers
  import opened Documents
  import opened Refs

  /** The reference texts a walk of `node` meets before expanding any of them. */
  function Visible(node: Node): set<string>
    decreases node, 1
  {
    match RefText(node)
    case Some(r) => {r}
    case None =>
      match node
      case Mapping(_, values) => VisibleIn(values)
      case List(items) => VisibleIn(items)
      case _ => {}
  }

  function VisibleIn(nodes: seq<Node>): set<string>
    decreases nodes, 0
  {
    if nodes == [] then {} else Visible(nodes[0]) + VisibleIn(nodes[1..])
  }

  ghost predicate Entry(s: Setup, k: Key)
    requires s.Valid()
  {
    k.doc == s.entry && k.ref in Visible(s.contents[s.entry])
  }

  /** Expanding `a` meets `b`. */
  ghost predicate Edge(s: Setup, a: Key, b: Key)
    requires s.Valid()
  {
    && a.doc in s.contents
    && Locate(s, a).Ok?
    && b.doc == Locate(s, a).value.doc
    && b.ref in Visible(Locate(s, a).value.node)
  }

  ghost predicate Linked(s: Setup, p: seq<Key>)
    requires s.Valid()
  {
    forall i :: 0 <= i < |p| - 1 ==> Edge(s, p[i], p[i + 1])
  }

  /** A walk in the reference graph from the entry document. */
  ghost predicate RefPath(s: Setup, p: seq<Key>)
    requires s.Valid()
  {
    |p| > 0 && Entry(s, p[0]) && Linked(s, p)
  }

  ghost predicate Reachable(s: Setup, k: Key)
    requires s.Valid()
  {
    exists p :: RefPath(s, p) && p[|p| - 1] == k
  }

  /** No walk from the entry document meets a reference twice. */
  ghost predicate Acyclic(s: Setup)
    requires s.Valid()
  {
    forall p :: RefPath(s, p) ==> NoDup(p)
  }

  /** Open references (the chain) and finished ones (the cache) are disjoint and together are
      exactly the expanded ones; nothing is expanded, opened, finished or fetched twice. */
  ghost predicate Ledger(st: State, chain: seq<Key>) {
    && NoDup(st.expanded) && NoDup(st.order) && NoDup(chain)
    && (forall k :: k in st.cache <==> k in st.order)
    && (forall k :: k in chain ==> k !in st.order)
    && (forall k :: k in st.expanded <==> k in chain || k in st.order)
    && |st.expanded| == |chain| + |st.order|
    && NoDup(st.fetched) && (forall t :: t in st.fetched <==> t in st.external)
  }

  ghost predicate Seen(st: State, chain: seq<Key>, doc: DocId, refs: set<string>) {
    forall r :: r in refs ==> Key(doc, r) in st.order || Key(doc, r) in chain
  }

  /** The logs only grow. */
  ghost predicate Extends(st: State, st': State) {
    st.expanded <= st'.expanded && st.order <= st'.order && st.warnings <= st'.warnings
  }

  lemma AppendFresh<T>(s: seq<T>, x: T)
    requires NoDup(s) && x !in s
    ensures NoDup(s + [x]) && forall y :: y in s + [x] <==> y in s || y == x
  {}

  lemma OpenLedger(s: Setup, key: Key, chain: seq<Key>, st: State)
    requires s.Valid() && Ledger(st, chain) && key !in chain && key !in st.cache
    requires key.doc in s.contents
    ensures NoDup(Open(s, key, st).expanded) && NoDup(Open(s, key, st).fetched)
    ensures Locate(s, key).Ok? ==> Ledger(Open(s, key, st), chain + [key])
    ensures Open(s, key, st).warnings == st.warnings && Open(s, key, st).order == st.order
    ensures Open(s, key, st).cache == st.cache
  {
    AppendFresh(st.expanded, key);
    AppendFresh(chain, key);
  }

  lemma CloseLedger(key: Key, v: Node, chain: seq<Key>, st: State)
    requires Ledger(st, chain + [key])
    ensures Ledger(Close(key, Ok(v), st), chain)
  {
    assert key in chain + [key];
    AppendFresh(st.order, key);
    assert forall k :: k in chain + [key] <==> k in chain || k == key;
    forall i, j | 0 <= i < j < |chain| ensures chain[i] != chain[j] {
      assert (chain + [key])[i] != (chain + [key])[j];
    }
    forall i | 0 <= i < |chain| ensures chain[i] != key {
      assert (chain + [key])[i] != (chain + [key])[|chain|];
    }
  }

  lemma {:induction false} WalkLedger(s: Setup, node: Node, chain: seq<Key>, doc: DocId, st: State)
    requires InScope(s, doc, AllRefs(node), chain) && Ledger(st, chain)
    ensures var (r, st') := Walk(s, node, chain, doc, st);
      && Extends(st, st') && NoDup(st'.expanded) && NoDup(st'.fetched)
      && (r.Ok? ==> Ledger(st', chain) && Seen(st', chain, doc, Visible(node)))
    decreases Budget(s, chain), 1, node, 1
  {
    match RefText(node)
    case None =>
      match node {
        case Mapping(_, values) => WalkAllLedger(s, values, chain, doc, st);
        case List(items) => WalkAllLedger(s, items, chain, doc, st);
        case _ =>
      }
    case Some(ref) => ResolveLedger(s, ref, chain, doc, st);
  }

  lemma {:induction false} ResolveLedger(s: Setup, ref: string, chain: seq<Key>, doc: DocId, st: State)
    requires InScope(s, doc, {ref}, chain) && Ledger(st, chain)
    ensures var (r, st') := ResolveRef(s, ref, chain, doc, st);
      && Extends(st, st') && NoDup(st'.expanded) && NoDup(st'.fetched)
      && (r.Ok? ==> Ledger(st', chain) && Seen(st', chain, doc, {ref}))
    decreases Budget(s, chain), 0, 1
  {
    var key := Key(doc, ref);
    if key !in chain && key !in st.cache {
      OpenLedger(s, key, chain, st);
      if Locate(s, key).Ok? {
        FreshLedger(s, key, Locate(s, key).value, chain, Open(s, key, st));
      }
    }
  }

  /** The case of a reference that is neither open nor finished. */
  lemma {:induction false} FreshLedger(s: Setup, key: Key, to: Located, chain: seq<Key>, st0: State)
    requires InScope(s, to.doc, AllRefs(to.node), chain + [key]) && Ledger(st0, chain + [key])
    requires key in Universe(s) && key !in chain
    ensures var (r, st1) := Walk(s, to.node, chain + [key], to.doc, st0);
      && Extends(st0, Close(key, r, st1)) && NoDup(st1.expanded) && NoDup(st1.fetched)
      && (r.Ok? ==> Ledger(Close(key, r, st1), chain))
    decreases Budget(s, chain), 0, 0
  {
    BudgetDrops(s, chain, key);
    WalkLedger(s, to.node, chain + [key], to.doc, st0);
    var (r, st1) := Walk(s, to.node, chain + [key], to.doc, st0);
    if r.Ok? {
      CloseLedger(key, r.value, chain, st1);
    }
  }

  lemma {:induction false} WalkAllLedger(s: Setup, nodes: seq<Node>, chain: seq<Key>, doc: DocId, st: State)
    requires InScope(s, doc, AllRefsIn(nodes), chain) && Ledger(st, chain)
    ensures var (r, st') := WalkAll(s, nodes, chain, doc, st);
      && Extends(st, st') && NoDup(st'.expanded) && NoDup(st'.fetched)
      && (r.Ok? ==> Ledger(st', chain) && Seen(st', chain, doc, VisibleIn(nodes)))
    decreases Budget(s, chain), 1, nodes, 0
  {
    if nodes != [] {
      WalkLedger(s, nodes[0], chain, doc, st);
      var (r, st1) := Walk(s, nodes[0], chain, doc, st);
      if r.Ok? {
        WalkAllLedger(s, nodes[1..], chain, doc, st1);
      }
    }
  }
}
