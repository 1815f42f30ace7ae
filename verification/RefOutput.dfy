/** What a successful run returns, node by node, and whom its warnings name. */
module RefOutput {
  import opened Wrappers
  import opened Documents
  import opened Refs
  import opened RefGraph
  import opened RefTheorems
  import opened RefMeaning

  /** A walk in the reference graph leads from the reference back to itself. */
  ghost predicate OnLoop(s: Setup, k: Key)
    requires s.Valid()
  {
    exists p :: |p| > 1 && Linked(s, p) && p[0] == k == p[|p| - 1]
  }

  /** `out` is what `node` stands for, seen through at most `depth` references: a mapping with the same
      keys and, key by key, what the values stand for; a list with what its items stand for; a scalar
      itself; for a reference, what the node it leads to stands for or, on a loop, the open object. */
  ghost predicate Shows(s: Setup, node: Node, doc: DocId, out: Node, depth: nat)
    requires s.Valid() && doc in s.contents
    decreases depth, 1, node, 1
  {
    match RefText(node)
    case Some(ref) => ShowsRef(s, Key(doc, ref), out, depth)
    case None =>
      match node
      case Mapping(keys, values) => out.Mapping? && out.keys == keys && ShowsAll(s, values, doc, out.values, depth)
      case List(items) => out.List? && ShowsAll(s, items, doc, out.items, depth)
      case _ => out == node
  }

  ghost predicate ShowsAll(s: Setup, nodes: seq<Node>, doc: DocId, outs: seq<Node>, depth: nat)
    requires s.Valid() && doc in s.contents
    decreases depth, 1, nodes, 0
  {
    |outs| == |nodes| && forall i :: 0 <= i < |nodes| ==> Shows(s, nodes[i], doc, outs[i], depth)
  }

  ghost predicate ShowsRef(s: Setup, key: Key, out: Node, depth: nat)
    requires s.Valid() && key.doc in s.contents
    decreases depth, 0
  {
    || (OnLoop(s, key) && out == Mapping(["type"], [Str("object")]))
    || (depth > 0 && Locate(s, key).Ok? &&
        var to := Locate(s, key).value; Shows(s, to.node, to.doc, out, depth - 1))
  }

  lemma {:induction false} Deeper(s: Setup, node: Node, doc: DocId, out: Node, d: nat, e: nat)
    requires s.Valid() && doc in s.contents && d <= e && Shows(s, node, doc, out, d)
    ensures Shows(s, node, doc, out, e)
    decreases d, 1, node, 1
  {
    match RefText(node)
    case Some(ref) => DeeperRef(s, Key(doc, ref), out, d, e);
    case None =>
      match node {
        case Mapping(_, values) => DeeperAll(s, values, doc, out.values, d, e);
        case List(items) => DeeperAll(s, items, doc, out.items, d, e);
        case _ =>
      }
  }

  lemma {:induction false} DeeperAll(s: Setup, nodes: seq<Node>, doc: DocId, outs: seq<Node>, d: nat, e: nat)
    requires s.Valid() && doc in s.contents && d <= e && ShowsAll(s, nodes, doc, outs, d)
    ensures ShowsAll(s, nodes, doc, outs, e)
    decreases d, 1, nodes, 0
  {
    forall i | 0 <= i < |nodes| ensures Shows(s, nodes[i], doc, outs[i], e) {
      Deeper(s, nodes[i], doc, outs[i], d, e);
    }
  }

  lemma {:induction false} DeeperRef(s: Setup, key: Key, out: Node, d: nat, e: nat)
    requires s.Valid() && key.doc in s.contents && d <= e && ShowsRef(s, key, out, d)
    ensures ShowsRef(s, key, out, e)
    decreases d, 0
  {
    if d > 0 && Locate(s, key).Ok? {
      var to := Locate(s, key).value;
      if Shows(s, to.node, to.doc, out, d - 1) { Deeper(s, to.node, to.doc, out, d - 1, e - 1); }
    }
  }

  // ---- Every run shows its documents

  /** The i-th finished reference is shown by its cached value, through `i + 1` references, and the
      warnings name references on loops. */
  ghost predicate Shown(s: Setup, st: State)
    requires s.Valid()
  {
    && (forall i :: 0 <= i < |st.order| ==> CachedAt(s, st.order[i], i, st.cache))
    && (forall w :: w in st.warnings ==> NamesLoop(s, w))
  }

  ghost predicate CachedAt(s: Setup, k: Key, i: nat, cache: map<Key, Node>)
    requires s.Valid()
  {
    k.doc in s.contents && k in cache && ShowsRef(s, k, cache[k], i + 1)
  }

  ghost predicate NamesLoop(s: Setup, ref: string)
    requires s.Valid()
  {
    exists doc :: doc in s.contents && OnLoop(s, Key(doc, ref))
  }

  lemma {:induction false} WalkShows(s: Setup, node: Node, chain: seq<Key>, doc: DocId, st: State)
    requires InScope(s, doc, AllRefs(node), chain) && Ledger(st, chain) && Shown(s, st)
    requires Continues(s, chain, doc, Visible(node))
    ensures var (r, st') := Walk(s, node, chain, doc, st);
      r.Ok? ==> Shown(s, st') && Shows(s, node, doc, r.value, |st'.order|)
    decreases Budget(s, chain), 1, node, 1
  {
    match RefText(node)
    case None =>
      match node {
        case Mapping(_, values) => WalkAllShows(s, values, chain, doc, st);
        case List(items) => WalkAllShows(s, items, chain, doc, st);
        case _ =>
      }
    case Some(ref) => ResolveShows(s, ref, chain, doc, st);
  }

  lemma {:induction false} WalkAllShows(s: Setup, nodes: seq<Node>, chain: seq<Key>, doc: DocId, st: State)
    requires InScope(s, doc, AllRefsIn(nodes), chain) && Ledger(st, chain) && Shown(s, st)
    requires Continues(s, chain, doc, VisibleIn(nodes))
    ensures var (r, st') := WalkAll(s, nodes, chain, doc, st);
      r.Ok? ==> Shown(s, st') && ShowsAll(s, nodes, doc, r.value, |st'.order|)
    decreases Budget(s, chain), 1, nodes, 0
  {
    if nodes != [] {
      WalkLedger(s, nodes[0], chain, doc, st);
      WalkShows(s, nodes[0], chain, doc, st);
      var (r, st1) := Walk(s, nodes[0], chain, doc, st);
      if r.Ok? {
        WalkAllLedger(s, nodes[1..], chain, doc, st1);
        WalkAllShows(s, nodes[1..], chain, doc, st1);
        var (rest, st2) := WalkAll(s, nodes[1..], chain, doc, st1);
        if rest.Ok? {
          Deeper(s, nodes[0], doc, r.value, |st1.order|, |st2.order|);
          ShowsCons(s, nodes, doc, r.value, rest.value, |st2.order|);
        }
      }
    }
  }

  lemma ShowsCons(s: Setup, nodes: seq<Node>, doc: DocId, first: Node, rest: seq<Node>, depth: nat)
    requires s.Valid() && doc in s.contents && nodes != []
    requires Shows(s, nodes[0], doc, first, depth) && ShowsAll(s, nodes[1..], doc, rest, depth)
    ensures ShowsAll(s, nodes, doc, [first] + rest, depth)
  {
    forall i | 0 <= i < |nodes| ensures Shows(s, nodes[i], doc, ([first] + rest)[i], depth) {
      if i > 0 { assert nodes[i] == nodes[1..][i - 1]; }
    }
  }

  lemma {:induction false} ResolveShows(s: Setup, ref: string, chain: seq<Key>, doc: DocId, st: State)
    requires InScope(s, doc, {ref}, chain) && Ledger(st, chain) && Shown(s, st)
    requires Continues(s, chain, doc, {ref})
    ensures var (r, st') := ResolveRef(s, ref, chain, doc, st);
      r.Ok? ==> Shown(s, st') && ShowsRef(s, Key(doc, ref), r.value, |st'.order|)
    decreases Budget(s, chain), 0, 1
  {
    var key := Key(doc, ref);
    if key in chain {
      CutShows(s, chain, key, st);
    } else if key in st.cache {
      ServedShows(s, key, st);
    } else if Locate(s, key).Ok? {
      OpenLedger(s, key, chain, st);
      OpenShows(s, key, st);
      ContinuesInto(s, chain, key);
      FreshShows(s, key, Locate(s, key).value, chain, Open(s, key, st));
    }
  }

  lemma CutShows(s: Setup, chain: seq<Key>, key: Key, st: State)
    requires s.Valid() && key.doc in s.contents && key in chain && RefPath(s, chain + [key]) && Shown(s, st)
    ensures Shown(s, st.(warnings := st.warnings + [key.ref])) && ShowsRef(s, key, OpenObject, |st.order|)
  {
    OpenIsOnLoop(s, chain, key);
    var st' := st.(warnings := st.warnings + [key.ref]);
    forall w | w in st'.warnings ensures NamesLoop(s, w) {
      if w !in st.warnings { assert OnLoop(s, Key(key.doc, w)); }
    }
  }

  lemma ServedShows(s: Setup, key: Key, st: State)
    requires s.Valid() && key.doc in s.contents && key in st.order && Shown(s, st)
    ensures key in st.cache && ShowsRef(s, key, st.cache[key], |st.order|)
  {
    var i :| 0 <= i < |st.order| && st.order[i] == key;
    assert CachedAt(s, st.order[i], i, st.cache);
    DeeperRef(s, key, st.cache[key], i + 1, |st.order|);
  }

  /** A reference that is met while it is open lies on a loop. */
  lemma OpenIsOnLoop(s: Setup, chain: seq<Key>, key: Key)
    requires s.Valid() && key in chain && RefPath(s, chain + [key])
    ensures OnLoop(s, key)
  {
    var p := chain + [key];
    var i :| 0 <= i < |chain| && chain[i] == key;
    LinkedSlice(s, p, i, |p|);
    assert p[i..|p|][0] == key == p[i..|p|][|p| - i - 1];
  }

  lemma OpenShows(s: Setup, key: Key, st: State)
    requires s.Valid() && Shown(s, st)
    ensures Shown(s, Open(s, key, st))
  {
    var st0 := Open(s, key, st);
    forall i | 0 <= i < |st0.order| ensures CachedAt(s, st0.order[i], i, st0.cache) {
      assert CachedAt(s, st.order[i], i, st.cache);
    }
  }

  lemma {:induction false} FreshShows(s: Setup, key: Key, to: Located, chain: seq<Key>, st0: State)
    requires InScope(s, to.doc, AllRefs(to.node), chain + [key]) && key in Universe(s) && key !in chain
    requires Locate(s, key) == Ok(to) && Continues(s, chain + [key], to.doc, Visible(to.node))
    requires Ledger(st0, chain + [key]) && Shown(s, st0)
    ensures var (r, st1) := Walk(s, to.node, chain + [key], to.doc, st0);
      r.Ok? ==> Shown(s, Close(key, r, st1)) && ShowsRef(s, key, r.value, |st1.order| + 1)
    decreases Budget(s, chain), 0, 0
  {
    BudgetDrops(s, chain, key);
    WalkLedger(s, to.node, chain + [key], to.doc, st0);
    WalkShows(s, to.node, chain + [key], to.doc, st0);
    var (r, st1) := Walk(s, to.node, chain + [key], to.doc, st0);
    if r.Ok? {
      assert key in chain + [key];
      CloseShows(s, key, r.value, st1);
    }
  }

  lemma CachedStays(s: Setup, k: Key, i: nat, key: Key, v: Node, cache: map<Key, Node>)
    requires s.Valid() && CachedAt(s, k, i, cache) && k != key
    ensures CachedAt(s, k, i, cache[key := v])
  {}

  lemma CachedNow(s: Setup, key: Key, i: nat, v: Node, cache: map<Key, Node>)
    requires s.Valid() && key.doc in s.contents && ShowsRef(s, key, v, i + 1)
    ensures CachedAt(s, key, i, cache[key := v])
  {}

  lemma CloseShows(s: Setup, key: Key, v: Node, st: State)
    requires s.Valid() && key.doc in s.contents && Shown(s, st) && key !in st.order
    requires ShowsRef(s, key, v, |st.order| + 1)
    ensures Shown(s, Close(key, Ok(v), st))
  {
    var order, cache, n := st.order + [key], st.cache[key := v], |st.order|;
    CachedNow(s, key, n, v, st.cache);
    forall i | 0 <= i < n ensures CachedAt(s, order[i], i, cache) {
      assert order[i] == st.order[i] && CachedAt(s, st.order[i], i, st.cache);
      CachedStays(s, st.order[i], i, key, v, st.cache);
    }
    assert order[n] == key;
  }

  /** The result of every successful run is what the entry document stands for, node by node, and
      each of its warnings names a reference that lies on a loop. */
  lemma OutputShows(s: Setup)
    requires s.Valid() && Resolve(s).0.Ok?
    ensures Shows(s, s.contents[s.entry], s.entry, Resolve(s).0.value, |Resolve(s).1.order|)
    ensures forall w :: w in Resolve(s).1.warnings ==> NamesLoop(s, w)
  {
    InitialSettled(s);
    EntryContinues(s);
    WalkShows(s, s.contents[s.entry], [], s.entry, Initial);
  }

  // ---- A document without references

  lemma {:induction false} NothingToExpand(s: Setup, node: Node, chain: seq<Key>, doc: DocId, st: State)
    requires InScope(s, doc, AllRefs(node), chain) && Visible(node) == {}
    ensures Walk(s, node, chain, doc, st) == (Ok(node), st)
    decreases node, 1
  {
    match node {
      case Mapping(_, values) => NothingInThem(s, values, chain, doc, st);
      case List(items) => NothingInThem(s, items, chain, doc, st);
      case _ =>
    }
  }

  lemma {:induction false} NothingInThem(s: Setup, nodes: seq<Node>, chain: seq<Key>, doc: DocId, st: State)
    requires InScope(s, doc, AllRefsIn(nodes), chain) && VisibleIn(nodes) == {}
    ensures WalkAll(s, nodes, chain, doc, st) == (Ok(nodes), st)
    decreases nodes, 0
  {
    if nodes != [] {
      assert Visible(nodes[0]) == {} && VisibleIn(nodes[1..]) == {};
      NothingToExpand(s, nodes[0], chain, doc, st);
      NothingInThem(s, nodes[1..], chain, doc, st);
      assert [nodes[0]] + nodes[1..] == nodes;
    }
  }

  /** It resolves to itself, and nothing is expanded, fetched or warned about. */
  lemma PlainDocumentStays(s: Setup)
    requires s.Valid() && Visible(s.contents[s.entry]) == {}
    ensures Resolve(s) == (Ok(s.contents[s.entry]), Initial)
  {
    NothingToExpand(s, s.contents[s.entry], [], s.entry, Initial);
  }

  // ---- Without loops there is one thing to show

  lemma NoLoopAhead(s: Setup, path: seq<Key>, key: Key)
    requires s.Valid() && Acyclic(s) && RefPath(s, path + [key])
    ensures !OnLoop(s, key)
  {
    if OnLoop(s, key) {
      var loop :| |loop| > 1 && Linked(s, loop) && loop[0] == key == loop[|loop| - 1];
      var round := path + loop;
      forall i | 0 <= i < |round| - 1 ensures Edge(s, round[i], round[i + 1]) {
        if i < |path| {
          assert Edge(s, (path + [key])[i], (path + [key])[i + 1]);
        } else {
          assert Edge(s, loop[i - |path|], loop[i - |path| + 1]);
        }
      }
      assert round[0] == (path + [key])[0] && round[|path|] == round[|round| - 1];
      assert RefPath(s, round);
    }
  }

  lemma {:induction false} ShowsOne(s: Setup, node: Node, path: seq<Key>, doc: DocId, a: Node, b: Node, d: nat, e: nat)
    requires s.Valid() && doc in s.contents && Acyclic(s) && Continues(s, path, doc, Visible(node))
    requires Shows(s, node, doc, a, d) && Shows(s, node, doc, b, e)
    ensures a == b
    decreases d, node, 1
  {
    match RefText(node)
    case None =>
      match node {
        case Mapping(_, values) => ShowOne(s, values, path, doc, a.values, b.values, d, e);
        case List(items) => ShowOne(s, items, path, doc, a.items, b.items, d, e);
        case _ =>
      }
    case Some(ref) =>
      var key := Key(doc, ref);
      NoLoopAhead(s, path, key);
      TargetShows(s, key, a, d);
      TargetShows(s, key, b, e);
      ContinuesInto(s, path, key);
      ShowsOne(s, Locate(s, key).value.node, path + [key], Locate(s, key).value.doc, a, b, d - 1, e - 1);
  }

  lemma TargetShows(s: Setup, key: Key, out: Node, depth: nat)
    requires s.Valid() && key.doc in s.contents && !OnLoop(s, key) && ShowsRef(s, key, out, depth)
    ensures depth > 0 && Locate(s, key).Ok?
    ensures Shows(s, Locate(s, key).value.node, Locate(s, key).value.doc, out, depth - 1)
  {}

  lemma {:induction false} ShowOne(s: Setup, nodes: seq<Node>, path: seq<Key>, doc: DocId, a: seq<Node>, b: seq<Node>,
          d: nat, e: nat)
    requires s.Valid() && doc in s.contents && Acyclic(s) && Continues(s, path, doc, VisibleIn(nodes))
    requires ShowsAll(s, nodes, doc, a, d) && ShowsAll(s, nodes, doc, b, e)
    ensures a == b
    decreases d, nodes, 0
  {
    forall i | 0 <= i < |nodes| ensures a[i] == b[i] {
      VisibleItem(nodes, i);
      ShowsOne(s, nodes[i], path, doc, a[i], b[i], d, e);
    }
  }

  lemma {:induction false} VisibleItem(nodes: seq<Node>, i: nat)
    requires i < |nodes|
    ensures Visible(nodes[i]) <= VisibleIn(nodes)
  {
    if i > 0 { VisibleItem(nodes[1..], i - 1); }
  }

  /** Over an acyclic graph nothing but the result of the run is what the entry document stands for. */
  lemma OutputIsDetermined(s: Setup, out: Node, depth: nat)
    requires s.Valid() && Acyclic(s) && Resolve(s).0.Ok?
    ensures out == Resolve(s).0.value ==>
      exists d :: Shows(s, s.contents[s.entry], s.entry, out, d)
    ensures Shows(s, s.contents[s.entry], s.entry, out, depth) ==> out == Resolve(s).0.value
  {
    OutputShows(s);
    EntryContinues(s);
    if Shows(s, s.contents[s.entry], s.entry, out, depth) {
      ShowsOne(s, s.contents[s.entry], [], s.entry, out, Resolve(s).0.value, depth, |Resolve(s).1.order|);
    }
  }
}
