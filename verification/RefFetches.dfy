/** Which targets a run may fetch, and what its errors say. */
module RefFetches {
  import opened Wrappers
  import opened Documents
  import opened Refs
  import Text

  /** External documents are allowed, the target's host, if it has one, is allowed, and there is a fetcher. */
  ghost predicate MayFetch(s: Setup, target: string) {
    && s.allowExternal && s.fetch.Some?
    && (s.host(target).Some? ==> s.host(target).value in s.allowedHosts)
  }

  /** The document a reference names, if it is not its own. */
  function Target(k: Key): string {
    Text.Partition(k.ref, '#').0
  }

  ghost predicate Explains(s: Setup, e: RefError) {
    match e
    case ExternalDisabled(_) => !s.allowExternal
    case HostNotAllowed(t) => s.allowExternal && s.host(t).Some? && s.host(t).value !in s.allowedHosts
    case NoFetcher(t) =>
      s.allowExternal && s.fetch.None? && (s.host(t).Some? ==> s.host(t).value in s.allowedHosts)
    case FetchFailed(t) => MayFetch(s, t) && s.fetch.value(t).None?
    case BadPointer(_) => true
    case NotAMapping => true
  }

  /** Only targets that may be fetched were, each external one that an expanded reference names was, and
      those kept are what the fetcher gave. */
  ghost predicate Allowed(s: Setup, st: State) {
    && (forall t :: t in st.fetched ==> MayFetch(s, t))
    && (forall k :: k in st.expanded && Target(k) != "" && MayFetch(s, Target(k)) ==> Target(k) in st.fetched)
    && (forall t :: t in st.external ==> t in st.fetched && s.fetch.value(t) == Some(st.external[t]))
  }

  ghost predicate AllowedRun<T>(s: Setup, r: Result<T, RefError>, st: State) {
    Allowed(s, st) && (r.Err? ==> Explains(s, r.error))
  }

  lemma {:induction false} WalkAllowed(s: Setup, node: Node, chain: seq<Key>, doc: DocId, st: State)
    requires InScope(s, doc, AllRefs(node), chain) && Allowed(s, st)
    ensures var (r, st') := Walk(s, node, chain, doc, st); AllowedRun(s, r, st')
    decreases Budget(s, chain), 1, node, 1
  {
    match RefText(node)
    case None =>
      match node {
        case Mapping(_, values) => WalkAllAllowed(s, values, chain, doc, st);
        case List(items) => WalkAllAllowed(s, items, chain, doc, st);
        case _ =>
      }
    case Some(ref) => ResolveAllowed(s, ref, chain, doc, st);
  }

  lemma {:induction false} WalkAllAllowed(s: Setup, nodes: seq<Node>, chain: seq<Key>, doc: DocId, st: State)
    requires InScope(s, doc, AllRefsIn(nodes), chain) && Allowed(s, st)
    ensures var (r, st') := WalkAll(s, nodes, chain, doc, st); AllowedRun(s, r, st')
    decreases Budget(s, chain), 1, nodes, 0
  {
    if nodes != [] {
      WalkAllowed(s, nodes[0], chain, doc, st);
      var (r, st1) := Walk(s, nodes[0], chain, doc, st);
      if r.Ok? { WalkAllAllowed(s, nodes[1..], chain, doc, st1); }
    }
  }

  lemma {:induction false} ResolveAllowed(s: Setup, ref: string, chain: seq<Key>, doc: DocId, st: State)
    requires InScope(s, doc, {ref}, chain) && Allowed(s, st)
    ensures var (r, st') := ResolveRef(s, ref, chain, doc, st); AllowedRun(s, r, st')
    decreases Budget(s, chain), 0
  {
    var key := Key(doc, ref);
    if key !in chain && key !in st.cache {
      OpenAllowed(s, key, st);
      if Locate(s, key).Ok? {
        var to := Locate(s, key).value;
        BudgetDrops(s, chain, key);
        WalkAllowed(s, to.node, chain + [key], to.doc, Open(s, key, st));
      }
    }
  }

  lemma OpenAllowed(s: Setup, key: Key, st: State)
    requires s.Valid() && key.doc in s.contents && Allowed(s, st)
    ensures Allowed(s, Open(s, key, st))
    ensures Locate(s, key).Err? ==> Explains(s, Locate(s, key).error)
  {}

  /** In every run, failed or not: nothing is fetched unless external documents are allowed, and from no
      host that is not; what an expanded reference names is then fetched; and an error says what is so. */
  lemma OnlyAllowedIsFetched(s: Setup)
    requires s.Valid()
    ensures forall t :: t in Resolve(s).1.fetched ==> MayFetch(s, t)
    ensures forall k :: k in Resolve(s).1.expanded && Target(k) != "" && MayFetch(s, Target(k)) ==>
      Target(k) in Resolve(s).1.fetched
    ensures Resolve(s).0.Err? ==> Explains(s, Resolve(s).0.error)
  {
    WalkAllowed(s, s.contents[s.entry], [], s.entry, Initial);
  }
}
