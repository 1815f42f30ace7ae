/** Expansion of `$ref`s over a set of documents that may refer to each other in
    cycles: the resolver as a function over its own state, and the class that
    updates that state in place. */
module Refs {
  import opened Wrappers
  import opened Documents
  import Text

  /** The identity of a document object, `id(root)` in the source. */
  type DocId = nat

  /** A reference is identified by the document it occurs in and its text. */
  datatype Key = Key(doc: DocId, ref: string)

  datatype RefError =
    | ExternalDisabled(target: string)
    | HostNotAllowed(target: string)
    | NoFetcher(target: string)
    | FetchFailed(target: string)
    | BadPointer(why: PointerError)
    | NotAMapping

  /** What one resolver is built with. The fetcher, URL splitting and `int()` are parameters;
      the fetcher names a document object, so two targets may share one. */
  datatype Setup = Setup(
    contents: map<DocId, Node>,
    entry: DocId,
    allowExternal: bool,
    allowedHosts: set<string>,
    host: string -> Option<string>,
    fetch: Option<string -> Option<DocId>>,
    index: string -> Option<int>)
  {
    ghost predicate Valid() {
      && entry in contents
      && (fetch.Some? ==> forall t :: fetch.value(t).Some? ==> fetch.value(t).value in contents)
    }

    /** The checks made before a target may be fetched at all. */
    function Refusal(target: string): Option<RefError> {
      if !allowExternal then Some(ExternalDisabled(target))
      else if host(target).Some? && host(target).value !in allowedHosts then Some(HostNotAllowed(target))
      else if fetch.None? then Some(NoFetcher(target))
      else None
    }

    /** The document a target denotes. */
    function Document(target: string): (r: Result<DocId, RefError>)
      requires Valid()
      ensures r.Ok? ==> r.value in contents
    {
      match Refusal(target)
      case Some(e) => Err(e)
      case None =>
        match fetch.value(target)
        case Some(d) => Ok(d)
        case None => Err(FetchFailed(target))
    }
  }

  datatype Located = Located(doc: DocId, node: Node)

  function Pointer(ref: string): string {
    var rest := Text.Partition(ref, '#').1;
    if rest == "" then "#" else "#" + rest
  }

  /** Where a reference leads: the document and the node the pointer selects in it. */
  function Locate(s: Setup, key: Key): (r: Result<Located, RefError>)
    requires s.Valid() && key.doc in s.contents
    ensures r.Ok? ==> r.value.doc in s.contents && AllRefs(r.value.node) <= AllRefs(s.contents[r.value.doc])
  {
    var target := Text.Partition(key.ref, '#').0;
    match (if target == "" then Ok(key.doc) else s.Document(target))
    case Err(e) => Err(e)
    case Ok(doc) =>
      match PointerLookup(s.contents[doc], Pointer(key.ref), s.index)
      case Err(e) => Err(BadPointer(e))
      case Ok(node) => Ok(Located(doc, node))
  }

  /** The resolver's fields, and three logs: keys in the order their expansion started and
      finished, and targets in the order they were fetched. */
  datatype State = State(
    cache: map<Key, Node>,
    external: map<string, DocId>,
    warnings: seq<string>,
    expanded: seq<Key>,
    order: seq<Key>,
    fetched: seq<string>)

  const Initial := State(map[], map[], [], [], [], [])

  const OpenObject := Mapping(["type"], [Str("object")])

  /** The trace `_external_document` leaves: a target is fetched when it is not cached. */
  function Touch(s: Setup, target: string, st: State): State
    requires s.Valid()
  {
    if s.Refusal(target).Some? || target in st.external then st
    else match s.Document(target)
      case Ok(d) => st.(external := st.external[target := d], fetched := st.fetched + [target])
      case Err(_) => st.(fetched := st.fetched + [target])
  }

  function TouchFor(s: Setup, ref: string, st: State): State
    requires s.Valid()
  {
    var target := Text.Partition(ref, '#').0;
    if target == "" then st else Touch(s, target, st)
  }

  ghost function Universe(s: Setup): set<Key> {
    set d, r | d in s.contents && r in AllRefs(s.contents[d]) :: Key(d, r)
  }

  ghost predicate InScope(s: Setup, doc: DocId, refs: set<string>, chain: seq<Key>) {
    && s.Valid()
    && doc in s.contents
    && refs <= AllRefs(s.contents[doc])
    && forall k :: k in chain ==> k in Universe(s)
  }

  /** The number of references that are not open. */
  ghost function Budget(s: Setup, chain: seq<Key>): nat {
    |Universe(s) - set k | k in chain|
  }

  lemma BudgetDrops(s: Setup, chain: seq<Key>, key: Key)
    requires key in Universe(s) && key !in chain
    ensures Budget(s, chain + [key]) < Budget(s, chain)
  {
    var open, closed := set k | k in chain, set k | k in chain + [key];
    assert key in (chain + [key]);
    assert Universe(s) - closed == (Universe(s) - open) - {key};
  }

  function Rewrap(node: Node, r: Result<seq<Node>, RefError>): Result<Node, RefError> {
    match r
    case Ok(children) => Ok(Rebuild(node, children))
    case Err(e) => Err(e)
  }

  /** `_walk`. It terminates for every set of documents, cyclic or not: each expansion
      lengthens the chain within a finite universe, and otherwise the node shrinks. */
  function Walk(s: Setup, node: Node, chain: seq<Key>, doc: DocId, st: State): (Result<Node, RefError>, State)
    requires InScope(s, doc, AllRefs(node), chain)
    decreases Budget(s, chain), 1, node, 1
  {
    match RefText(node)
    case Some(ref) => ResolveRef(s, ref, chain, doc, st)
    case None =>
      match node
      case Mapping(_, values) =>
        var (r, st') := WalkAll(s, values, chain, doc, st);
        (Rewrap(node, r), st')
      case List(items) =>
        var (r, st') := WalkAll(s, items, chain, doc, st);
        (Rewrap(node, r), st')
      case _ => (Ok(node), st)
  }

  function WalkAll(s: Setup, nodes: seq<Node>, chain: seq<Key>, doc: DocId, st: State)
    : (Result<seq<Node>, RefError>, State)
    requires InScope(s, doc, AllRefsIn(nodes), chain)
    decreases Budget(s, chain), 1, nodes, 0
  {
    if nodes == [] then (Ok([]), st)
    else
      match Walk(s, nodes[0], chain, doc, st)
      case (Err(e), st1) => (Err(e), st1)
      case (Ok(first), st1) =>
        match WalkAll(s, nodes[1..], chain, doc, st1)
        case (Err(e), st2) => (Err(e), st2)
        case (Ok(rest), st2) => (Ok([first] + rest), st2)
  }

  /** The state in which a reference's target is walked. */
  function Open(s: Setup, key: Key, st: State): State
    requires s.Valid()
  {
    var st' := TouchFor(s, key.ref, st);
    st'.(expanded := st'.expanded + [key])
  }

  function Close(key: Key, r: Result<Node, RefError>, st: State): State {
    match r
    case Ok(v) => st.(cache := st.cache[key := v], order := st.order + [key])
    case Err(_) => st
  }

  /** `_resolve_ref` */
  function ResolveRef(s: Setup, ref: string, chain: seq<Key>, doc: DocId, st: State): (Result<Node, RefError>, State)
    requires InScope(s, doc, {ref}, chain)
    decreases Budget(s, chain), 0
  {
    var key := Key(doc, ref);
    if key in chain then (Ok(OpenObject), st.(warnings := st.warnings + [ref]))
    else if key in st.cache then (Ok(st.cache[key]), st)
    else
      var st0 := Open(s, key, st);
      match Locate(s, key)
      case Err(e) => (Err(e), st0)
      case Ok(to) =>
        BudgetDrops(s, chain, key);
        var (r, st1) := Walk(s, to.node, chain + [key], to.doc, st0);
        (r, Close(key, r, st1))
  }

  /** `resolve()` on a fresh resolver, before its assertion that the result is a mapping. */
  function Resolve(s: Setup): (Result<Node, RefError>, State)
    requires s.Valid()
  {
    Walk(s, s.contents[s.entry], [], s.entry, Initial)
  }

  /** The assertion at the end of `resolve()`. */
  function Checked(r: Result<Node, RefError>): Result<Node, RefError> {
    if r.Ok? && !r.value.Mapping? then Err(NotAMapping) else r
  }

  /** The resolver object. Its methods change the caches and the warnings in place. */
  class RefResolver {
    const setup: Setup
    var external: map<string, DocId>
    var resolved: map<Key, Node>
    var warnings: seq<string>
    ghost var expanded: seq<Key>
    ghost var order: seq<Key>
    ghost var fetched: seq<string>

    ghost predicate Valid()
      reads this
    {
      && setup.Valid()
      && forall t :: t in external ==> setup.Document(t) == Ok(external[t])
    }

    ghost function Snapshot(): State
      reads this
    {
      State(resolved, external, warnings, expanded, order, fetched)
    }

    constructor (setup: Setup)
      requires setup.Valid()
      ensures Valid() && this.setup == setup && Snapshot() == Initial
    {
      this.setup := setup;
      external, resolved, warnings := map[], map[], [];
      expanded, order, fetched := [], [], [];
    }

    method ResolveDocument() returns (r: Result<Node, RefError>)
      requires Valid() && Snapshot() == Initial
      modifies this
      ensures Valid() && (r, Snapshot()) == (Checked(Resolve(setup).0), Resolve(setup).1)
    {
      r := WalkNode(setup.contents[setup.entry], [], setup.entry);
      if r.Ok? && !r.value.Mapping? { return Err(NotAMapping); }
    }

    method ExternalDocument(target: string) returns (r: Result<DocId, RefError>)
      requires Valid()
      modifies this
      ensures Valid() && r == setup.Document(target)
      ensures Snapshot() == Touch(setup, target, old(Snapshot()))
    {
      if !setup.allowExternal {
        return Err(ExternalDisabled(target));
      }
      var host := setup.host(target);
      if host.Some? && host.value !in setup.allowedHosts {
        return Err(HostNotAllowed(target));
      }
      if setup.fetch.None? {
        assert target !in external;
        return Err(NoFetcher(target));
      }
      if target !in external {
        fetched := fetched + [target];
        var found := setup.fetch.value(target);
        if found.None? {
          return Err(FetchFailed(target));
        }
        external := external[target := found.value];
      }
      r := Ok(external[target]);
    }

    method WalkNode(node: Node, chain: seq<Key>, doc: DocId) returns (r: Result<Node, RefError>)
      requires Valid() && InScope(setup, doc, AllRefs(node), chain)
      modifies this
      ensures Valid()
      ensures (r, Snapshot()) == Walk(setup, node, chain, doc, old(Snapshot()))
      decreases Budget(setup, chain), 1, node, 1
    {
      match RefText(node)
      case Some(ref) =>
        r := ResolveReference(ref, chain, doc);
      case None =>
        match node
        case Mapping(_, values) =>
          var children := WalkChildren(values, chain, doc);
          r := Rewrap(node, children);
        case List(items) =>
          var children := WalkChildren(items, chain, doc);
          r := Rewrap(node, children);
        case _ =>
          r := Ok(node);
    }

    method WalkChildren(nodes: seq<Node>, chain: seq<Key>, doc: DocId) returns (r: Result<seq<Node>, RefError>)
      requires Valid() && InScope(setup, doc, AllRefsIn(nodes), chain)
      modifies this
      ensures Valid()
      ensures (r, Snapshot()) == WalkAll(setup, nodes, chain, doc, old(Snapshot()))
      decreases Budget(setup, chain), 1, nodes, 0
    {
      if nodes == [] {
        return Ok([]);
      }
      var first := WalkNode(nodes[0], chain, doc);
      if first.Err? {
        return Err(first.error);
      }
      var rest := WalkChildren(nodes[1..], chain, doc);
      r := if rest.Err? then rest else Ok([first.value] + rest.value);
    }

    /** The first half of a reference's expansion: its document, then its pointer. */
    method LocateReference(ref: string, doc: DocId) returns (r: Result<Located, RefError>)
      requires Valid() && doc in setup.contents
      modifies this
      ensures Valid() && r == Locate(setup, Key(doc, ref))
      ensures Snapshot() == TouchFor(setup, ref, old(Snapshot()))
    {
      var target := Text.Partition(ref, '#').0;
      var newRoot := doc;
      if target != "" {
        var found := ExternalDocument(target);
        if found.Err? {
          return Err(found.error);
        }
        newRoot := found.value;
      }
      var node := LookupPointer(setup.contents[newRoot], Pointer(ref), setup.index);
      r := if node.Err? then Err(BadPointer(node.error)) else Ok(Located(newRoot, node.value));
    }

    method ResolveReference(ref: string, chain: seq<Key>, doc: DocId) returns (r: Result<Node, RefError>)
      requires Valid() && InScope(setup, doc, {ref}, chain)
      modifies this
      ensures Valid()
      ensures (r, Snapshot()) == ResolveRef(setup, ref, chain, doc, old(Snapshot()))
      decreases Budget(setup, chain), 0
    {
      var key := Key(doc, ref);
      if key in chain {
        warnings := warnings + [ref];
        return Ok(OpenObject);
      }
      if key in resolved {
        return Ok(resolved[key]);
      }
      var to := LocateReference(ref, doc);
      expanded := expanded + [key];
      assert Snapshot() == Open(setup, key, old(Snapshot()));
      if to.Err? {
        return Err(to.error);
      }
      BudgetDrops(setup, chain, key);
      r := WalkNode(to.value.node, chain + [key], to.value.doc);
      ghost var st1 := Snapshot();
      if r.Ok? {
        resolved := resolved[key := r.value];
        order := order + [key];
      }
      assert Snapshot() == Close(key, r, st1);
    }
  }
}
