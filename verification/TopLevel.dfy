/** The assertion at the end of `resolve()`: when a resolved document is a mapping. */
module TopLevel {
  import opened Wrappers
  import opened Documents
  import opened Pointers
  import opened Refs

  /** The node at `at` is itself a reference, with this key. */
  ghost predicate Refers(at: Located, key: Key) {
    RefText(at.node) == Some(key.ref) && key.doc == at.doc
  }

  /** The references of `path` follow one another from `at`, each the whole node the one before leads to. */
  ghost predicate Follows(s: Setup, at: Located, path: seq<Key>, to: Located)
    requires s.Valid() && at.doc in s.contents
    decreases |path|
  {
    if path == [] then at == to
    else Refers(at, path[0]) && Locate(s, path[0]).Ok? && Follows(s, Locate(s, path[0]).value, path[1..], to)
  }

  /** They end at a node that is no mapping. */
  ghost predicate Falls(s: Setup, at: Located, path: seq<Key>)
    requires s.Valid() && at.doc in s.contents
    decreases |path|
  {
    if path == [] then !at.node.Mapping?
    else Refers(at, path[0]) && Locate(s, path[0]).Ok? && Falls(s, Locate(s, path[0]).value, path[1..])
  }

  lemma {:induction false} FallsOneWay(s: Setup, at: Located, p: seq<Key>, q: seq<Key>)
    requires s.Valid() && at.doc in s.contents && Falls(s, at, p) && Falls(s, at, q)
    ensures p == q
    decreases |p|
  {
    if p != [] && q != [] {
      assert p[0] == q[0];
      FallsOneWay(s, Locate(s, p[0]).value, p[1..], q[1..]);
    }
  }

  lemma {:induction false} FallsThrough(s: Setup, at: Located, path: seq<Key>, to: Located, p: seq<Key>)
    requires s.Valid() && at.doc in s.contents && Follows(s, at, path, to) && Falls(s, at, p)
    ensures to.doc in s.contents && |path| <= |p| && Falls(s, to, p[|path|..])
    decreases |path|
  {
    if path == [] {
      assert p[0..] == p;
    } else {
      assert p[0] == path[0];
      FallsThrough(s, Locate(s, path[0]).value, path[1..], to, p[1..]);
      assert p[1..][|path| - 1..] == p[|path|..];
    }
  }

  lemma {:induction false} FollowsSnoc(s: Setup, at: Located, path: seq<Key>, to: Located, key: Key)
    requires s.Valid() && at.doc in s.contents && Follows(s, at, path, to)
    requires to.doc in s.contents && Refers(to, key) && Locate(s, key).Ok?
    ensures Follows(s, at, path + [key], Locate(s, key).value)
    decreases |path|
  {
    if path == [] {
      assert [key][1..] == [];
    } else {
      FollowsSnoc(s, Locate(s, path[0]).value, path[1..], to, key);
      assert (path + [key])[1..] == path[1..] + [key];
    }
  }

  /** On a cycle of such references nothing falls out. */
  lemma {:induction false} CycleNeverFalls(s: Setup, at: Located, path: seq<Key>, to: Located, key: Key, p: seq<Key>)
    requires s.Valid() && at.doc in s.contents && to.doc in s.contents && Follows(s, at, path, to)
    requires key in path && Refers(to, key)
    ensures !Falls(s, to, p)
    decreases |path|
  {
    if path[0] == key {
      if Falls(s, to, p) {
        assert p[0] == key && Falls(s, at, p);
        FallsThrough(s, at, path, to, p);
        FallsOneWay(s, to, p, p[|path|..]);
      }
    } else {
      CycleNeverFalls(s, Locate(s, path[0]).value, path[1..], to, key, p);
    }
  }

  ghost predicate FallsOut(s: Setup, at: Located)
    requires s.Valid() && at.doc in s.contents
  {
    exists path :: Falls(s, at, path)
  }

  lemma FallsFromReference(s: Setup, at: Located, key: Key)
    requires s.Valid() && at.doc in s.contents && Refers(at, key) && Locate(s, key).Ok?
    ensures FallsOut(s, at) <==> FallsOut(s, Locate(s, key).value)
  {
    var to := Locate(s, key).value;
    if FallsOut(s, at) {
      var path :| Falls(s, at, path);
      assert path[0] == key && Falls(s, to, path[1..]);
    }
    if FallsOut(s, to) {
      var path :| Falls(s, to, path);
      assert ([key] + path)[1..] == path;
      assert Falls(s, at, [key] + path);
    }
  }

  lemma NoReferenceFalls(s: Setup, at: Located)
    requires s.Valid() && at.doc in s.contents && RefText(at.node).None?
    ensures FallsOut(s, at) <==> !at.node.Mapping?
  {
    assert Falls(s, at, []) <==> !at.node.Mapping?;
  }

  lemma WalkKeepsShape(s: Setup, chain: seq<Key>, at: Located, st: State)
    requires InScope(s, at.doc, AllRefs(at.node), chain) && RefText(at.node).None?
    ensures var r := Walk(s, at.node, chain, at.doc, st).0; r.Ok? ==> (r.value.Mapping? <==> at.node.Mapping?)
  {}

  lemma ReferenceWalks(s: Setup, chain: seq<Key>, at: Located, key: Key, st: State)
    requires InScope(s, at.doc, AllRefs(at.node), chain) && Refers(at, key) && key !in chain && key !in st.cache
    ensures Walk(s, at.node, chain, at.doc, st).0.Ok? ==>
      && Locate(s, key).Ok? && key in Universe(s)
      && var to := Locate(s, key).value;
         InScope(s, to.doc, AllRefs(to.node), chain + [key])
           && Walk(s, at.node, chain, at.doc, st).0 == Walk(s, to.node, chain + [key], to.doc, Open(s, key, st)).0
  {
    assert key == Key(at.doc, key.ref) && key.ref in AllRefs(at.node);
    assert Walk(s, at.node, chain, at.doc, st) == ResolveRef(s, key.ref, chain, at.doc, st);
    if Locate(s, key).Ok? { BudgetDrops(s, chain, key); }
  }

  lemma {:induction false} WalkFalls(s: Setup, from: Located, chain: seq<Key>, at: Located, st: State)
    requires InScope(s, at.doc, AllRefs(at.node), chain) && st.cache == map[]
    requires from.doc in s.contents && Follows(s, from, chain, at)
    ensures var r := Walk(s, at.node, chain, at.doc, st).0; r.Ok? ==> (!r.value.Mapping? <==> FallsOut(s, at))
    decreases Budget(s, chain)
  {
    if RefText(at.node).None? {
      NoReferenceFalls(s, at);
      WalkKeepsShape(s, chain, at, st);
    } else {
      var key := Key(at.doc, RefText(at.node).value);
      if key in chain {
        forall path ensures !Falls(s, at, path) { CycleNeverFalls(s, from, chain, at, key, path); }
      } else if Walk(s, at.node, chain, at.doc, st).0.Ok? {
        ReferenceWalks(s, chain, at, key, st);
        BudgetDrops(s, chain, key);
        FollowsSnoc(s, from, chain, at, key);
        FallsFromReference(s, at, key);
        WalkFalls(s, from, chain + [key], Locate(s, key).value, Open(s, key, st));
      }
    }
  }

  /** A run that succeeds otherwise fails the assertion exactly when the entry document is a reference
      that leads, through nothing but references, to a node that is no mapping. */
  lemma NotAMappingExactly(s: Setup)
    requires s.Valid() && Resolve(s).0.Ok?
    ensures Checked(Resolve(s).0) == Err(NotAMapping) <==> FallsOut(s, Located(s.entry, s.contents[s.entry]))
  {
    var top := Located(s.entry, s.contents[s.entry]);
    WalkFalls(s, top, [], top, Initial);
  }

  const TopReference := Mapping(["$ref", "x"], [Str("#/x"), Scalar(Boolean(true))])

  /** It fails for a document that is a reference to its own scalar member. */
  lemma TopLevelReferenceExample(s: Setup)
    requires s.Valid() && s.contents[s.entry] == TopReference
    ensures Checked(Resolve(s).0) == Err(NotAMapping)
  {
    var to := Scalar(Boolean(true));
    assert TopReference.keys[1] == "x" && TopReference.keys[..1] == ["$ref"];
    assert FirstAt(TopReference.keys, TopReference.values, "x", to, 1);
    assert Child(TopReference, "x", s.index, to) && Leads(to, [], s.index, to);
    assert ["x"][1..] == [];
    assert Leads(TopReference, ["x"], s.index, to);
    assert Escape("x") == "x" by { assert "x"[1..] == "" && "x" + "" == "x"; }
    assert Escapes(["x"]) == ["x"] && "" + PointerText(["x"]) == "#/x";
    LocatesExactly(s, s.entry, "", ["x"], Located(s.entry, to));
    assert RefText(TopReference) == Some("#/x");
    TopReferenceResolves(s);
  }

  lemma TopReferenceResolves(s: Setup)
    requires s.Valid() && s.contents[s.entry] == TopReference && RefText(TopReference) == Some("#/x")
    requires Locate(s, Key(s.entry, "#/x")) == Ok(Located(s.entry, Scalar(Boolean(true))))
    ensures Resolve(s).0 == Ok(Scalar(Boolean(true)))
  {
    var to, key := Scalar(Boolean(true)), Key(s.entry, "#/x");
    var st0 := Open(s, key, Initial);
    assert "#/x" in AllRefs(TopReference);
    assert key in Universe(s);
    assert InScope(s, s.entry, AllRefs(to), [] + [key]);
    assert Walk(s, to, [] + [key], s.entry, st0) == (Ok(to), st0);
    assert ResolveRef(s, "#/x", [], s.entry, Initial).0 == Ok(to);
  }
}
