/** What a second `configure` run writes: the file is read back, compared with the same import, and
    reconciled with any answers. */
module SecondRun {
  import opened Wrappers
  import opened Operations
  import opened Ordering
  import opened ConfigFile
  import opened ConfigTheorems
  import opened Survey
  import B = Bindings

  // ---- When two lists of decisions make one file

  /** The file says the same about both. */
  ghost predicate SameEntry(d: Decision, e: Decision) {
    && d.exposed == e.exposed
    && (d.exposed ==>
          d.operation.binding.Http? && e.operation.binding.Http? && WriteEntry(d) == WriteEntry(e))
  }

  ghost predicate Agree(ds: seq<Decision>, es: seq<Decision>) {
    forall d, e :: d in ds && e in es && IdOf(d) == IdOf(e) ==> SameEntry(d, e)
  }

  ghost predicate SameIds(ds: seq<Decision>, es: seq<Decision>) {
    forall id :: id in Ids(ds) <==> id in Ids(es)
  }

  /** The decision of the other list about the same operation. */
  lemma Partner(ds: seq<Decision>, es: seq<Decision>, d: Decision) returns (e: Decision)
    requires SameIds(ds, es) && d in ds
    ensures e in es && IdOf(e) == IdOf(d)
  {
    var i :| 0 <= i < |ds| && ds[i] == d;
    assert Ids(ds)[i] in Ids(ds) && Ids(ds)[i] in Ids(es);
    var k :| 0 <= k < |Ids(es)| && Ids(es)[k] == Ids(ds)[i];
    e := es[k];
  }

  lemma SortedIds(xs: seq<Decision>)
    requires Sorted(IdOf, xs) && OncePerId(xs)
    ensures Ascending(Ids(xs))
  {
    forall i, j | 0 <= i < j < |xs| ensures Before(Ids(xs)[i], Ids(xs)[j]) && Ids(xs)[i] != Ids(xs)[j] {
      assert Before(IdOf(xs[i]), IdOf(xs[j])) && IdOf(xs[i]) != IdOf(xs[j]);
    }
  }

  /** What agrees is written at the same places. */
  lemma WrittenAtOnePlace(ds: seq<Decision>, es: seq<Decision>)
    requires OncePerId(ds) && OncePerId(es) && SameIds(ds, es) && Agree(ds, es)
    ensures Ids(Written(ds)) == Ids(Written(es))
  {
    var xs, ys := Written(ds), Written(es);
    WrittenIs(ds);
    WrittenIs(es);
    WrittenOnce(ds);
    WrittenOnce(es);
    SortedIds(xs);
    SortedIds(ys);
    AgreeIsSymmetric(ds, es);
    forall id | id in Ids(xs) ensures id in Ids(ys) { OneWritesTheOther(ds, es, id); }
    forall id | id in Ids(ys) ensures id in Ids(xs) { OneWritesTheOther(es, ds, id); }
    AscendingUnique(Ids(xs), Ids(ys));
  }

  lemma WrittenIds(ds: seq<Decision>, id: string)
    ensures id in Ids(Written(ds)) <==> exists d :: d in ds && d.exposed && IdOf(d) == id
  {
    var xs := Written(ds);
    WrittenIs(ds);
    if id in Ids(xs) {
      var i :| 0 <= i < |Ids(xs)| && Ids(xs)[i] == id;
      assert xs[i] in xs && IdOf(xs[i]) == id;
    }
    if d :| d in ds && d.exposed && IdOf(d) == id {
      assert d in xs;
      var i :| 0 <= i < |xs| && xs[i] == d;
      assert Ids(xs)[i] == id;
    }
  }

  lemma OneWritesTheOther(ds: seq<Decision>, es: seq<Decision>, id: string)
    requires SameIds(ds, es) && Agree(ds, es) && id in Ids(Written(ds))
    ensures id in Ids(Written(es))
  {
    WrittenIds(ds, id);
    WrittenIds(es, id);
    var d :| d in ds && d.exposed && IdOf(d) == id;
    var e := Partner(ds, es, d);
    assert SameEntry(d, e);
  }

  lemma AgreeIsSymmetric(ds: seq<Decision>, es: seq<Decision>)
    requires Agree(ds, es) && SameIds(ds, es)
    ensures Agree(es, ds) && SameIds(es, ds)
  {
    forall d, e | d in ds && e in es && IdOf(d) == IdOf(e) ensures SameEntry(e, d) { assert SameEntry(d, e); }
  }

  lemma AgreeingIsSameFile(ds: seq<Decision>, es: seq<Decision>)
    requires OncePerId(ds) && OncePerId(es) && SameIds(ds, es) && Agree(ds, es) && Render(ds).Ok?
    ensures Render(es) == Render(ds)
  {
    var xs, ys := Written(ds), Written(es);
    WrittenIs(ds);
    WrittenIs(es);
    WrittenAtOnePlace(ds, es);
    assert |Ids(xs)| == |xs| && |Ids(ys)| == |ys|;
    forall i | 0 <= i < |ys| ensures Writable(ys[i]) && WriteEntry(ys[i]) == WriteEntry(xs[i]) {
      assert Ids(xs)[i] == IdOf(xs[i]) && Ids(ys)[i] == IdOf(ys[i]);
      assert xs[i] in xs && ys[i] in ys;
      assert SameEntry(xs[i], ys[i]);
    }
    assert Entries(ys) == Entries(xs);
  }

  lemma SameFileAgrees(ds: seq<Decision>, es: seq<Decision>)
    requires OncePerId(ds) && OncePerId(es) && Render(ds).Ok? && Render(es) == Render(ds)
    ensures Agree(ds, es)
  {
    var xs, ys := Written(ds), Written(es);
    WrittenIs(ds);
    WrittenIs(es);
    OnceMeansDistinct(ds);
    OnceMeansDistinct(es);
    assert Entries(xs) == Entries(ys);
    forall d, e | d in ds && e in es && IdOf(d) == IdOf(e) ensures SameEntry(d, e) {
      if d.exposed {
        var k :| 0 <= k < |xs| && xs[k] == d;
        SameFileAt(xs, ys, k);
        assert ys[k] in ys && ys[k] == e;
      }
      if e.exposed {
        var k :| 0 <= k < |ys| && ys[k] == e;
        assert |xs| == |Entries(xs)| == |ys|;
        SameFileAt(xs, ys, k);
        assert xs[k] in xs && xs[k] == d;
      }
    }
  }

  lemma SameFileAt(xs: seq<Decision>, ys: seq<Decision>, k: nat)
    requires AllWritable(xs) && AllWritable(ys) && Entries(xs) == Entries(ys) && k < |xs|
    ensures |ys| == |xs| && Writable(xs[k]) && Writable(ys[k])
    ensures WriteEntry(xs[k]) == WriteEntry(ys[k]) && IdOf(xs[k]) == IdOf(ys[k])
  {
    assert |Entries(xs)| == |xs| && |Entries(ys)| == |ys|;
    assert Entries(xs)[k] == WriteEntry(xs[k]) && Entries(ys)[k] == WriteEntry(ys[k]);
  }

  // ---- The second run

  /** The file of `ds` as it is read back. */
  ghost function Previous(ds: seq<Decision>, policy: Requires): map<string, Decision>
    requires OncePerId(ds) && Render(ds).Ok?
  {
    WrittenCanBeRead(ds, policy);
    ReadAll(Render(ds).value, policy).value
  }

  /** The report of the second run. */
  ghost predicate SecondReport(r: Report, ds: seq<Decision>, policy: Requires) {
    && OncePerId(ds) && Render(ds).Ok?
    && ReportOf(r, Previous(ds, policy), OperationsOf(ds))
  }

  /** What is decided by the end of it. */
  ghost function Second(ds: seq<Decision>, policy: Requires, r: Report, a: Answers): seq<Decision>
    requires SecondReport(r, ds, policy)
  {
    Reconciled(r, Previous(ds, policy), ById(OperationsOf(ds)), a).0
  }

  /** The decisions the survey makes in it. */
  ghost function Asked(ds: seq<Decision>, policy: Requires, r: Report, a: Answers): seq<Decision>
    requires SecondReport(r, ds, policy)
  {
    Ask(Pick(r.added + r.changed, ById(OperationsOf(ds))), a, Restrict(Previous(ds, policy), r.changed)).0
  }

  lemma PreviousIs(ds: seq<Decision>, policy: Requires)
    requires OncePerId(ds) && Render(ds).Ok?
    ensures KeyedById(Previous(ds, policy))
    ensures forall d :: d in ds && d.exposed ==>
      && IdOf(d) in Previous(ds, policy) && Writable(d)
      && Previous(ds, policy)[IdOf(d)] == ReadEntry(WriteEntry(d), policy)
  {
    var xs, previous := Written(ds), Previous(ds, policy);
    WrittenCanBeRead(ds, policy);
    WrittenIs(ds);
    WrittenOnce(ds);
    OnceMeansDistinct(xs);
    ReadsEntries(xs, policy);
    assert forall d :: d in xs ==> Writable(d);
    forall id | id in previous ensures IdOf(previous[id]) == id {
      var d :| d in xs && IdOf(d) == id;
      ReadsItsBinding(d, policy);
    }
  }

  /** Its operation is new to the second run, having been declined, or changed. */
  ghost predicate AskedAbout(d: Decision) {
    !(d.exposed && CanonicalDecision(d))
  }

  lemma KeptOf(ds: seq<Decision>, policy: Requires, r: Report, d: Decision, e: Decision)
    requires SecondReport(r, ds, policy) && d in ds && e in Pick(r.same, Previous(ds, policy)) && IdOf(e) == IdOf(d)
    ensures IdOf(d) in r.same
    ensures Writable(d) && CanonicalDecision(d) ==> e == ReadEntry(WriteEntry(d), policy)
  {
    PreviousIs(ds, policy);
    var k :| 0 <= k < |r.same| && Pick(r.same, Previous(ds, policy))[k] == e;
    assert r.same[k] in r.same && IdOf(e) == r.same[k];
  }

  lemma AskedOf(ds: seq<Decision>, policy: Requires, r: Report, a: Answers, e: Decision)
    requires SecondReport(r, ds, policy) && e in Asked(ds, policy, r, a)
    ensures IdOf(e) in r.added + r.changed && IdOf(e) in ById(OperationsOf(ds))
    ensures e.operation == ById(OperationsOf(ds))[IdOf(e)] && e.effect == e.operation.effect
  {
    var ids, now := r.added + r.changed, ById(OperationsOf(ds));
    ByIdKeepsIds(OperationsOf(ds));
    SurveyedIds(ids, now, a, Restrict(Previous(ds, policy), r.changed));
    var k :| 0 <= k < |ids| && Pick(ids, now)[k] == e.operation;
    assert ids[k] in ids;
  }

  /** What the second run decides about the operation of `d`: an unchanged one is read back, any
      other is asked about. */
  lemma SecondOf(ds: seq<Decision>, policy: Requires, r: Report, a: Answers, d: Decision, e: Decision)
    requires SecondReport(r, ds, policy) && d in ds && e in Second(ds, policy, r, a) && IdOf(e) == IdOf(d)
    ensures Writable(d) && CanonicalDecision(d) ==> e == ReadEntry(WriteEntry(d), policy)
    ensures AskedAbout(d) ==>
      e in Asked(ds, policy, r, a) && e.operation == d.operation && e.effect == d.operation.effect
  {
    var kept, asked := Pick(r.same, Previous(ds, policy)), Asked(ds, policy, r, a);
    WrittenCanBeRead(ds, policy);
    WriteReadDiff(ds, policy, r);
    if e in kept {
      KeptOf(ds, policy, r, d, e);
    } else {
      assert e in asked;
      AskedOf(ds, policy, r, a, e);
      ByIdFinds(ds);
      assert IdOf(d) in r.added || IdOf(d) in r.changed;
    }
  }

  lemma SecondIds(ds: seq<Decision>, policy: Requires, r: Report, a: Answers)
    requires SecondReport(r, ds, policy)
    ensures OncePerId(Second(ds, policy, r, a)) && SameIds(ds, Second(ds, policy, r, a))
  {
    var es, ids := Second(ds, policy, r, a), r.same + r.added + r.changed;
    PreviousIs(ds, policy);
    ReconcileDecidesEachOnce(OperationsOf(ds), Previous(ds, policy), r, a);
    ReportCoversCurrent(OperationsOf(ds), Previous(ds, policy), r);
    ByIdFinds(ds);
    forall id ensures id in Ids(es) <==> id in ids {
      assert id in multiset(Ids(es)) <==> id in multiset(ids);
    }
    IdsMeanDecisions(ds, es, ids);
  }

  lemma SameMembers(a: seq<string>, b: seq<string>)
    requires multiset(a) == multiset(b)
    ensures forall x :: x in a <==> x in b
  {
    forall x ensures x in a <==> x in b { assert x in multiset(a) <==> x in multiset(b); }
  }

  lemma IdsMeanDecisions(ds: seq<Decision>, es: seq<Decision>, ids: seq<string>)
    requires multiset(Ids(es)) == multiset(ids) && NoDup(ids)
    requires forall id :: id in ids <==> exists d :: d in ds && IdOf(d) == id
    ensures OncePerId(es) && SameIds(ds, es)
  {
    SameMembers(Ids(es), ids);
    DecisionIds(ds);
    forall i, j | 0 <= i < j < |es| ensures IdOf(es[i]) != IdOf(es[j]) {
      var id := Ids(es)[i];
      TwiceMeansRepeated(Ids(es), id);
      TwiceMeansRepeated(ids, id);
      assert Ids(es)[j] == IdOf(es[j]);
    }
  }

  lemma DecisionIds(ds: seq<Decision>)
    ensures forall id :: id in Ids(ds) <==> exists d :: d in ds && IdOf(d) == id
  {
    forall id | id in Ids(ds) ensures exists d :: d in ds && IdOf(d) == id {
      var i :| 0 <= i < |Ids(ds)| && Ids(ds)[i] == id;
      assert ds[i] in ds;
    }
    forall d | d in ds ensures IdOf(d) in Ids(ds) {
      var i :| 0 <= i < |ds| && ds[i] == d;
      assert Ids(ds)[i] == IdOf(d);
    }
  }

  // ---- When the second file is the first

  /** Asked about again, an operation is decided as it was. */
  ghost predicate DecidedAgain(d: Decision, e: Decision) {
    && e.exposed == d.exposed
    && (d.exposed ==> d.effect == d.operation.effect && e.sensitivity == d.sensitivity)
  }

  /** Every unchanged operation kept its title, and each one asked about is decided as it was. */
  ghost predicate Repeated(ds: seq<Decision>, asked: seq<Decision>) {
    && (forall d :: d in ds && !AskedAbout(d) ==> TitleKept(d.operation))
    && (forall d, e | d in ds && AskedAbout(d) && e in asked && IdOf(e) == IdOf(d) :: DecidedAgain(d, e))
  }

  lemma ReadBackSame(d: Decision, policy: Requires)
    requires Writable(d) && CanonicalDecision(d)
    ensures SameEntry(d, ReadEntry(WriteEntry(d), policy)) <==> TitleKept(d.operation)
  {
    RoundTripExactly(d, policy);
    ReadsItsBinding(d, policy);
  }

  lemma AskedSame(d: Decision, e: Decision)
    requires (d.exposed ==> Writable(d)) && e.operation == d.operation && e.effect == d.operation.effect
    ensures SameEntry(d, e) <==> DecidedAgain(d, e)
  {}

  /** Whatever is answered, the second run writes the first file again exactly when every unchanged
      operation kept its title and each one asked about, declined or changed, is decided as it was. */
  lemma SecondRunExactly(ds: seq<Decision>, policy: Requires, r: Report, a: Answers)
    requires SecondReport(r, ds, policy)
    ensures Render(Second(ds, policy, r, a)) == Render(ds) <==>
      Repeated(ds, Asked(ds, policy, r, a))
  {
    var es := Second(ds, policy, r, a);
    SecondIds(ds, policy, r, a);
    PreviousIs(ds, policy);
    if Render(es) == Render(ds) { SameFileAgrees(ds, es); }
    if Agree(ds, es) { AgreeingIsSameFile(ds, es); }
    AgreesExactly(ds, policy, r, a);
  }

  lemma PairAgrees(ds: seq<Decision>, policy: Requires, r: Report, a: Answers, d: Decision, e: Decision)
    requires SecondReport(r, ds, policy) && d in ds && e in Second(ds, policy, r, a) && IdOf(e) == IdOf(d)
    ensures SameEntry(d, e) <==> if AskedAbout(d) then DecidedAgain(d, e) else TitleKept(d.operation)
    ensures AskedAbout(d) ==> e in Asked(ds, policy, r, a)
  {
    PreviousIs(ds, policy);
    SecondOf(ds, policy, r, a, d, e);
    if AskedAbout(d) {
      AskedSame(d, e);
    } else {
      ReadBackSame(d, policy);
    }
  }

  lemma AgreesExactly(ds: seq<Decision>, policy: Requires, r: Report, a: Answers)
    requires SecondReport(r, ds, policy)
    ensures Agree(ds, Second(ds, policy, r, a)) <==> Repeated(ds, Asked(ds, policy, r, a))
  {
    var es, asked := Second(ds, policy, r, a), Asked(ds, policy, r, a);
    assert forall e :: e in asked ==> e in es;
    if Agree(ds, es) {
      SecondIds(ds, policy, r, a);
      forall d | d in ds && !AskedAbout(d) ensures TitleKept(d.operation) {
        var e := Partner(ds, es, d);
        PairAgrees(ds, policy, r, a, d, e);
      }
      forall d, e | d in ds && AskedAbout(d) && e in asked && IdOf(e) == IdOf(d) ensures DecidedAgain(d, e) {
        PairAgrees(ds, policy, r, a, d, e);
      }
    }
    if Repeated(ds, asked) {
      forall d, e | d in ds && e in es && IdOf(d) == IdOf(e) ensures SameEntry(d, e) {
        PairAgrees(ds, policy, r, a, d, e);
      }
    }
  }

  // ---- Answered with every default

  lemma {:induction false} AcceptAllConcat(a: seq<Operation>, b: seq<Operation>, defaults: map<string, Decision>)
    ensures AcceptAll(a + b, defaults) == AcceptAll(a, defaults) + AcceptAll(b, defaults)
  {
    if a == [] {
      assert a + b == b;
    } else {
      assert (a + b)[1..] == a[1..] + b;
      AcceptAllConcat(a[1..], b, defaults);
    }
  }

  lemma {:induction false} DefaultsAcceptAll(ops: seq<Operation>, defaults: map<string, Decision>)
    ensures AskOrdered(ops, Answers([], []), defaults).0 == AcceptAll(ops, defaults)
    decreases |ops|
  {
    if ops != [] {
      var n := RunLength(ops);
      DefaultsAcceptAll(ops[n..], defaults);
      AcceptAllConcat(ops[..n], ops[n..], defaults);
      assert ops[..n] + ops[n..] == ops;
    }
  }

  lemma {:induction false} AcceptsEach(ops: seq<Operation>, defaults: map<string, Decision>)
    ensures forall e :: e in AcceptAll(ops, defaults) ==> e == Accepted(e.operation, defaults)
  {
    if ops != [] { AcceptsEach(ops[1..], defaults); }
  }

  /** With every default, each operation asked about comes out exposed, a changed one with the
      sensitivity it had. */
  lemma DefaultsExpose(ds: seq<Decision>, policy: Requires, r: Report, d: Decision, e: Decision)
    requires SecondReport(r, ds, policy) && d in ds && AskedAbout(d)
    requires e in Asked(ds, policy, r, Answers([], [])) && IdOf(e) == IdOf(d)
    ensures e.exposed && (d.exposed ==> e.sensitivity == d.sensitivity)
  {
    var asked := SortBy(TagOf, Pick(r.added + r.changed, ById(OperationsOf(ds))));
    var defaults := Restrict(Previous(ds, policy), r.changed);
    DefaultsAcceptAll(asked, defaults);
    AcceptsEach(asked, defaults);
    if d.exposed {
      PreviousIs(ds, policy);
      WrittenCanBeRead(ds, policy);
      WriteReadDiff(ds, policy, r);
      ReadsItsBinding(d, policy);
    }
  }

  /** Answered with every default, the second run writes the first file again exactly when nothing
      was declined, every unchanged operation kept its title, and no changed one had its effect
      overridden. */
  lemma DefaultSecondRunExactly(ds: seq<Decision>, policy: Requires, r: Report)
    requires SecondReport(r, ds, policy)
    ensures Render(Second(ds, policy, r, Answers([], []))) == Render(ds) <==>
      forall d :: d in ds ==>
        d.exposed && if CanonicalDecision(d) then TitleKept(d.operation) else d.effect == d.operation.effect
  {
    var a := Answers([], []);
    SecondRunExactly(ds, policy, r, a);
    forall d | d in ds && AskedAbout(d)
      ensures exists e :: e in Asked(ds, policy, r, a) && IdOf(e) == IdOf(d)
      ensures forall e :: e in Asked(ds, policy, r, a) && IdOf(e) == IdOf(d) ==>
        (DecidedAgain(d, e) <==> d.exposed && d.effect == d.operation.effect)
    {
      SecondIds(ds, policy, r, a);
      var e := Partner(ds, Second(ds, policy, r, a), d);
      SecondOf(ds, policy, r, a, d, e);
      forall e | e in Asked(ds, policy, r, a) && IdOf(e) == IdOf(d)
        ensures DecidedAgain(d, e) <==> d.exposed && d.effect == d.operation.effect
      {
        DefaultsExpose(ds, policy, r, d, e);
      }
    }
  }

  /** Where nothing is declined, changed or retitled, nothing is asked, and no answer can make a difference. */
  lemma StableRunsAgain(ds: seq<Decision>, policy: Requires, r: Report, a: Answers)
    requires SecondReport(r, ds, policy) && forall d :: d in ds ==> Stable(d)
    ensures Render(Second(ds, policy, r, a)) == Render(ds) && Asked(ds, policy, r, a) == []
  {
    SecondRunExactly(ds, policy, r, a);
    WrittenCanBeRead(ds, policy);
    WriteReadDiff(ds, policy, r);
    EmptyOrHas(r.added);
    EmptyOrHas(r.changed);
  }

  const Listing :=
    Operation("a", "u", "", "List", "Lists all", [], ReadOnly, Normal, map[],
              Http(B.Binding("GET", "/a", [], None)), map[])

  const Declined := Decision(Listing, false, ReadOnly, Normal, None)

  /** An operation that was declined is new to the second run, and the defaults expose it. */
  lemma DeclinedExample(policy: Requires)
    ensures var r := Report(["a"], [], [], []);
      && Render([Declined]) == Ok([]) && SecondReport(r, [Declined], policy)
      && Render(Second([Declined], policy, r, Answers([], []))) != Render([Declined])
  {
    var ds, r := [Declined], Report(["a"], [], [], []);
    var ops := OperationsOf(ds);
    assert ops == [Listing] && ops[..0] == [] && ById([]) == map[];
    assert ById(ops) == map["a" := Listing];
    assert ds[1..] == [] && SortBy(IdOf, ds) == ds;
    assert WriteAll(ds) == Ok([]);
    assert Previous(ds, policy) == map[];
    assert "a" in ["a"];
    DefaultSecondRunExactly(ds, policy, r);
    assert Declined in ds;
  }
}
