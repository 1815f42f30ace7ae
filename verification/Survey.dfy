/** The survey of operations and the reconciliation with earlier decisions, for any answers. */
module Survey {
  import opened Wrappers
  import opened Operations
  import opened Ordering
  import opened ConfigFile

  /** The answers still to come; when they run out, every question gets its default. */
  datatype Answers = Answers(confirms: seq<bool>, texts: seq<string>)

  function NextConfirm(a: Answers, byDefault: bool): (bool, Answers) {
    if a.confirms == [] then (byDefault, a) else (a.confirms[0], a.(confirms := a.confirms[1..]))
  }

  function NextText(a: Answers, byDefault: string): (string, Answers) {
    if a.texts == [] then (byDefault, a) else (a.texts[0], a.(texts := a.texts[1..]))
  }

  class Prompter {
    var answers: Answers

    constructor (answers: Answers)
      ensures this.answers == answers
    {
      this.answers := answers;
    }

    method Confirm(byDefault: bool) returns (answer: bool)
      modifies this
      ensures (answer, answers) == NextConfirm(old(answers), byDefault)
    {
      answer := byDefault;
      if answers.confirms != [] {
        answer := answers.confirms[0];
        answers := answers.(confirms := answers.confirms[1..]);
      }
    }

    method Text(byDefault: string) returns (answer: string)
      modifies this
      ensures (answer, answers) == NextText(old(answers), byDefault)
    {
      answer := byDefault;
      if answers.texts != [] {
        answer := answers.texts[0];
        answers := answers.(texts := answers.texts[1..]);
      }
    }
  }

  const UNGROUPED_TAG := "(ungrouped)"

  function TagOf(op: Operation): string {
    if op.groupTags != [] then op.groupTags[0] else UNGROUPED_TAG
  }

  function DefaultFor(op: Operation, defaults: map<string, Decision>): Decision {
    if op.id in defaults then defaults[op.id] else Decision(op, true, op.effect, op.sensitivity, None)
  }

  function Accepted(op: Operation, defaults: map<string, Decision>): Decision {
    var byDefault := DefaultFor(op, defaults);
    Decision(op, true, op.effect, byDefault.sensitivity, if op.effect.ReadOnly? then None else byDefault.require)
  }

  function AskRequire(op: Operation, byDefault: Option<RequiredDetail>, a: Answers): (Option<RequiredDetail>, Answers) {
    if op.effect.ReadOnly? then (None, a)
    else
      var (attach, a1) := NextConfirm(a, byDefault.Some?);
      if !attach then (None, a1)
      else
        var (text, a2) := NextText(a1, if byDefault.Some? then byDefault.value.detailType else "");
        (if text == "" then None else Some(RequiredDetail(text, [])), a2)
  }

  function AskOne(op: Operation, a: Answers, defaults: map<string, Decision>): (Decision, Answers) {
    var byDefault := DefaultFor(op, defaults);
    var (exposed, a1) := NextConfirm(a, byDefault.exposed);
    if !exposed then (Decision(op, false, op.effect, byDefault.sensitivity, None), a1)
    else
      var (sensitive, a2) := NextConfirm(a1, byDefault.sensitivity.Sensitive?);
      var (require, a3) := AskRequire(op, byDefault.require, a2);
      (Decision(op, true, op.effect, if sensitive then Sensitive else Normal, require), a3)
  }

  method SurveyOne(op: Operation, prompter: Prompter, defaults: map<string, Decision>) returns (d: Decision)
    modifies prompter
    ensures (d, prompter.answers) == AskOne(op, old(prompter.answers), defaults)
  {
    var byDefault := DefaultFor(op, defaults);
    var exposed := prompter.Confirm(byDefault.exposed);
    if !exposed { return Decision(op, false, op.effect, byDefault.sensitivity, None); }
    var markSensitive := prompter.Confirm(byDefault.sensitivity == Sensitive);
    var sensitivity := if markSensitive then Sensitive else Normal;
    var require := byDefault.require;
    if op.effect != ReadOnly {
      var attach := prompter.Confirm(byDefault.require.Some?);
      if attach {
        var detailType := prompter.Text(if byDefault.require.Some? then byDefault.require.value.detailType else "");
        require := if detailType != "" then Some(RequiredDetail(detailType, [])) else None;
      } else {
        require := None;
      }
    } else {
      require := None;
    }
    return Decision(op, true, op.effect, sensitivity, require);
  }

  function AcceptAll(group: seq<Operation>, defaults: map<string, Decision>): seq<Decision> {
    if group == [] then [] else [Accepted(group[0], defaults)] + AcceptAll(group[1..], defaults)
  }

  function AskAll(group: seq<Operation>, a: Answers, defaults: map<string, Decision>): (seq<Decision>, Answers) {
    if group == [] then ([], a)
    else
      var (d, a1) := AskOne(group[0], a, defaults);
      var (ds, a2) := AskAll(group[1..], a1, defaults);
      ([d] + ds, a2)
  }

  function AskGroup(group: seq<Operation>, a: Answers, defaults: map<string, Decision>): (seq<Decision>, Answers) {
    var (acceptAll, a1) := NextConfirm(a, true);
    if acceptAll then (AcceptAll(group, defaults), a1) else AskAll(group, a1, defaults)
  }

  /** The length of the first run of equal tags. */
  function RunLength(ops: seq<Operation>): (n: nat)
    requires ops != []
    ensures 1 <= n <= |ops|
  {
    if |ops| > 1 && TagOf(ops[1]) == TagOf(ops[0]) then 1 + RunLength(ops[1..]) else 1
  }

  function AskOrdered(ops: seq<Operation>, a: Answers, defaults: map<string, Decision>): (seq<Decision>, Answers)
    decreases |ops|
  {
    if ops == [] then ([], a)
    else
      var n := RunLength(ops);
      var (ds, a1) := AskGroup(ops[..n], a, defaults);
      var (rest, a2) := AskOrdered(ops[n..], a1, defaults);
      (ds + rest, a2)
  }

  function Ask(ops: seq<Operation>, a: Answers, defaults: map<string, Decision>): (seq<Decision>, Answers) {
    AskOrdered(SortBy(TagOf, ops), a, defaults)
  }

  function After(ds: seq<Decision>, r: (seq<Decision>, Answers)): (seq<Decision>, Answers) {
    (ds + r.0, r.1)
  }

  lemma AfterTwice(a: seq<Decision>, b: seq<Decision>, r: (seq<Decision>, Answers))
    ensures After([], r) == r && After(a, After(b, r)) == After(a + b, r)
  {
    assert [] + r.0 == r.0 && a + (b + r.0) == a + b + r.0;
  }

  method AcceptEach(group: seq<Operation>, defaults: map<string, Decision>) returns (ds: seq<Decision>)
    ensures ds == AcceptAll(group, defaults)
  {
    ds := [];
    assert group[0..] == group;
    for i := 0 to |group|
      invariant AcceptAll(group, defaults) == ds + AcceptAll(group[i..], defaults)
    {
      assert group[i..][1..] == group[i + 1..];
      var op, byDefault := group[i], DefaultFor(group[i], defaults);
      var require := if op.effect != ReadOnly then byDefault.require else None;
      ds := ds + [Decision(op, true, op.effect, byDefault.sensitivity, require)];
    }
  }

  method AskEach(group: seq<Operation>, prompter: Prompter, defaults: map<string, Decision>) returns (ds: seq<Decision>)
    modifies prompter
    ensures (ds, prompter.answers) == AskAll(group, old(prompter.answers), defaults)
  {
    ds := [];
    assert group[0..] == group;
    AfterTwice([], [], AskAll(group, prompter.answers, defaults));
    for i := 0 to |group|
      invariant AskAll(group, old(prompter.answers), defaults) ==
        After(ds, AskAll(group[i..], prompter.answers, defaults))
    {
      assert group[i..][1..] == group[i + 1..];
      var d := SurveyOne(group[i], prompter, defaults);
      AfterTwice(ds, [d], AskAll(group[i + 1..], prompter.answers, defaults));
      ds := ds + [d];
    }
    assert ds + [] == ds;
  }

  method SurveyGroup(group: seq<Operation>, prompter: Prompter, defaults: map<string, Decision>)
    returns (ds: seq<Decision>)
    modifies prompter
    ensures (ds, prompter.answers) == AskGroup(group, old(prompter.answers), defaults)
  {
    var acceptAll := prompter.Confirm(true);
    if acceptAll {
      ds := AcceptEach(group, defaults);
    } else {
      ds := AskEach(group, prompter, defaults);
    }
  }

  method FindRun(ops: seq<Operation>) returns (n: nat)
    requires ops != []
    ensures n == RunLength(ops)
  {
    n := 1;
    while n < |ops| && TagOf(ops[n]) == TagOf(ops[0])
      invariant 1 <= n <= |ops| && RunLength(ops) == n - 1 + RunLength(ops[n - 1..])
      invariant TagOf(ops[n - 1]) == TagOf(ops[0])
    {
      assert ops[n - 1..][1..] == ops[n..];
      n := n + 1;
    }
  }

  method RunSurvey(ops: seq<Operation>, prompter: Prompter, defaults: map<string, Decision>) returns (ds: seq<Decision>)
    modifies prompter
    ensures (ds, prompter.answers) == Ask(ops, old(prompter.answers), defaults)
  {
    var rest := SortBy(TagOf, ops);
    ds := [];
    AfterTwice([], [], AskOrdered(rest, prompter.answers, defaults));
    while rest != []
      invariant Ask(ops, old(prompter.answers), defaults) == After(ds, AskOrdered(rest, prompter.answers, defaults))
      decreases |rest|
    {
      var n := FindRun(rest);
      var more := SurveyGroup(rest[..n], prompter, defaults);
      AfterTwice(ds, more, AskOrdered(rest[n..], prompter.answers, defaults));
      ds, rest := ds + more, rest[n..];
    }
    assert ds + [] == ds;
  }

  // ---- Reconciling

  function Pick<T>(ids: seq<string>, m: map<string, T>): (r: seq<T>)
    requires forall id :: id in ids ==> id in m
    ensures |r| == |ids| && forall i :: 0 <= i < |ids| ==> r[i] == m[ids[i]]
  {
    seq(|ids|, i requires 0 <= i < |ids| => m[ids[i]])
  }

  function Restrict(m: map<string, Decision>, ids: seq<string>): map<string, Decision> {
    map id | id in m && id in ids :: m[id]
  }

  /** The decisions that a report leads to, and the answers left. */
  function Reconciled(r: Report, previous: map<string, Decision>, now: map<string, Operation>,
          a: Answers)
    : (seq<Decision>, Answers)
    requires (forall id :: id in r.same ==> id in previous) && (forall id :: id in r.added + r.changed ==> id in now)
  {
    var (surveyed, left) := Ask(Pick(r.added + r.changed, now), a, Restrict(previous, r.changed));
    (Pick(r.same, previous) + surveyed, left)
  }

  method RunReconcile(current: seq<Operation>, previous: map<string, Decision>, prompter: Prompter)
    returns (ds: seq<Decision>, r: Report)
    requires Comparable(previous, current)
    modifies prompter
    ensures ReportOf(r, previous, current)
    ensures (ds, prompter.answers) == Reconciled(r, previous, ById(current), old(prompter.answers))
  {
    r := DiffOperationIds(previous, current);
    var now := IndexById(current);
    var toSurvey := Pick(r.added + r.changed, now);
    var defaults := Restrict(previous, r.changed);
    var surveyed := RunSurvey(toSurvey, prompter, defaults);
    ds := Pick(r.same, previous) + surveyed;
  }

  // ---- What the survey guarantees for every answer

  ghost predicate Admissible(d: Decision, op: Operation, defaults: map<string, Decision>) {
    && d.operation == op && d.effect == op.effect
    && (d.require.Some? ==> d.exposed && !op.effect.ReadOnly?)
    && (!d.exposed ==> d.sensitivity == DefaultFor(op, defaults).sensitivity)
  }

  /** One decision per operation, in order, each admissible. */
  ghost predicate Decided(ds: seq<Decision>, ops: seq<Operation>, defaults: map<string, Decision>) {
    |ds| == |ops| && forall i :: 0 <= i < |ds| ==> Admissible(ds[i], ops[i], defaults)
  }

  lemma {:induction false} AcceptAllDecides(ops: seq<Operation>, defaults: map<string, Decision>)
    ensures Decided(AcceptAll(ops, defaults), ops, defaults)
  {
    if ops != [] { AcceptAllDecides(ops[1..], defaults); }
  }

  lemma {:induction false} AskAllDecides(ops: seq<Operation>, a: Answers, defaults: map<string, Decision>)
    ensures Decided(AskAll(ops, a, defaults).0, ops, defaults)
  {
    if ops != [] { AskAllDecides(ops[1..], AskOne(ops[0], a, defaults).1, defaults); }
  }

  lemma DecidedConcat(ds: seq<Decision>, es: seq<Decision>, ops: seq<Operation>, n: nat,
          defaults: map<string, Decision>)
    requires n <= |ops| && Decided(ds, ops[..n], defaults) && Decided(es, ops[n..], defaults)
    ensures Decided(ds + es, ops, defaults)
  {
    forall i | 0 <= i < |ops| ensures Admissible((ds + es)[i], ops[i], defaults) {
      if i < n {
        assert ops[..n][i] == ops[i];
      } else {
        assert ops[n..][i - n] == ops[i];
      }
    }
  }

  lemma AskGroupDecides(group: seq<Operation>, a: Answers, defaults: map<string, Decision>)
    ensures Decided(AskGroup(group, a, defaults).0, group, defaults)
  {
    AcceptAllDecides(group, defaults);
    AskAllDecides(group, NextConfirm(a, true).1, defaults);
  }

  lemma {:induction false} AskOrderedDecides(ops: seq<Operation>, a: Answers, defaults: map<string, Decision>)
    ensures Decided(AskOrdered(ops, a, defaults).0, ops, defaults)
    decreases |ops|
  {
    if ops != [] {
      var n := RunLength(ops);
      var (ds, left) := AskGroup(ops[..n], a, defaults);
      AskGroupDecides(ops[..n], a, defaults);
      AskOrderedDecides(ops[n..], left, defaults);
      DecidedConcat(ds, AskOrdered(ops[n..], left, defaults).0, ops, n, defaults);
    }
  }

  /** The first run of sorted operations is all that have the first one's tag: the first of their group
      tags, or `(ungrouped)`. */
  lemma {:induction false} FirstRunIsTag(ops: seq<Operation>)
    requires ops != [] && Sorted(TagOf, ops)
    ensures ops[..RunLength(ops)] == WithKey(TagOf, TagOf(ops[0]), ops)
    ensures forall op :: op in ops[RunLength(ops)..] ==> TagOf(op) != TagOf(ops[0])
    ensures TagOf(ops[0]) == if ops[0].groupTags == [] then "(ungrouped)" else ops[0].groupTags[0]
  {
    var tag, rest := TagOf(ops[0]), ops[1..];
    if rest != [] && TagOf(rest[0]) == tag {
      FirstRunIsTag(rest);
      assert ops[..RunLength(ops)] == [ops[0]] + rest[..RunLength(rest)];
      assert ops[RunLength(ops)..] == rest[RunLength(rest)..];
    } else {
      forall op | op in rest ensures TagOf(op) != tag {
        var i :| 0 <= i < |rest| && rest[i] == op;
        BeforeIsTotal(tag, TagOf(rest[0]));
        assert Before(TagOf(ops[0]), TagOf(ops[1])) && (i > 0 ==> Before(TagOf(ops[1]), TagOf(ops[i + 1])));
      }
      NoneWithKey(tag, rest);
      assert ops[..1] == [ops[0]] + [];
    }
  }

  lemma {:induction false} NoneWithKey(tag: string, ops: seq<Operation>)
    requires forall op :: op in ops ==> TagOf(op) != tag
    ensures WithKey(TagOf, tag, ops) == []
  {
    if ops != [] { NoneWithKey(tag, ops[1..]); }
  }

  /** Whatever is answered, the survey decides each operation once, tag by tag; it never changes an
      effect, never attaches a requirement to a read-only or declined operation, and declining does
      not touch the sensitivity. Operations of one tag keep the order they came in. */
  lemma SurveyDecidesAll(ops: seq<Operation>, a: Answers, defaults: map<string, Decision>)
    ensures Decided(Ask(ops, a, defaults).0, SortBy(TagOf, ops), defaults)
    ensures multiset(SortBy(TagOf, ops)) == multiset(ops) && Sorted(TagOf, SortBy(TagOf, ops))
    ensures forall tag :: WithKey(TagOf, tag, SortBy(TagOf, ops)) == WithKey(TagOf, tag, ops)
  {
    AskOrderedDecides(SortBy(TagOf, ops), a, defaults);
    SortKeeps(TagOf, ops);
  }

  /** Asked one by one and answered with every default, an earlier decision comes out as it was
      exactly when it requires nothing, or requires a named type without actions of an exposed
      operation that writes: the actions are asked for nowhere. */
  lemma DefaultsKeepExactly(d: Decision, defaults: map<string, Decision>)
    requires d.effect == d.operation.effect && d.operation.id in defaults && defaults[d.operation.id] == d
    ensures AskOne(d.operation, Answers([], []), defaults).0 == d <==>
      (d.require.Some? ==>
        d.exposed && !d.effect.ReadOnly? && d.require.value.detailType != "" && d.require.value.actions == [])
    ensures AskOne(d.operation, Answers([], []), defaults).0.exposed == d.exposed
  {
    if d.require.Some? {
      assert d.require == Some(RequiredDetail(d.require.value.detailType, [])) <==> d.require.value.actions == [];
    }
  }

  /** Accepting its whole group keeps an exposed decision, actions included, and exposes a declined one. */
  lemma AcceptingKeepsExactly(d: Decision, defaults: map<string, Decision>)
    requires d.effect == d.operation.effect && d.operation.id in defaults && defaults[d.operation.id] == d
    ensures Accepted(d.operation, defaults) == d <==> d.exposed && (d.effect.ReadOnly? ==> d.require.None?)
    ensures Accepted(d.operation, defaults).exposed
  {}

  /** A required payment action: answering with the defaults drops it, accepting the group keeps it. */
  lemma ActionsExample(op: Operation, d: Decision, defaults: map<string, Decision>)
    requires op.effect == Action && defaults == map[op.id := d]
    requires d == Decision(op, true, Action, Normal, Some(RequiredDetail("account", ["pay"])))
    ensures AskOne(op, Answers([], []), defaults).0 == d.(require := Some(RequiredDetail("account", [])))
    ensures Accepted(op, defaults) == d && AskOne(op, Answers([], []), defaults).0 != d
  {}

  /** Asked with answers at hand, the first decides on exposure. A no declines and leaves the other
      answers; after a yes the next decides on sensitivity and, where the operation writes, the next on a
      requirement, whose type is the next text. */
  lemma AnswersAreTaken(op: Operation, defaults: map<string, Decision>, expose: bool, sensitive: bool, attach: bool,
          detailType: string, confirms: seq<bool>, texts: seq<string>)
    ensures var more := [sensitive, attach] + confirms;
      AskOne(op, Answers([false] + more, texts), defaults) ==
      (Decision(op, false, op.effect, DefaultFor(op, defaults).sensitivity, None), Answers(more, texts))
    ensures var (d, left) := AskOne(op, Answers([true, sensitive, attach] + confirms, [detailType] + texts), defaults);
      && d.operation == op && d.exposed && d.effect == op.effect && (d.sensitivity.Sensitive? <==> sensitive)
      && d.require == (if !op.effect.ReadOnly? && attach && detailType != "" then Some(RequiredDetail(detailType, []))
                       else None)
      && left.confirms == (if op.effect.ReadOnly? then [attach] + confirms else confirms)
      && left.texts == (if !op.effect.ReadOnly? && attach then texts else [detailType] + texts)
  {
    var more := [sensitive, attach] + confirms;
    assert ([false] + more)[1..] == more;
    var all, text := [true, sensitive, attach] + confirms, [detailType] + texts;
    assert all[1..] == [sensitive, attach] + confirms && all[1..][1..] == [attach] + confirms;
    assert all[1..][1..][1..] == confirms && text[1..] == texts;
  }

  /** With no answer left, an operation that was never decided is exposed as it is, requiring nothing; and
      a requirement asked for without a text is the earlier one's type, or none. */
  lemma AnswersRunOut(op: Operation, defaults: map<string, Decision>, sensitive: bool)
    ensures op.id !in defaults ==>
      && AskOne(op, Answers([], []), defaults).0 == Decision(op, true, op.effect, op.sensitivity, None)
      && Accepted(op, defaults) == Decision(op, true, op.effect, op.sensitivity, None)
    ensures !op.effect.ReadOnly? ==>
      AskOne(op, Answers([true, sensitive, true], []), defaults).0.require ==
      if op.id in defaults && defaults[op.id].require.Some? && defaults[op.id].require.value.detailType != ""
      then Some(RequiredDetail(defaults[op.id].require.value.detailType, []))
      else None
  {
    AnswersAreTakenOneByOne(sensitive);
  }

  lemma AnswersAreTakenOneByOne(sensitive: bool)
    ensures [true, sensitive, true][1..] == [sensitive, true] && [sensitive, true][1..] == [true] && [true][1..] == []
  {}

  /** A group is accepted as a whole or, after a no, asked about one by one. */
  lemma GroupAnswerIsTaken(group: seq<Operation>, accept: bool, confirms: seq<bool>, texts: seq<string>,
          defaults: map<string, Decision>)
    ensures AskGroup(group, Answers([accept] + confirms, texts), defaults) ==
      if accept then (AcceptAll(group, defaults), Answers(confirms, texts))
      else AskAll(group, Answers(confirms, texts), defaults)
  {
    assert ([accept] + confirms)[1..] == confirms;
  }

  function Ids(ds: seq<Decision>): (ids: seq<string>)
    ensures |ids| == |ds| && forall i :: 0 <= i < |ds| ==> ids[i] == IdOf(ds[i])
  {
    seq(|ds|, i requires 0 <= i < |ds| => IdOf(ds[i]))
  }

  function OpIds(ops: seq<Operation>): (ids: seq<string>)
    ensures |ids| == |ops| && forall i :: 0 <= i < |ops| ==> ids[i] == ops[i].id
  {
    seq(|ops|, i requires 0 <= i < |ops| => ops[i].id)
  }

  lemma OpIdsCons(op: Operation, ops: seq<Operation>)
    ensures OpIds([op] + ops) == [op.id] + OpIds(ops)
    ensures multiset(OpIds([op] + ops)) == multiset{op.id} + multiset(OpIds(ops))
  {}

  lemma {:induction false} InsertIds(op: Operation, ops: seq<Operation>)
    ensures multiset(OpIds(InsertBy(TagOf, op, ops))) == multiset(OpIds(ops)) + multiset{op.id}
  {
    if ops == [] || Before(TagOf(op), TagOf(ops[0])) {
      OpIdsCons(op, ops);
    } else {
      InsertIds(op, ops[1..]);
      OpIdsCons(ops[0], InsertBy(TagOf, op, ops[1..]));
      OpIdsCons(ops[0], ops[1..]);
      assert ops == [ops[0]] + ops[1..];
    }
  }

  lemma {:induction false} SortIds(ops: seq<Operation>)
    ensures multiset(OpIds(SortBy(TagOf, ops))) == multiset(OpIds(ops))
  {
    if ops != [] {
      SortIds(ops[1..]);
      InsertIds(ops[0], SortBy(TagOf, ops[1..]));
      OpIdsCons(ops[0], ops[1..]);
      assert ops == [ops[0]] + ops[1..];
    }
  }

  lemma {:induction false} ByIdKeepsIds(ops: seq<Operation>)
    ensures forall id :: id in ById(ops) ==> ById(ops)[id].id == id && ById(ops)[id] in ops
    ensures forall op :: op in ops ==> op.id in ById(ops)
  {
    if ops != [] { ByIdKeepsIds(ops[..|ops| - 1]); }
  }

  ghost predicate KeyedById(previous: map<string, Decision>) {
    forall id :: id in previous ==> IdOf(previous[id]) == id
  }

  /** The surveyed decisions are about the ids picked, and about operations of the map. */
  lemma SurveyedIds(ids: seq<string>, now: map<string, Operation>, a: Answers, defaults: map<string, Decision>)
    requires (forall id :: id in ids ==> id in now) && forall id :: id in now ==> now[id].id == id
    ensures var ds := Ask(Pick(ids, now), a, defaults).0;
      && multiset(Ids(ds)) == multiset(ids)
      && forall d :: d in ds ==> d.effect == d.operation.effect && d.operation in Pick(ids, now)
  {
    var toAsk := Pick(ids, now);
    var sorted, ds := SortBy(TagOf, toAsk), Ask(toAsk, a, defaults).0;
    SurveyDecidesAll(toAsk, a, defaults);
    SortIds(toAsk);
    assert OpIds(toAsk) == ids;
    assert Ids(ds) == OpIds(sorted);
    forall d | d in ds ensures d.effect == d.operation.effect && d.operation in toAsk {
      var i :| 0 <= i < |ds| && ds[i] == d;
      assert Admissible(ds[i], sorted[i], defaults);
      assert sorted[i] in multiset(toAsk);
    }
  }

  /** A report lists every current id exactly once, the removed ones apart. */
  lemma ReportCoversCurrent(current: seq<Operation>, previous: map<string, Decision>, r: Report)
    requires ReportOf(r, previous, current)
    ensures NoDup(r.same + r.added + r.changed)
    ensures forall id :: id in r.same + r.added + r.changed <==> id in ById(current)
  {
    ApartIsNoDup(r.same, r.added, r.changed);
  }

  lemma PickedAreValues(ids: seq<string>, current: seq<Operation>)
    requires forall id :: id in ids ==> id in ById(current)
    ensures forall op :: op in Pick(ids, ById(current)) ==> op in current
  {
    ByIdKeepsIds(current);
    forall op | op in Pick(ids, ById(current)) ensures op in current {
      var k :| 0 <= k < |ids| && Pick(ids, ById(current))[k] == op;
      assert ids[k] in ids;
    }
  }

  /** Reconciling yields exactly one decision for each current id, in whatever way it is answered:
      the kept decisions are the earlier ones, the others belong to current operations. */
  lemma ReconcileDecidesEachOnce(current: seq<Operation>, previous: map<string, Decision>, r: Report, a: Answers)
    requires ReportOf(r, previous, current) && KeyedById(previous)
    ensures var ds := Reconciled(r, previous, ById(current), a).0;
      && multiset(Ids(ds)) == multiset(r.same + r.added + r.changed)
      && |r.same| <= |ds| && ds[..|r.same|] == Pick(r.same, previous)
      && (forall d :: d in ds[|r.same|..] ==> d.operation in current && d.effect == d.operation.effect)
  {
    var ids := r.added + r.changed;
    var kept, surveyed := Pick(r.same, previous), Ask(Pick(ids, ById(current)), a, Restrict(previous, r.changed)).0;
    SurveyedOfCurrent(ids, current, a, Restrict(previous, r.changed));
    KeptIds(r.same, previous);
    Assembled(kept, surveyed, r.same, r.added, r.changed);
  }

  lemma Assembled(kept: seq<Decision>, surveyed: seq<Decision>, same: seq<string>, added: seq<string>,
          changed: seq<string>)
    requires Ids(kept) == same && multiset(Ids(surveyed)) == multiset(added + changed)
    ensures var ds := kept + surveyed;
      && multiset(Ids(ds)) == multiset(same + added + changed)
      && |same| <= |ds| && ds[..|same|] == kept && ds[|same|..] == surveyed
  {
    IdsConcat(kept, surveyed, same, added + changed);
    assert same + added + changed == same + (added + changed);
  }

  lemma IdsConcat(kept: seq<Decision>, surveyed: seq<Decision>, same: seq<string>, ids: seq<string>)
    requires Ids(kept) == same && multiset(Ids(surveyed)) == multiset(ids)
    ensures multiset(Ids(kept + surveyed)) == multiset(same + ids)
  {
    assert Ids(kept + surveyed) == same + Ids(surveyed);
  }

  lemma SurveyedOfCurrent(ids: seq<string>, current: seq<Operation>, a: Answers, defaults: map<string, Decision>)
    requires forall id :: id in ids ==> id in ById(current)
    ensures var ds := Ask(Pick(ids, ById(current)), a, defaults).0;
      && multiset(Ids(ds)) == multiset(ids)
      && forall d :: d in ds ==> d.operation in current && d.effect == d.operation.effect
  {
    ByIdKeepsIds(current);
    SurveyedIds(ids, ById(current), a, defaults);
    PickedAreValues(ids, current);
  }

  lemma KeptIds(ids: seq<string>, previous: map<string, Decision>)
    requires KeyedById(previous) && forall id :: id in ids ==> id in previous
    ensures Ids(Pick(ids, previous)) == ids
  {}

  lemma ApartIsNoDup(a: seq<string>, b: seq<string>, c: seq<string>)
    requires Ascending(a) && Ascending(b) && Ascending(c)
    requires (forall x :: x in a ==> x !in b && x !in c) && (forall x :: x in b ==> x !in c)
    ensures NoDup(a + b + c)
  {
    var s := a + b + c;
    forall i, j | 0 <= i < j < |s| ensures s[i] != s[j] {
      assert i < |a| ==> s[i] in a;
      assert |a| <= i < |a| + |b| ==> s[i] in b;
      assert |a| <= j < |a| + |b| ==> s[j] in b;
      assert |a| + |b| <= j ==> s[j] in c;
    }
  }
}
