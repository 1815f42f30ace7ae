/** Rendering the policy file: rules the operator wrote are kept, rules the survey owns are replaced. */
module PolicyFile {
  import opened Wrappers
  import opened Policy
  import C = ConfigFile
  import Globs

  // ---- Which rules are owned

  predicate Given(list: Option<seq<string>>) {
    list.Some? && list.value != []
  }

  /** The rule's content fits into a type and actions. An empty identifier counts as none. */
  predicate WithinShape(rule: Rule) {
    !rule.carry &&
    (rule.require.Some? ==>
       |rule.require.value| == 1 &&
       var detail := rule.require.value[0];
       !Given(detail.locations) && !Given(detail.datatypes) && !Given(detail.privileges)
       && !(detail.identifier.Some? && detail.identifier.value != ""))
  }

  /** The rule matches one managed id and nothing else. */
  predicate IdShaped(rule: Rule, managed: set<string>) {
    && |rule.spec.ids| == 1 && rule.spec.ids[0] in managed
    && rule.spec.tags == [] && rule.spec.upstream == [] && rule.spec.effect == [] && rule.spec.sensitivity == []
  }

  predicate Owned(rule: Rule, managed: set<string>) {
    IdShaped(rule, managed) && WithinShape(rule)
  }

  function Managed(ds: seq<C.Decision>): set<string> {
    set d | d in ds :: d.operation.id
  }

  // ---- Rendering

  function Foreign(rules: seq<Rule>, managed: set<string>): seq<Rule> {
    if rules == [] then []
    else (if Owned(rules[0], managed) then [] else [rules[0]]) + Foreign(rules[1..], managed)
  }

  /** Managed ids that a kept rule already speaks for. */
  function Blocked(rules: seq<Rule>, managed: set<string>): set<string> {
    set rule | rule in rules && IdShaped(rule, managed) && !WithinShape(rule) :: rule.spec.ids[0]
  }

  function OwnRule(id: string, require: C.RequiredDetail): Rule {
    var actions := if require.actions == [] then None else Some(require.actions);
    Rule(Match([id], [], [], [], []), Some([Requirement(require.detailType, actions, None, None, None, None)]), false)
  }

  /** The rule a decision calls for, if any. */
  function Called(d: C.Decision, blocked: set<string>): seq<Rule> {
    if d.exposed && d.require.Some? && d.operation.id !in blocked then [OwnRule(d.operation.id, d.require.value)]
    else []
  }

  function Generated(ds: seq<C.Decision>, blocked: set<string>): seq<Rule> {
    if ds == [] then [] else Called(ds[0], blocked) + Generated(ds[1..], blocked)
  }

  function ExistingRules(existing: Option<Config>): seq<Rule> {
    if existing.Some? then existing.value.rules else []
  }

  function Rendered(ds: seq<C.Decision>, existing: Option<Config>): Config {
    var rules, managed := ExistingRules(existing), Managed(ds);
    var allow := existing.None? || existing.value.allowUnmatched;
    Config(allow, Foreign(rules, managed) + Generated(ds, Blocked(rules, managed)))
  }

  lemma {:induction false} ForeignConcat(a: seq<Rule>, b: seq<Rule>, managed: set<string>)
    ensures Foreign(a + b, managed) == Foreign(a, managed) + Foreign(b, managed)
  {
    if a == [] {
      assert a + b == b;
    } else {
      assert (a + b)[1..] == a[1..] + b;
      ForeignConcat(a[1..], b, managed);
    }
  }

  method KeepForeign(rules: seq<Rule>, managed: set<string>) returns (foreign: seq<Rule>, blocked: set<string>)
    ensures foreign == Foreign(rules, managed) && blocked == Blocked(rules, managed)
  {
    foreign, blocked := [], {};
    for i := 0 to |rules|
      invariant foreign == Foreign(rules[..i], managed) && blocked == Blocked(rules[..i], managed)
    {
      var rule := rules[i];
      assert rules[..i + 1] == rules[..i] + [rule];
      ForeignConcat(rules[..i], [rule], managed);
      assert [rule][1..] == [];
      if !Owned(rule, managed) {
        foreign := foreign + [rule];
        if IdShaped(rule, managed) { blocked := blocked + {rule.spec.ids[0]}; }
      }
    }
    assert rules[..|rules|] == rules;
  }

  method GenerateOwn(ds: seq<C.Decision>, blocked: set<string>) returns (own: seq<Rule>)
    ensures own == Generated(ds, blocked)
  {
    own := [];
    assert ds[0..] == ds;
    for i := 0 to |ds|
      invariant Generated(ds, blocked) == own + Generated(ds[i..], blocked)
    {
      var d := ds[i];
      GeneratedStep(ds, i, own, blocked);
      if !d.exposed || d.require.None? { continue; }
      if d.operation.id in blocked { continue; }
      own := own + [OwnRule(d.operation.id, d.require.value)];
    }
  }

  lemma GeneratedStep(ds: seq<C.Decision>, i: nat, own: seq<Rule>, blocked: set<string>)
    requires i < |ds|
    ensures own + Generated(ds[i..], blocked) == own + Called(ds[i], blocked) + Generated(ds[i + 1..], blocked)
    ensures Called(ds[i], blocked) == [] ==> own + Generated(ds[i..], blocked) == own + Generated(ds[i + 1..], blocked)
  {
    assert ds[i..][1..] == ds[i + 1..];
    var tail := Generated(ds[i + 1..], blocked);
    assert own + (Called(ds[i], blocked) + tail) == own + Called(ds[i], blocked) + tail;
    assert own + [] == own;
  }

  method RenderPolicy(ds: seq<C.Decision>, existing: Option<Config>) returns (r: Config)
    ensures r == Rendered(ds, existing)
  {
    var managed := Managed(ds);
    var foreign: seq<Rule>, blocked: set<string> := [], {};
    if existing.Some? { foreign, blocked := KeepForeign(existing.value.rules, managed); }
    assert blocked == Blocked(ExistingRules(existing), managed);
    var own := GenerateOwn(ds, blocked);
    r := Config(true, foreign + own);
    if existing.Some? { r := r.(allowUnmatched := existing.value.allowUnmatched); }
  }

  // ---- What rendering keeps

  lemma {:induction false} ForeignExactly(rules: seq<Rule>, managed: set<string>)
    ensures forall r :: r in Foreign(rules, managed) <==> r in rules && !Owned(r, managed)
  {
    if rules != [] {
      ForeignExactly(rules[1..], managed);
      assert forall r :: r in rules <==> r == rules[0] || r in rules[1..];
    }
  }

  lemma {:induction false} ForeignOfForeign(rules: seq<Rule>, managed: set<string>)
    ensures Foreign(Foreign(rules, managed), managed) == Foreign(rules, managed)
  {
    if rules != [] {
      ForeignOfForeign(rules[1..], managed);
      if !Owned(rules[0], managed) {
        var rest := Foreign(rules[1..], managed);
        assert Foreign(rules, managed) == [rules[0]] + rest && ([rules[0]] + rest)[1..] == rest;
      } else {
        assert Foreign(rules, managed) == Foreign(rules[1..], managed);
      }
    }
  }

  lemma {:induction false} GeneratedExactly(ds: seq<C.Decision>, blocked: set<string>)
    ensures forall r :: r in Generated(ds, blocked) <==>
      exists d :: d in ds && d.exposed && d.require.Some? && d.operation.id !in blocked
        && r == OwnRule(d.operation.id, d.require.value)
  {
    if ds != [] {
      GeneratedExactly(ds[1..], blocked);
      assert ds[0] in ds && forall d :: d in ds[1..] ==> d in ds;
      assert forall d :: d in ds <==> d == ds[0] || d in ds[1..];
    }
  }

  lemma {:induction false} AllOwned(rules: seq<Rule>, managed: set<string>)
    requires forall r :: r in rules ==> Owned(r, managed)
    ensures Foreign(rules, managed) == []
  {
    if rules != [] { AllOwned(rules[1..], managed); }
  }

  /** Rules that are not owned are kept, unchanged and in order; every other rule of the result is
      generated, owned, and for an id that no kept id-shaped rule speaks for. */
  lemma KeepsForeignRules(ds: seq<C.Decision>, existing: Option<Config>)
    ensures var out, rules, managed := Rendered(ds, existing), ExistingRules(existing), Managed(ds);
      && Foreign(out.rules, managed) == Foreign(rules, managed) <= out.rules
      && (forall r :: r in out.rules && !Owned(r, managed) <==> r in rules && !Owned(r, managed))
      && (forall r, kept | r in out.rules && Owned(r, managed) && kept in out.rules && !Owned(kept, managed) ::
            IdShaped(kept, managed) ==> r.spec.ids[0] != kept.spec.ids[0])
  {
    var rules, managed := ExistingRules(existing), Managed(ds);
    var blocked := Blocked(rules, managed);
    ForeignExactly(rules, managed);
    ForeignOfForeign(rules, managed);
    GeneratedExactly(ds, blocked);
    AllOwned(Generated(ds, blocked), managed);
    ForeignConcat(Foreign(rules, managed), Generated(ds, blocked), managed);
  }

  /** The owned rules of the result are exactly those the decisions call for. */
  lemma OwnsWhatWasDecided(ds: seq<C.Decision>, existing: Option<Config>, r: Rule)
    ensures r in Rendered(ds, existing).rules && Owned(r, Managed(ds)) <==>
      exists d :: d in ds && d.exposed && d.require.Some?
        && d.operation.id !in Blocked(ExistingRules(existing), Managed(ds))
                  && r == OwnRule(d.operation.id, d.require.value)
  {
    ForeignExactly(ExistingRules(existing), Managed(ds));
    GeneratedExactly(ds, Blocked(ExistingRules(existing), Managed(ds)));
  }

  /** The rule matches anything but one managed id, or says anything but one type and its actions. */
  ghost predicate SaysMore(rule: Rule, managed: set<string>) {
    || |rule.spec.ids| != 1 || rule.spec.ids[0] !in managed
    || rule.spec.tags != [] || rule.spec.upstream != [] || rule.spec.effect != [] || rule.spec.sensitivity != []
    || rule.carry
    || (rule.require.Some? && (|rule.require.value| != 1 || DetailSaysMore(rule.require.value[0])))
  }

  ghost predicate DetailSaysMore(detail: Requirement) {
    || (detail.locations.Some? && detail.locations.value != [])
    || (detail.datatypes.Some? && detail.datatypes.value != [])
    || (detail.privileges.Some? && detail.privileges.value != [])
    || (detail.identifier.Some? && detail.identifier.value != "")
  }

  lemma OwnedSaysNoMore(rule: Rule, managed: set<string>)
    ensures Owned(rule, managed) <==> !SaysMore(rule, managed)
  {}

  /** The rule matches the decided operation's id and requires the decided type and actions, nothing else. */
  ghost predicate IsFor(rule: Rule, d: C.Decision)
    requires d.require.Some?
  {
    var required := d.require.value;
    && rule.spec == Match([d.operation.id], [], [], [], []) && !rule.carry
    && rule.require.Some? && |rule.require.value| == 1
    && rule.require.value[0] ==
       Requirement(required.detailType, if required.actions == [] then None else Some(required.actions),
                   None, None, None, None)
  }

  lemma OwnRuleIsFor(rule: Rule, d: C.Decision)
    requires d.require.Some?
    ensures rule == OwnRule(d.operation.id, d.require.value) <==> IsFor(rule, d)
  {
    if IsFor(rule, d) { assert rule.require.value == [rule.require.value[0]]; }
  }

  /** A kept rule already speaks for the id: it matches just that id, and says more. */
  ghost predicate SpokenFor(ds: seq<C.Decision>, existing: Option<Config>, id: string) {
    exists rule :: rule in ExistingRules(existing) && rule.spec == Match([id], [], [], [], [])
      && SaysMore(rule, Managed(ds))
  }

  lemma BlockedIsSpokenFor(ds: seq<C.Decision>, existing: Option<Config>, id: string)
    requires id in Managed(ds)
    ensures id in Blocked(ExistingRules(existing), Managed(ds)) <==> SpokenFor(ds, existing, id)
  {
    forall rule: Rule
      ensures rule.spec == Match([id], [], [], [], []) && SaysMore(rule, Managed(ds)) <==>
        IdShaped(rule, Managed(ds)) && !WithinShape(rule) && rule.spec.ids[0] == id
    {
      if IdShaped(rule, Managed(ds)) { assert rule.spec.ids == [rule.spec.ids[0]]; }
    }
  }

  ghost predicate CalledFor(ds: seq<C.Decision>, existing: Option<Config>, rule: Rule) {
    exists d :: d in ds && d.exposed && d.require.Some? && IsFor(rule, d)
      && !SpokenFor(ds, existing, d.operation.id)
  }

  lemma CalledForIsOwned(ds: seq<C.Decision>, existing: Option<Config>, rule: Rule)
    ensures CalledFor(ds, existing, rule) <==>
      rule in Rendered(ds, existing).rules && Owned(rule, Managed(ds))
  {
    OwnsWhatWasDecided(ds, existing, rule);
    forall d | d in ds && d.require.Some?
      ensures rule == OwnRule(d.operation.id, d.require.value) <==> IsFor(rule, d)
      ensures d.operation.id in Blocked(ExistingRules(existing), Managed(ds)) <==>
        SpokenFor(ds, existing, d.operation.id)
    {
      OwnRuleIsFor(rule, d);
      BlockedIsSpokenFor(ds, existing, d.operation.id);
    }
  }

  /** A rule of the operator's that says more is kept; any other is in the result only if a decision,
      exposed and requiring something, calls for just that rule: its id, and its type and actions. */
  lemma KeptExactly(ds: seq<C.Decision>, existing: Option<Config>, rule: Rule)
    requires rule in ExistingRules(existing)
    ensures rule in Rendered(ds, existing).rules <==> SaysMore(rule, Managed(ds)) || CalledFor(ds, existing, rule)
  {
    KeepsForeignRules(ds, existing);
    CalledForIsOwned(ds, existing, rule);
    OwnedSaysNoMore(rule, Managed(ds));
  }

  /** Rendering again with the same decisions changes nothing. */
  lemma RenderingIsFixpoint(ds: seq<C.Decision>, existing: Option<Config>)
    ensures Rendered(ds, Some(Rendered(ds, existing))) == Rendered(ds, existing)
  {
    var out, rules, managed := Rendered(ds, existing), ExistingRules(existing), Managed(ds);
    KeepsForeignRules(ds, existing);
    assert Blocked(out.rules, managed) == Blocked(rules, managed) by {
      forall id ensures id in Blocked(out.rules, managed) <==> id in Blocked(rules, managed) {
        BlockedMeans(out.rules, managed, id);
        BlockedMeans(rules, managed, id);
      }
    }
  }

  lemma BlockedMeans(rules: seq<Rule>, managed: set<string>, id: string)
    ensures id in Blocked(rules, managed) <==>
      exists r :: r in rules && !Owned(r, managed) && IdShaped(r, managed) && r.spec.ids[0] == id
  {
    if id in Blocked(rules, managed) {
      var r :| r in rules && IdShaped(r, managed) && !WithinShape(r) && r.spec.ids[0] == id;
      assert !Owned(r, managed);
    }
  }

  /** A policy that loads still loads afterwards. */
  lemma RenderingKeepsValidity(ds: seq<C.Decision>, existing: Config)
    requires Valid(existing)
    ensures Valid(Rendered(ds, Some(existing)))
      && Rendered(ds, Some(existing)).allowUnmatched == existing.allowUnmatched
  {
    var out, managed := Rendered(ds, Some(existing)), Managed(ds);
    ForeignExactly(existing.rules, managed);
    GeneratedExactly(ds, Blocked(existing.rules, managed));
    forall i | 0 <= i < |out.rules|
      ensures RuleValid(out.rules[i]) && (!existing.allowUnmatched ==> out.rules[i].require.Some?) {
      var r := out.rules[i];
      assert r in out.rules;
      if r in Foreign(existing.rules, managed) {
        var k :| 0 <= k < |existing.rules| && existing.rules[k] == r;
        assert RuleValid(existing.rules[k]);
      }
    }
  }

  /** What a decision demands of a caller. */
  function DetailFor(require: C.RequiredDetail): Detail {
    Detail(require.detailType, require.actions, [], [], None, [])
  }

  function TargetOf(op: C.Operation): Target {
    Target(op.id, op.upstream, op.groupTags, op.effect, op.sensitivity)
  }

  /** The rule for an id applies to exactly the operations whose id matches it as a pattern. */
  lemma OwnRuleApplies(id: string, require: C.RequiredDetail, op: Target, glob: Glob)
    ensures Matches(op, OwnRule(id, require).spec, glob) <==> glob(op.id, id)
    ensures DetailsOf(OwnRule(id, require).require.value) == [DetailFor(require)]
  {
    var ids := OwnRule(id, require).spec.ids;
    assert ids[0] == id && |ids| == 1;
  }

  /** What the survey decided is enforced: a call that no presented detail entitles to the required
      one is refused, whatever other rules say, provided the id matches itself as a pattern. */
  lemma DecisionIsEnforced(ds: seq<C.Decision>, existing: Option<Config>, d: C.Decision, op: Target,
          presented: seq<Detail>, glob: Glob)
    requires d in ds && d.exposed && d.require.Some? && d.operation.id !in Blocked(ExistingRules(existing), Managed(ds))
    requires op.id == d.operation.id && glob(op.id, op.id) && !Covers(DetailFor(d.require.value), presented)
    ensures !Evaluate(Rendered(ds, existing), op, presented, glob).allowed
  {
    var out, rule := Rendered(ds, existing), OwnRule(d.operation.id, d.require.value);
    OwnsWhatWasDecided(ds, existing, rule);
    var k :| 0 <= k < |out.rules| && out.rules[k] == rule;
    OwnRuleApplies(d.operation.id, d.require.value, op, glob);
    assert [DetailFor(d.require.value)][0] == DetailFor(d.require.value);
    assert Demands(out, op, glob, k, DetailFor(d.require.value));
    assert Demanded(out, op, glob, DetailFor(d.require.value));
    AllowedExactly(out, op, presented, glob);
  }

  /** With the engine's patterns that is so for every id without a bracket expression. */
  lemma PlainDecisionIsEnforced(ds: seq<C.Decision>, existing: Option<Config>, d: C.Decision, op: Target,
          presented: seq<Detail>)
    requires d in ds && d.exposed && d.require.Some? && d.operation.id !in Blocked(ExistingRules(existing), Managed(ds))
    requires op.id == d.operation.id && !Globs.HasClass(op.id) && !Covers(DetailFor(d.require.value), presented)
    ensures !Evaluate(Rendered(ds, existing), op, presented, Globs.Fnmatch).allowed
  {
    Globs.PlainMatchesItself(op.id);
    DecisionIsEnforced(ds, existing, d, op, presented, Globs.Fnmatch);
  }

  /** Without rules to keep, one exposed decision that requires something becomes the whole file. */
  lemma RenderedAlone(d: C.Decision, existing: Option<Config>)
    requires d.exposed && d.require.Some? && forall r :: r in ExistingRules(existing) ==> Owned(r, Managed([d]))
    ensures Rendered([d], existing).rules == [OwnRule(d.operation.id, d.require.value)]
  {
    var rules, managed := ExistingRules(existing), Managed([d]);
    AllOwned(rules, managed);
    assert Blocked(rules, managed) == {};
    assert Generated([d][1..], {}) == [];
    assert Generated([d], {}) == [OwnRule(d.operation.id, d.require.value)] + [];
  }

  /** In a new policy file, which allows by default, a single decision is enforced against callers
      without details exactly when its id matches itself; for ids without a star, exactly when they
      have no bracket expression. */
  lemma EnforcedExactly(d: C.Decision, op: Target)
    requires d.exposed && d.require.Some? && op.id == d.operation.id
    ensures !Evaluate(Rendered([d], None), op, [], Globs.Fnmatch).allowed <==> Globs.Fnmatch(op.id, op.id)
    ensures '*' !in op.id ==>
      (!Evaluate(Rendered([d], None), op, [], Globs.Fnmatch).allowed <==> !Globs.HasClass(op.id))
  {
    var rule := OwnRule(op.id, d.require.value);
    if '*' !in op.id { Globs.MatchesItselfExactly(op.id); }
    if Globs.Fnmatch(op.id, op.id) {
      assert d in [d];
      DecisionIsEnforced([d], None, d, op, [], Globs.Fnmatch);
    } else {
      OwnRuleApplies(op.id, d.require.value, op, Globs.Fnmatch);
      RenderedAlone(d, None);
      assert [rule][1..] == [];
      assert Matching(op, [rule], Globs.Fnmatch) == [];
    }
  }

  /** So a decision for `a[1]` is written and then not enforced. */
  lemma BracketIdExample(d: C.Decision, op: Target)
    requires d.exposed && d.require.Some? && op.id == d.operation.id == "a[1]"
    ensures Evaluate(Rendered([d], None), op, [], Globs.Fnmatch).allowed
  {
    Globs.BracketExample();
    EnforcedExactly(d, op);
  }

  // ---- Operations that are not managed

  /** No managed id, read as a pattern, matches the operation. */
  ghost predicate Apart(op: Target, managed: set<string>, glob: Glob) {
    forall id :: id in managed ==> !glob(op.id, id)
  }

  lemma OwnedIsApart(rule: Rule, op: Target, managed: set<string>, glob: Glob)
    requires Apart(op, managed, glob) && IdShaped(rule, managed)
    ensures !Matches(op, rule.spec, glob)
  {
    assert forall i :: 0 <= i < |rule.spec.ids| ==> rule.spec.ids[i] == rule.spec.ids[0];
  }

  lemma {:induction false} ForeignMatches(rules: seq<Rule>, op: Target, managed: set<string>, glob: Glob)
    requires Apart(op, managed, glob)
    ensures Matching(op, Foreign(rules, managed), glob) == Matching(op, rules, glob)
  {
    if rules != [] {
      var rest := Foreign(rules[1..], managed);
      ForeignMatches(rules[1..], op, managed, glob);
      if Owned(rules[0], managed) {
        OwnedIsApart(rules[0], op, managed, glob);
        assert Foreign(rules, managed) == rest;
      } else {
        assert Foreign(rules, managed) == [rules[0]] + rest && ([rules[0]] + rest)[1..] == rest;
      }
    }
  }

  lemma {:induction false} NoneMatches(rules: seq<Rule>, op: Target, managed: set<string>, glob: Glob)
    requires Apart(op, managed, glob) && forall r :: r in rules ==> IdShaped(r, managed)
    ensures Matching(op, rules, glob) == []
  {
    if rules != [] {
      OwnedIsApart(rules[0], op, managed, glob);
      NoneMatches(rules[1..], op, managed, glob);
    }
  }

  /** Rendering does not touch the decision on any operation that no managed id matches. */
  lemma LeavesOthersAlone(ds: seq<C.Decision>, existing: Config, op: Target, presented: seq<Detail>, glob: Glob)
    requires Apart(op, Managed(ds), glob)
    ensures Evaluate(Rendered(ds, Some(existing)), op, presented, glob) == Evaluate(existing, op, presented, glob)
  {
    var managed := Managed(ds);
    var foreign, own := Foreign(existing.rules, managed), Generated(ds, Blocked(existing.rules, managed));
    GeneratedExactly(ds, Blocked(existing.rules, managed));
    MatchingConcat(foreign, own, op, glob);
    ForeignMatches(existing.rules, op, managed, glob);
    NoneMatches(own, op, managed, glob);
    assert Matching(op, foreign + own, glob) == Matching(op, existing.rules, glob);
  }

  // ---- Reading a requirement back

  /** What a reconcile takes the policy to require: the first detail that the matching rules demand. */
  function RequireFor(policy: Option<Config>, op: C.Operation): Option<C.RequiredDetail> {
    if policy.None? then None
    else
      var details := Details(Matching(TargetOf(op), policy.value.rules, Globs.Fnmatch));
      if details == [] then None else Some(C.RequiredDetail(details[0].detailType, details[0].actions))
  }

  lemma {:induction false} FirstDemand(rules: seq<Rule>, op: Target, glob: Glob, d: Option<Detail>)
    requires forall r :: r in rules && Matches(op, r.spec, glob) && r.require.Some? ==>
      d.Some? && DetailsOf(r.require.value) == [d.value]
    requires d.Some? ==> exists r :: r in rules && Matches(op, r.spec, glob) && r.require.Some?
    ensures var details := Details(Matching(op, rules, glob));
      if d.None? then details == [] else details != [] && details[0] == d.value
  {
    if rules != [] {
      var first, rest := rules[0], rules[1..];
      var head := if Matches(op, first.spec, glob) then [first] else [];
      DetailsConcat(head, Matching(op, rest, glob));
      DetailsOfOne(first);
      assert forall r :: r in rest ==> r in rules;
      if d.None? || exists r :: r in rest && Matches(op, r.spec, glob) && r.require.Some? {
        FirstDemand(rest, op, glob, d);
      }
      assert first in rules;
    }
  }

  /** The requirement written for a decision is read back, and none where none was decided, when no
      other rule of the file demands something of the operation. */
  lemma RequirementComesBack(ds: seq<C.Decision>, existing: Option<Config>, d: C.Decision)
    requires d in ds && d.exposed && !Globs.HasClass(d.operation.id)
    requires d.operation.id !in Blocked(ExistingRules(existing), Managed(ds))
    requires forall r | r in Rendered(ds, existing).rules && Matches(TargetOf(d.operation), r.spec, Globs.Fnmatch) ::
      r.require.Some? ==> d.require.Some? && r == OwnRule(d.operation.id, d.require.value)
    ensures RequireFor(Some(Rendered(ds, existing)), d.operation) == d.require
  {
    var op, rules := TargetOf(d.operation), Rendered(ds, existing).rules;
    Globs.PlainMatchesItself(op.id);
    if d.require.Some? {
      OwnsWhatWasDecided(ds, existing, OwnRule(op.id, d.require.value));
      OwnRuleApplies(op.id, d.require.value, op, Globs.Fnmatch);
      FirstDemand(rules, op, Globs.Fnmatch, Some(DetailFor(d.require.value)));
    } else {
      FirstDemand(rules, op, Globs.Fnmatch, None);
    }
  }

  lemma {:induction false} GeneratedConcat(a: seq<C.Decision>, b: seq<C.Decision>, blocked: set<string>)
    ensures Generated(a + b, blocked) == Generated(a, blocked) + Generated(b, blocked)
  {
    if a == [] {
      assert a + b == b;
    } else {
      assert (a + b)[1..] == a[1..] + b;
      GeneratedConcat(a[1..], b, blocked);
    }
  }

  /** The rules of the rendered file that stand in front of the `k`-th decision's own. */
  function InFront(ds: seq<C.Decision>, existing: Option<Config>, k: nat): seq<Rule>
    requires k < |ds|
  {
    var rules, managed := ExistingRules(existing), Managed(ds);
    Foreign(rules, managed) + Generated(ds[..k], Blocked(rules, managed))
  }

  lemma OwnRuleStands(ds: seq<C.Decision>, existing: Option<Config>, k: nat)
    requires k < |ds| && ds[k].exposed && ds[k].require.Some?
    requires ds[k].operation.id !in Blocked(ExistingRules(existing), Managed(ds))
    ensures var own := OwnRule(ds[k].operation.id, ds[k].require.value);
      InFront(ds, existing, k) + [own] <= Rendered(ds, existing).rules
  {
    var blocked := Blocked(ExistingRules(existing), Managed(ds));
    var own := OwnRule(ds[k].operation.id, ds[k].require.value);
    assert ds == ds[..k] + ds[k..] && Generated(ds[k..], blocked) == [own] + Generated(ds[k..][1..], blocked);
    GeneratedConcat(ds[..k], ds[k..], blocked);
  }

  lemma FirstOfDetails(rules: seq<Rule>, front: seq<Rule>, own: Rule, detail: Detail, op: Target, glob: Glob)
    requires front + [own] <= rules && Matches(op, own.spec, glob)
    requires own.require.Some? && DetailsOf(own.require.value) == [detail]
    ensures var (all, earlier) := (Details(Matching(op, rules, glob)), Details(Matching(op, front, glob)));
      all != [] && all[0] == if earlier == [] then detail else earlier[0]
  {
    var rest := rules[|front| + 1..];
    assert rules == front + ([own] + rest) && ([own] + rest)[1..] == rest;
    MatchingConcat(front, [own] + rest, op, glob);
    DetailsConcat(Matching(op, front, glob), Matching(op, [own] + rest, glob));
    DetailsConcat([own], Matching(op, rest, glob));
    DetailsOfOne(own);
  }

  /** What is read back for a decision that requires something: the first thing that a rule in front
      of its own demands of the operation, whatever that is, and otherwise what was decided. */
  lemma RequirementReadExactly(ds: seq<C.Decision>, existing: Option<Config>, k: nat)
    requires k < |ds| && ds[k].exposed && ds[k].require.Some? && !Globs.HasClass(ds[k].operation.id)
    requires ds[k].operation.id !in Blocked(ExistingRules(existing), Managed(ds))
    ensures var op := ds[k].operation;
      var earlier := Details(Matching(TargetOf(op), InFront(ds, existing, k), Globs.Fnmatch));
      RequireFor(Some(Rendered(ds, existing)), op) ==
      if earlier == [] then ds[k].require else Some(C.RequiredDetail(earlier[0].detailType, earlier[0].actions))
  {
    var op, required := TargetOf(ds[k].operation), ds[k].require.value;
    Globs.PlainMatchesItself(op.id);
    OwnRuleApplies(op.id, required, op, Globs.Fnmatch);
    OwnRuleStands(ds, existing, k);
    FirstOfDetails(Rendered(ds, existing).rules, InFront(ds, existing, k), OwnRule(op.id, required),
                   DetailFor(required), op, Globs.Fnmatch);
  }

  function RequireOf(policy: Option<Config>): C.Requires {
    op => RequireFor(policy, op)
  }

  /** The decisions that a config file and a policy file stand for. */
  method DecisionsFromFiles(es: seq<C.Entry>, policy: Option<Config>) returns (r: Option<map<string, C.Decision>>)
    ensures r == C.ReadAll(es, RequireOf(policy))
  {
    r := C.DecisionsFromConfig(es, RequireOf(policy));
  }

  /** The rule says nothing beyond one type and its actions. */
  ghost predicate Expressible(rule: Rule) {
    !rule.carry && (rule.require.Some? ==>
      exists t, actions :: rule.require == Some([Requirement(t, actions, None, None, None, None)]))
  }

  /** A loaded rule that is owned can be expressed by the survey exactly when it carries no empty
      identifier: that one is taken for absent, and the rule is replaced although it says more. */
  lemma OwnedIsExpressibleExactly(rule: Rule, managed: set<string>)
    requires RuleValid(rule) && Owned(rule, managed)
    ensures Expressible(rule) <==> (rule.require.Some? ==> rule.require.value[0].identifier.None?)
  {
    if rule.require.Some? {
      var detail := rule.require.value[0];
      assert RequirementValid(detail);
      assert rule.require.value == [detail];
      if detail.identifier.None? {
        assert rule.require == Some([Requirement(detail.detailType, detail.actions, None, None, None, None)]);
      }
    }
  }

  // ---- A rule that is replaced although it says more

  const NamedRule :=
    Rule(Match(["a"], [], [], [], []), Some([Requirement("t", None, None, None, Some(""), None)]), false)

  /** The rule demands an identifier that is the empty string. It is owned, so rendering replaces it,
      and a caller with another identifier, refused before, is allowed afterwards. */
  lemma EmptyIdentifierExample(d: C.Decision, op: Target)
    requires d.exposed && d.require == Some(C.RequiredDetail("t", [])) && d.operation.id == op.id == "a"
    ensures var c, presented := Config(true, [NamedRule]), [Detail("t", [], [], [], Some("x"), [])];
      && RuleValid(NamedRule) && Owned(NamedRule, {"a"}) && !Expressible(NamedRule)
      && !Evaluate(c, op, presented, Globs.Fnmatch).allowed
      && Evaluate(Rendered([d], Some(c)), op, presented, Globs.Fnmatch).allowed
  {
    var c, presented := Config(true, [NamedRule]), [Detail("t", [], [], [], Some("x"), [])];
    NamedRuleIsOwned();
    NamedRuleRefuses(op, presented);
    PlainRuleAllows(d, op, c, presented);
  }

  lemma NamedRuleIsOwned()
    ensures RuleValid(NamedRule) && Owned(NamedRule, {"a"}) && !Expressible(NamedRule)
  {
    OwnedIsExpressibleExactly(NamedRule, {"a"});
  }

  lemma AIsA()
    ensures Globs.Fnmatch("a", "a")
  {
    Globs.PlainMatchesItself("a");
  }

  lemma NamedRuleRefuses(op: Target, presented: seq<Detail>)
    requires op.id == "a" && presented == [Detail("t", [], [], [], Some("x"), [])]
    ensures !Evaluate(Config(true, [NamedRule]), op, presented, Globs.Fnmatch).allowed
  {
    var c, needed := Config(true, [NamedRule]), Detail("t", [], [], [], Some(""), []);
    AIsA();
    assert NamedRule.spec.ids[0] == "a";
    assert DetailsOf(NamedRule.require.value)[0] == needed;
    assert Demands(c, op, Globs.Fnmatch, 0, needed);
    assert Demanded(c, op, Globs.Fnmatch, needed);
    AllowedExactly(c, op, presented, Globs.Fnmatch);
  }

  lemma PlainRuleAllows(d: C.Decision, op: Target, c: Config, presented: seq<Detail>)
    requires d.exposed && d.require == Some(C.RequiredDetail("t", [])) && d.operation.id == op.id == "a"
    requires c == Config(true, [NamedRule]) && presented == [Detail("t", [], [], [], Some("x"), [])]
    ensures Evaluate(Rendered([d], Some(c)), op, presented, Globs.Fnmatch).allowed
  {
    var out, plain := Rendered([d], Some(c)), DetailFor(d.require.value);
    NamedRuleIsOwned();
    assert d in [d] && Managed([d]) == {"a"};
    RenderedAlone(d, Some(c));
    forall x | Demanded(out, op, Globs.Fnmatch, x) ensures Covers(x, presented) {
      OwnRuleApplies("a", d.require.value, op, Globs.Fnmatch);
      assert CoversOne(x, presented[0]);
    }
    AllowedExactly(out, op, presented, Globs.Fnmatch);
  }
}
