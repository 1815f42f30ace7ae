/** Coverage of authorization details (RFC 9396) and the allow or deny decision. */
module Policy {
  import opened Wrappers
  import opened Operations
  import Globs

  // ---- One detail covering another

  datatype Detail =
    Detail(detailType: string, actions: seq<string>, locations: seq<string>, datatypes: seq<string>,
           identifier: Option<string>, privileges: seq<string>)

  predicate Within(a: seq<string>, b: seq<string>) {
    forall x :: x in a ==> x in b
  }

  predicate CoversOne(required: Detail, presented: Detail) {
    && presented.detailType == required.detailType
    && !(required.actions != [] && !Within(required.actions, presented.actions))
    && !(required.locations != [] && !Within(required.locations, presented.locations))
    && !(required.datatypes != [] && !Within(required.datatypes, presented.datatypes))
    && !(required.privileges != [] && !Within(required.privileges, presented.privileges))
    && !(required.identifier.Some? && presented.identifier != required.identifier)
  }

  predicate Covers(required: Detail, presented: seq<Detail>) {
    exists i :: 0 <= i < |presented| && CoversOne(required, presented[i])
  }

  /** Coverage is reflexive and transitive. */
  lemma CoverageIsPreorder(a: Detail, b: Detail, c: Detail)
    ensures CoversOne(a, a)
    ensures CoversOne(a, b) && CoversOne(b, c) ==> CoversOne(a, c)
  {}

  // ---- Policies

  datatype Match = Match(ids: seq<string>, tags: seq<string>, upstream: seq<string>,
    effect: seq<Effect>, sensitivity: seq<Sensitivity>)

  datatype Requirement =
    Requirement(detailType: string, actions: Option<seq<string>>,
      locations: Option<seq<string>>, datatypes: Option<seq<string>>,
                identifier: Option<string>, privileges: Option<seq<string>>)

  datatype Rule = Rule(spec: Match, require: Option<seq<Requirement>>, carry: bool)

  datatype Config = Config(allowUnmatched: bool, rules: seq<Rule>)

  datatype Target = Target(id: string, upstream: string, groupTags: seq<string>,
    effect: Effect, sensitivity: Sensitivity)

  predicate FilledList(list: Option<seq<string>>) {
    list.Some? ==> list.value != []
  }

  predicate RequirementValid(r: Requirement) {
    FilledList(r.actions) && FilledList(r.locations) && FilledList(r.datatypes) && FilledList(r.privileges)
  }

  predicate RuleValid(r: Rule) {
    r.require.Some? ==>
      r.require.value != [] && forall i :: 0 <= i < |r.require.value| ==> RequirementValid(r.require.value[i])
  }

  /** What loading a policy file checks. */
  predicate Valid(c: Config) {
    && (forall i :: 0 <= i < |c.rules| ==> RuleValid(c.rules[i]))
    && (!c.allowUnmatched ==> forall i :: 0 <= i < |c.rules| ==> c.rules[i].require.Some?)
  }

  /** How an id compares with a pattern. What is proved of decisions holds for every comparison; the
      engine's is `Globs.Fnmatch`. */
  type Glob = (string, string) -> bool

  predicate Matches(op: Target, m: Match, glob: Glob) {
    && !(m.ids != [] && !exists i :: 0 <= i < |m.ids| && glob(op.id, m.ids[i]))
    && !(m.tags != [] && !exists t :: t in m.tags && t in op.groupTags)
    && !(m.upstream != [] && op.upstream !in m.upstream)
    && !(m.effect != [] && op.effect !in m.effect)
    && !(m.sensitivity != [] && op.sensitivity !in m.sensitivity)
  }

  function OrEmpty(list: Option<seq<string>>): seq<string> {
    if list.Some? then list.value else []
  }

  function DetailOf(r: Requirement): Detail {
    Detail(r.detailType, OrEmpty(r.actions), OrEmpty(r.locations),
      OrEmpty(r.datatypes), r.identifier, OrEmpty(r.privileges))
  }

  function DetailsOf(rs: seq<Requirement>): (ds: seq<Detail>)
    ensures |ds| == |rs| && forall i :: 0 <= i < |rs| ==> ds[i] == DetailOf(rs[i])
  {
    seq(|rs|, i requires 0 <= i < |rs| => DetailOf(rs[i]))
  }

  function Matching(op: Target, rules: seq<Rule>, glob: Glob): seq<Rule> {
    if rules == [] then []
    else (if Matches(op, rules[0].spec, glob) then [rules[0]] else []) + Matching(op, rules[1..], glob)
  }

  function Carrying(rules: seq<Rule>): seq<Rule> {
    if rules == [] then [] else (if rules[0].carry then [rules[0]] else []) + Carrying(rules[1..])
  }

  function Details(rules: seq<Rule>): seq<Detail> {
    if rules == [] then []
    else RuleDetails(rules[0]) + Details(rules[1..])
  }

  function Missing(required: seq<Detail>, presented: seq<Detail>): seq<Detail> {
    if required == [] then []
    else (if Covers(required[0], presented) then [] else [required[0]]) + Missing(required[1..], presented)
  }

  datatype Decision = Decision(allowed: bool, missing: seq<Detail>, carry: seq<Detail>)

  function Evaluate(c: Config, op: Target, presented: seq<Detail>, glob: Glob): Decision {
    var matching := Matching(op, c.rules, glob);
    var required, carry := Details(matching), Details(Carrying(matching));
    if required == [] then Decision(c.allowUnmatched, [], carry)
    else Decision(Missing(required, presented) == [], Missing(required, presented), carry)
  }

  /** What one rule requires. */
  function RuleDetails(r: Rule): seq<Detail> {
    if r.require.Some? then DetailsOf(r.require.value) else []
  }

  lemma DetailsOfOne(r: Rule)
    ensures Details([r]) == RuleDetails(r)
  {
    assert [r][1..] == [] && RuleDetails(r) + [] == RuleDetails(r);
  }

  lemma {:induction false} DetailsConcat(a: seq<Rule>, b: seq<Rule>)
    ensures Details(a + b) == Details(a) + Details(b)
  {
    if a == [] {
      assert a + b == b;
    } else {
      var first, rest := RuleDetails(a[0]), a[1..];
      assert (a + b)[1..] == rest + b;
      DetailsConcat(rest, b);
      assert first + (Details(rest) + Details(b)) == first + Details(rest) + Details(b);
    }
  }

  lemma {:induction false} MatchingConcat(a: seq<Rule>, b: seq<Rule>, op: Target, glob: Glob)
    ensures Matching(op, a + b, glob) == Matching(op, a, glob) + Matching(op, b, glob)
  {
    if a == [] {
      assert a + b == b;
    } else {
      assert (a + b)[1..] == a[1..] + b;
      MatchingConcat(a[1..], b, op, glob);
    }
  }

  method AccumulatedDetails(rules: seq<Rule>) returns (result: seq<Detail>)
    ensures result == Details(rules)
  {
    result := [];
    for i := 0 to |rules|
      invariant result == Details(rules[..i])
    {
      assert rules[..i + 1] == rules[..i] + [rules[i]];
      DetailsConcat(rules[..i], [rules[i]]);
      DetailsOfOne(rules[i]);
      if rules[i].require.None? { continue; }
      result := result + DetailsOf(rules[i].require.value);
    }
    assert rules[..|rules|] == rules;
  }

  /** The engine: its state, the policy, is only read. */
  class PolicyEngine {
    const policy: Config

    constructor (policy: Config)
      ensures this.policy == policy
    {
      this.policy := policy;
    }

    method EvaluateCall(op: Target, presented: seq<Detail>) returns (d: Decision)
      ensures d == Evaluate(policy, op, presented, Globs.Fnmatch)
    {
      var matching := Matching(op, policy.rules, Globs.Fnmatch);
      var required := AccumulatedDetails(matching);
      var carry := AccumulatedDetails(Carrying(matching));
      if required == [] { return Decision(policy.allowUnmatched, [], carry); }
      var missing := Missing(required, presented);
      return Decision(missing == [], missing, carry);
    }
  }

  // ---- What a decision means

  /** One list of a rule's match is no stricter than another: it is omitted, or accepts what the other accepts. */
  ghost predicate Looser<T(!new)>(loose: seq<T>, strict: seq<T>) {
    loose == [] || (strict != [] && forall x :: x in strict ==> x in loose)
  }

  /** A match that is looser in every list applies wherever the stricter one does, and an empty one
      everywhere: lists are alternatives, different lists are conditions. */
  lemma LooserMatchesMore(op: Target, loose: Match, strict: Match, glob: Glob)
    requires Looser(loose.ids, strict.ids) && Looser(loose.tags, strict.tags) && Looser(loose.upstream, strict.upstream)
    requires Looser(loose.effect, strict.effect) && Looser(loose.sensitivity, strict.sensitivity)
    ensures Matches(op, strict, glob) ==> Matches(op, loose, glob)
    ensures Matches(op, Match([], [], [], [], []), glob)
  {
    if Matches(op, strict, glob) && loose.ids != [] {
      var i :| 0 <= i < |strict.ids| && glob(op.id, strict.ids[i]);
      assert strict.ids[i] in loose.ids;
      var j :| 0 <= j < |loose.ids| && loose.ids[j] == strict.ids[i];
      assert glob(op.id, loose.ids[j]);
    }
  }

  /** The rule applies to the operation and requires the detail. */
  ghost predicate Demands(c: Config, op: Target, glob: Glob, k: nat, d: Detail) {
    k < |c.rules| && Matches(op, c.rules[k].spec, glob) && c.rules[k].require.Some?
      && d in DetailsOf(c.rules[k].require.value)
  }

  ghost predicate Demanded(c: Config, op: Target, glob: Glob, d: Detail) {
    exists k: nat :: Demands(c, op, glob, k, d)
  }

  lemma {:induction false} DetailsFrom(op: Target, rules: seq<Rule>, glob: Glob, allow: bool, d: Detail)
    ensures d in Details(Matching(op, rules, glob)) <==> Demanded(Config(allow, rules), op, glob, d)
  {
    if rules != [] {
      var c, later := Config(allow, rules), Config(allow, rules[1..]);
      DetailsFrom(op, rules[1..], glob, allow, d);
      DetailsConcat(if Matches(op, rules[0].spec, glob) then [rules[0]] else [], Matching(op, rules[1..], glob));
      DetailsOfOne(rules[0]);
      if d in Details(Matching(op, rules[1..], glob)) {
        var k: nat :| Demands(later, op, glob, k, d);
        assert Demands(c, op, glob, k + 1, d);
      }
      if Demands(c, op, glob, 0, d) { assert d in Details([rules[0]]); }
      forall k: nat | k > 0 && Demands(c, op, glob, k, d) ensures d in Details(Matching(op, rules[1..], glob)) {
        assert Demands(later, op, glob, k - 1, d);
      }
      if d in Details(Matching(op, rules, glob)) && d !in Details(Matching(op, rules[1..], glob)) {
        assert Demands(c, op, glob, 0, d);
      }
    }
  }

  lemma {:induction false} MissingExactly(required: seq<Detail>, presented: seq<Detail>)
    ensures forall d :: d in Missing(required, presented) <==> d in required && !Covers(d, presented)
  {
    if required != [] { MissingExactly(required[1..], presented); }
  }

  ghost predicate AllCovered(c: Config, op: Target, presented: seq<Detail>, glob: Glob) {
    forall d :: Demanded(c, op, glob, d) ==> Covers(d, presented)
  }

  ghost predicate SomeDemand(c: Config, op: Target, glob: Glob) {
    exists d :: Demanded(c, op, glob, d)
  }

  /** A call is allowed exactly when one presented detail covers each demand of each matching rule,
      and there is a demand or the default allows; what is missing is the uncovered demands. */
  lemma AllowedExactly(c: Config, op: Target, presented: seq<Detail>, glob: Glob)
    ensures Evaluate(c, op, presented, glob).allowed <==>
      AllCovered(c, op, presented, glob) && (c.allowUnmatched || SomeDemand(c, op, glob))
    ensures forall d :: d in Evaluate(c, op, presented, glob).missing <==>
      !Covers(d, presented) && Demanded(c, op, glob, d)
  {
    var required := Details(Matching(op, c.rules, glob));
    assert c == Config(c.allowUnmatched, c.rules);
    forall d ensures d in required <==> Demanded(c, op, glob, d) {
      DetailsFrom(op, c.rules, glob, c.allowUnmatched, d);
    }
    MissingExactly(required, presented);
    if required != [] { assert required[0] in required; }
    var missing := Missing(required, presented);
    if missing != [] { assert missing[0] in missing; }
  }

  /** Under a validated deny policy, allowed means that some rule matches and all it and the other
      matching rules require is covered. */
  lemma DenyMeansMatched(c: Config, op: Target, presented: seq<Detail>, glob: Glob)
    requires Valid(c) && !c.allowUnmatched
    ensures Evaluate(c, op, presented, glob).allowed <==>
      (exists k :: 0 <= k < |c.rules| && Matches(op, c.rules[k].spec, glob)) && AllCovered(c, op, presented, glob)
  {
    AllowedExactly(c, op, presented, glob);
    forall k | 0 <= k < |c.rules| && Matches(op, c.rules[k].spec, glob) ensures SomeDemand(c, op, glob) {
      assert RuleValid(c.rules[k]);
      assert Demands(c, op, glob, k, DetailsOf(c.rules[k].require.value)[0]);
      assert Demanded(c, op, glob, DetailsOf(c.rules[k].require.value)[0]);
    }
    if SomeDemand(c, op, glob) {
      var d :| Demanded(c, op, glob, d);
      var k: nat :| Demands(c, op, glob, k, d);
      assert Matches(op, c.rules[k].spec, glob);
    }
  }

  /** Every presented detail has one in `stronger` that covers it. */
  ghost predicate Strengthened(presented: seq<Detail>, stronger: seq<Detail>) {
    forall p :: p in presented ==> Covers(p, stronger)
  }

  lemma CoversThrough(d: Detail, presented: seq<Detail>, stronger: seq<Detail>)
    requires Covers(d, presented) && Strengthened(presented, stronger)
    ensures Covers(d, stronger)
  {
    var i :| 0 <= i < |presented| && CoversOne(d, presented[i]);
    assert presented[i] in presented;
    var j :| 0 <= j < |stronger| && CoversOne(presented[i], stronger[j]);
    CoverageIsPreorder(d, presented[i], stronger[j]);
  }

  /** A caller with stronger details loses no permission and misses nothing new. */
  lemma StrongerKeepsAllowed(c: Config, op: Target, presented: seq<Detail>, stronger: seq<Detail>, glob: Glob)
    requires Strengthened(presented, stronger)
    ensures Evaluate(c, op, presented, glob).allowed ==> Evaluate(c, op, stronger, glob).allowed
    ensures forall d :: d in Evaluate(c, op, stronger, glob).missing ==> d in Evaluate(c, op, presented, glob).missing
  {
    AllowedExactly(c, op, presented, glob);
    AllowedExactly(c, op, stronger, glob);
    forall d | Covers(d, presented) ensures Covers(d, stronger) { CoversThrough(d, presented, stronger); }
  }

  function Insert(c: Config, r: Rule, at: nat): Config
    requires at <= |c.rules|
  {
    c.(rules := c.rules[..at] + [r] + c.rules[at..])
  }

  ghost predicate RuleDemands(r: Rule, op: Target, glob: Glob, d: Detail) {
    Matches(op, r.spec, glob) && r.require.Some? && d in DetailsOf(r.require.value)
  }

  lemma InsertKeepsDemands(c: Config, r: Rule, at: nat, op: Target, glob: Glob, d: Detail)
    requires at <= |c.rules| && (Demanded(c, op, glob, d) || RuleDemands(r, op, glob, d))
    ensures Demanded(Insert(c, r, at), op, glob, d)
  {
    var more := Insert(c, r, at);
    if RuleDemands(r, op, glob, d) {
      assert Demands(more, op, glob, at, d);
    } else {
      var k: nat :| Demands(c, op, glob, k, d);
      assert Demands(more, op, glob, if k < at then k else k + 1, d);
    }
  }

  lemma InsertDemands(c: Config, r: Rule, at: nat, op: Target, glob: Glob, d: Detail)
    requires at <= |c.rules|
    ensures Demanded(Insert(c, r, at), op, glob, d) <==> Demanded(c, op, glob, d) || RuleDemands(r, op, glob, d)
  {
    var more := Insert(c, r, at);
    if Demanded(more, op, glob, d) {
      var k: nat :| Demands(more, op, glob, k, d);
      if k != at { assert Demands(c, op, glob, if k < at then k else k - 1, d); }
    } else if Demanded(c, op, glob, d) || RuleDemands(r, op, glob, d) {
      InsertKeepsDemands(c, r, at, op, glob, d);
    }
  }

  /** Adding a rule anywhere turns deny into allow exactly when the default is deny, nothing was
      demanded before, and the new rule matches with a demand that is wholly covered. */
  lemma AddedRuleAllowsExactly(c: Config, r: Rule, at: nat, op: Target, presented: seq<Detail>, glob: Glob)
    requires at <= |c.rules|
    ensures !Evaluate(c, op, presented, glob).allowed && Evaluate(Insert(c, r, at), op, presented, glob).allowed <==>
      && !c.allowUnmatched && !SomeDemand(c, op, glob)
      && (exists d :: RuleDemands(r, op, glob, d)) && (forall d :: RuleDemands(r, op, glob, d) ==> Covers(d, presented))
  {
    var more := Insert(c, r, at);
    AllowedExactly(c, op, presented, glob);
    AllowedExactly(more, op, presented, glob);
    forall d
      ensures Demanded(more, op, glob, d) <==> Demanded(c, op, glob, d) || RuleDemands(r, op, glob, d)
    {
      InsertDemands(c, r, at, op, glob, d);
    }
  }

  lemma {:induction false} CarryingIsPart(rules: seq<Rule>)
    ensures forall r :: r in Carrying(rules) ==> r in rules
  {
    if rules != [] { CarryingIsPart(rules[1..]); }
  }

  lemma {:induction false} DetailsIn(rules: seq<Rule>, d: Detail)
    ensures d in Details(rules) <==> exists r :: r in rules && r.require.Some? && d in DetailsOf(r.require.value)
  {
    if rules != [] {
      DetailsIn(rules[1..], d);
      assert rules[0] in rules && forall r :: r in rules[1..] ==> r in rules;
    }
  }

  /** Nothing is sent along that the caller was not granted. */
  lemma CarriedIsCovered(c: Config, op: Target, presented: seq<Detail>, glob: Glob)
    requires Evaluate(c, op, presented, glob).allowed
    ensures forall d :: d in Evaluate(c, op, presented, glob).carry ==> Covers(d, presented)
  {
    var matching := Matching(op, c.rules, glob);
    CarryingIsPart(matching);
    forall d | d in Details(Carrying(matching)) ensures Covers(d, presented) {
      DetailsIn(Carrying(matching), d);
      DetailsIn(matching, d);
      MissingExactly(Details(matching), presented);
    }
  }

  datatype ListField = Actions | Locations | Datatypes | Privileges

  function ListOf(d: Detail, f: ListField): seq<string> {
    match f
    case Actions => d.actions
    case Locations => d.locations
    case Datatypes => d.datatypes
    case Privileges => d.privileges
  }

  /** Two values, in one list or in two, that the detail requires. */
  predicate Needs(d: Detail, f: ListField, x: string, g: ListField, y: string) {
    x in ListOf(d, f) && y in ListOf(d, g)
  }

  /** Two narrow grants are not composed into one that neither conveyed: if no single presented detail
      of the type holds both of two required values, the requirement is not covered, however many
      details hold one of them. */
  lemma GrantsDoNotCompose(d: Detail, presented: seq<Detail>, f: ListField, x: string, g: ListField, y: string)
    requires Needs(d, f, x, g, y)
    requires forall p :: p in presented && p.detailType == d.detailType ==> !Needs(p, f, x, g, y)
    ensures !Covers(d, presented)
  {
    forall i | 0 <= i < |presented| ensures !CoversOne(d, presented[i]) {
      assert presented[i] in presented;
      if CoversOne(d, presented[i]) { CoveredHasAll(d, presented[i], f); CoveredHasAll(d, presented[i], g); }
    }
  }

  lemma CoveredHasAll(required: Detail, presented: Detail, f: ListField)
    requires CoversOne(required, presented)
    ensures Within(ListOf(required, f), ListOf(presented, f)) && presented.detailType == required.detailType
  {}

  /** One detail covers another exactly when it has its type, everything on its lists, and its
      identifier if it names one. */
  lemma CoversOneExactly(required: Detail, presented: Detail)
    ensures CoversOne(required, presented) <==>
      && presented.detailType == required.detailType
      && (forall f, x :: x in ListOf(required, f) ==> x in ListOf(presented, f))
      && (required.identifier.Some? ==> presented.identifier == required.identifier)
  {
    if CoversOne(required, presented) {
      forall f, x | x in ListOf(required, f)
        ensures x in ListOf(presented, f)
      {
        CoveredHasAll(required, presented, f);
      }
    }
    if forall f, x :: x in ListOf(required, f) ==> x in ListOf(presented, f) {
      forall f ensures Within(ListOf(required, f), ListOf(presented, f)) {}
      assert Within(ListOf(required, Actions), ListOf(presented, Actions));
      assert Within(ListOf(required, Locations), ListOf(presented, Locations));
      assert Within(ListOf(required, Datatypes), ListOf(presented, Datatypes));
      assert Within(ListOf(required, Privileges), ListOf(presented, Privileges));
    }
  }
}
