/** The engine's decision in terms of the policy file's own fields. */
module PolicyMeaning {
  import opened Wrappers
  import opened Policy

  /** A list the rule gives has nothing of the operation. */
  ghost predicate Excluded(op: Target, m: Match, glob: Glob) {
    || (m.ids != [] && forall i :: 0 <= i < |m.ids| ==> !glob(op.id, m.ids[i]))
    || (m.tags != [] && forall t :: t in m.tags ==> t !in op.groupTags)
    || (m.upstream != [] && op.upstream !in m.upstream)
    || (m.effect != [] && op.effect !in m.effect)
    || (m.sensitivity != [] && op.sensitivity !in m.sensitivity)
  }

  lemma MatchesIsNotExcluded(op: Target, m: Match, glob: Glob)
    ensures Matches(op, m, glob) <==> !Excluded(op, m, glob)
  {}

  /** A rule of which one list excludes the operation changes no decision on it, wherever it stands. */
  lemma ExcludedRuleIsInert(c: Config, r: Rule, at: nat, op: Target, presented: seq<Detail>, glob: Glob)
    requires at <= |c.rules| && Excluded(op, r.spec, glob)
    ensures Evaluate(Insert(c, r, at), op, presented, glob) == Evaluate(c, op, presented, glob)
  {
    var before, behind := c.rules[..at], c.rules[at..];
    MatchesIsNotExcluded(op, r.spec, glob);
    MatchingConcat(before + [r], behind, op, glob);
    MatchingConcat(before, [r], op, glob);
    MatchingConcat(before, behind, op, glob);
    var none := [r][1..];
    assert none == [] && Matching(op, none, glob) == [] && Matching(op, [r], glob) == [] + [];
    assert before + behind == c.rules && Insert(c, r, at).rules == before + [r] + behind;
    assert Matching(op, before, glob) + [] == Matching(op, before, glob);
  }

  ghost predicate ListMet(list: Option<seq<string>>, has: seq<string>) {
    list.Some? ==> forall x :: x in list.value ==> x in has
  }

  /** One presented detail has the type, every value of every list that is given, and the identifier
      if one is given. */
  ghost predicate MetBy(q: Requirement, p: Detail) {
    && p.detailType == q.detailType
    && ListMet(q.actions, p.actions) && ListMet(q.locations, p.locations)
    && ListMet(q.datatypes, p.datatypes) && ListMet(q.privileges, p.privileges)
    && (q.identifier.Some? ==> p.identifier == q.identifier)
  }

  ghost predicate Met(q: Requirement, presented: seq<Detail>) {
    exists i :: 0 <= i < |presented| && MetBy(q, presented[i])
  }

  lemma MetIsCovered(q: Requirement, presented: seq<Detail>)
    ensures Met(q, presented) <==> Covers(DetailOf(q), presented)
  {
    forall i | 0 <= i < |presented| ensures MetBy(q, presented[i]) <==> CoversOne(DetailOf(q), presented[i]) {}
  }

  /** The `k`-th rule does not exclude the operation and has this entry. */
  ghost predicate Calls(c: Config, op: Target, glob: Glob, k: nat, q: Requirement) {
    k < |c.rules| && !Excluded(op, c.rules[k].spec, glob) && c.rules[k].require.Some? && q in c.rules[k].require.value
  }

  /** The detail repeats the entry field by field, with nothing for a list that is not given. */
  ghost predicate Says(q: Requirement, d: Detail) {
    && d.detailType == q.detailType && d.identifier == q.identifier
    && d.actions == (if q.actions.Some? then q.actions.value else [])
    && d.locations == (if q.locations.Some? then q.locations.value else [])
    && d.datatypes == (if q.datatypes.Some? then q.datatypes.value else [])
    && d.privileges == (if q.privileges.Some? then q.privileges.value else [])
  }

  lemma DetailSays(q: Requirement, d: Detail)
    ensures Says(q, d) <==> d == DetailOf(q)
  {}

  lemma DemandedIsCalled(c: Config, op: Target, glob: Glob, d: Detail)
    ensures Demanded(c, op, glob, d) <==> exists k: nat, q :: Calls(c, op, glob, k, q) && Says(q, d)
  {
    if Demanded(c, op, glob, d) {
      var k: nat :| Demands(c, op, glob, k, d);
      var entries := c.rules[k].require.value;
      var i :| 0 <= i < |entries| && DetailsOf(entries)[i] == d;
      MatchesIsNotExcluded(op, c.rules[k].spec, glob);
      DetailSays(entries[i], d);
      assert Calls(c, op, glob, k, entries[i]);
    }
    forall k: nat, q | Calls(c, op, glob, k, q) && Says(q, d) ensures Demands(c, op, glob, k, d) {
      CalledIsDemanded(c, op, glob, k, q);
      DetailSays(q, d);
    }
  }

  lemma CalledIsDemanded(c: Config, op: Target, glob: Glob, k: nat, q: Requirement)
    requires Calls(c, op, glob, k, q)
    ensures Demands(c, op, glob, k, DetailOf(q))
  {
    var entries := c.rules[k].require.value;
    MatchesIsNotExcluded(op, c.rules[k].spec, glob);
    var i :| 0 <= i < |entries| && entries[i] == q;
    assert DetailsOf(entries)[i] == DetailOf(q);
  }

  ghost predicate AllMet(c: Config, op: Target, presented: seq<Detail>, glob: Glob) {
    forall k: nat, q :: Calls(c, op, glob, k, q) ==> Met(q, presented)
  }

  ghost predicate SomeCall(c: Config, op: Target, glob: Glob) {
    exists k: nat, q :: Calls(c, op, glob, k, q)
  }

  /** A call is allowed exactly when every entry of every rule that does not exclude the operation is
      met by one presented detail, and there is such an entry or the default allows. */
  lemma AllowsExactly(c: Config, op: Target, presented: seq<Detail>, glob: Glob)
    ensures Evaluate(c, op, presented, glob).allowed <==>
      AllMet(c, op, presented, glob) && (c.allowUnmatched || SomeCall(c, op, glob))
  {
    AllowedExactly(c, op, presented, glob);
    forall k: nat, q | Calls(c, op, glob, k, q)
      ensures Demanded(c, op, glob, DetailOf(q)) && (Met(q, presented) <==> Covers(DetailOf(q), presented))
    {
      CalledIsDemanded(c, op, glob, k, q);
      MetIsCovered(q, presented);
    }
    forall d | Demanded(c, op, glob, d)
      ensures exists k: nat, q :: Calls(c, op, glob, k, q) && d == DetailOf(q)
    {
      DemandedIsCalled(c, op, glob, d);
      var k: nat, q :| Calls(c, op, glob, k, q) && Says(q, d);
      DetailSays(q, d);
    }
  }

  /** What is missing repeats the entries that are not met. */
  lemma MissingSays(c: Config, op: Target, presented: seq<Detail>, glob: Glob, d: Detail)
    ensures d in Evaluate(c, op, presented, glob).missing <==>
      exists k: nat, q :: Calls(c, op, glob, k, q) && Says(q, d) && !Met(q, presented)
  {
    AllowedExactly(c, op, presented, glob);
    DemandedIsCalled(c, op, glob, d);
    forall q | Says(q, d) ensures Met(q, presented) <==> Covers(d, presented) {
      DetailSays(q, d);
      MetIsCovered(q, presented);
    }
  }

  /** What is carried to the upstream repeats the entries of the rules that ask for it, and nothing else. */
  lemma CarrySays(c: Config, op: Target, presented: seq<Detail>, glob: Glob, d: Detail)
    ensures d in Evaluate(c, op, presented, glob).carry <==>
      exists k: nat, q :: Calls(c, op, glob, k, q) && c.rules[k].carry && Says(q, d)
  {
    var carrying := Carrying(Matching(op, c.rules, glob));
    CarryingExactly(c.rules, op, glob);
    DetailsIn(carrying, d);
    if d in Details(carrying) {
      var r :| r in carrying && r.require.Some? && d in DetailsOf(r.require.value);
      CarriedIsCalled(c, op, glob, r, d);
    }
    forall k: nat, q | Calls(c, op, glob, k, q) && c.rules[k].carry && Says(q, d) ensures d in Details(carrying) {
      CalledIsDemanded(c, op, glob, k, q);
      DetailSays(q, d);
      assert c.rules[k] in c.rules;
    }
  }

  lemma CarriedIsCalled(c: Config, op: Target, glob: Glob, r: Rule, d: Detail)
    requires r in c.rules && Matches(op, r.spec, glob) && r.carry && r.require.Some? && d in DetailsOf(r.require.value)
    ensures exists k: nat, q :: Calls(c, op, glob, k, q) && c.rules[k].carry && Says(q, d)
  {
    var k :| 0 <= k < |c.rules| && c.rules[k] == r;
    var i :| 0 <= i < |r.require.value| && DetailsOf(r.require.value)[i] == d;
    MatchesIsNotExcluded(op, r.spec, glob);
    DetailSays(r.require.value[i], d);
    assert Calls(c, op, glob, k, r.require.value[i]);
  }

  lemma {:induction false} CarryingExactly(rules: seq<Rule>, op: Target, glob: Glob)
    ensures forall r :: r in Carrying(Matching(op, rules, glob)) <==> r in rules && Matches(op, r.spec, glob) && r.carry
  {
    if rules != [] {
      var first := if Matches(op, rules[0].spec, glob) then [rules[0]] else [];
      CarryingExactly(rules[1..], op, glob);
      CarryingConcat(first, Matching(op, rules[1..], glob));
      assert forall r :: r in Carrying(first) <==> r in first && r.carry;
      assert forall r :: r in rules <==> r == rules[0] || r in rules[1..];
    }
  }

  lemma {:induction false} CarryingConcat(a: seq<Rule>, b: seq<Rule>)
    ensures Carrying(a + b) == Carrying(a) + Carrying(b)
  {
    if a == [] {
      assert a + b == b;
    } else {
      var first, rest := if a[0].carry then [a[0]] else [], a[1..];
      assert (a + b)[0] == a[0] && (a + b)[1..] == rest + b;
      CarryingConcat(rest, b);
      assert first + (Carrying(rest) + Carrying(b)) == first + Carrying(rest) + Carrying(b);
    }
  }
}
