/** Which selections are generated: validity, nesting, and what makes a branch fail or vanish. */
module GraphQlValidity {
  import opened Wrappers
  import opened GraphQlTypes
  import opened GraphQlSelection
  import opened GraphQlTheorems

  /** Sections 3.6 and 2.1.9 of the GraphQL specification: valid field names, each once per type, none reserved. */
  ghost predicate WellNamed(s: Schema) {
    forall t :: t in s ==>
      && (forall f :: f in s[t] ==> ValidName(f.name) && f.name != "__typename")
      && (forall f, g :: f in s[t] && g in s[t] && f.name == g.name ==> f == g)
  }

  predicate Composite(f: Field, unions: bool) {
    Nests(f) || (unions && Target(f).kind.Union?)
  }

  /** Sections 5.3.1 and 5.3.3: each selection names a field that needs no arguments, with a
      non-empty sub-selection exactly when its type is composite. `unions` says whether union types
      count as composite, as they do in the GraphQL specification but not in the generator. */
  ghost predicate ValidSet(s: Schema, policy: Policy, typeName: string, sels: seq<Selection>, unions: bool)
    decreases sels, 0
  {
    typeName in s && forall i :: 0 <= i < |sels| ==>
      exists f :: f in s[typeName] && ValidSel(s, policy, typeName, sels[i], f, unions)
  }

  ghost predicate ValidSel(s: Schema, policy: Policy, typeName: string, sel: Selection, f: Field, unions: bool)
    decreases sel, 1
  {
    && f.name == sel.name && Eligible(policy, typeName, f)
    && if Composite(f, unions)
       then sel.children != []
         && (sel.children == [TYPENAME] || ValidSet(s, policy, Target(f).name, sel.children, unions))
       else sel.children == []
  }

  // ---- Every selection is valid

  lemma {:induction false} TreesValid(s: Schema, policy: Policy, typeName: string, path: seq<string>)
    requires WellNamed(s) && Trees(s, policy, typeName, path).Some?
    ensures ValidSet(s, policy, typeName, Abstract(Trees(s, policy, typeName, path).value), false)
    ensures TreesNamed(Trees(s, policy, typeName, path).value)
    decreases Rank(s, typeName, path), 1, 0
  {
    FieldTreesValid(s, policy, typeName, s[typeName], path);
  }

  lemma {:induction false} FieldTreesValid(s: Schema, policy: Policy, typeName: string, fields: seq<Field>,
          path: seq<string>)
    requires WellNamed(s) && typeName in s && FieldTrees(s, policy, typeName, fields, path).Some?
    requires forall f :: f in fields ==> f in s[typeName]
    ensures ValidSet(s, policy, typeName, Abstract(FieldTrees(s, policy, typeName, fields, path).value), false)
    ensures TreesNamed(FieldTrees(s, policy, typeName, fields, path).value)
    decreases Rank(s, typeName, path), 0, |fields|
  {
    if fields != [] {
      var f, one := fields[0], OneTree(s, policy, typeName, fields[0], path).value;
      var rest := FieldTrees(s, policy, typeName, fields[1..], path).value;
      FieldTreesValid(s, policy, typeName, fields[1..], path);
      OneTreeValid(s, policy, typeName, f, path);
      if one == [] {
        assert one + rest == rest;
      } else {
        assert one + rest == [one[0]] + rest && (one + rest)[1..] == rest;
      }
    }
  }

  lemma {:induction false} OneTreeValid(s: Schema, policy: Policy, typeName: string, f: Field, path: seq<string>)
    requires WellNamed(s) && typeName in s && f in s[typeName] && OneTree(s, policy, typeName, f, path).Some?
    ensures |OneTree(s, policy, typeName, f, path).value| <= 1
    ensures forall tree :: tree in OneTree(s, policy, typeName, f, path).value ==>
      TreeNamed(tree) && ValidSel(s, policy, typeName, AbstractTree(tree), f, false)
    decreases Rank(s, typeName, path), 0, 0
  {
    var target := Target(f).name;
    if Eligible(policy, typeName, f) && Nests(f) && target !in path {
      RankFalls(s, typeName, path, target);
      TreesValid(s, policy, target, path + [target]);
    }
  }

  function Depth(sels: seq<Selection>): nat
    decreases sels, 0
  {
    if sels == [] then 0
    else
      var first, rest := SelDepth(sels[0]), Depth(sels[1..]);
      if first > rest then first else rest
  }

  function SelDepth(sel: Selection): nat
    decreases sel, 1
  {
    1 + Depth(sel.children)
  }

  lemma {:induction false} DepthConcat(a: seq<Selection>, b: seq<Selection>)
    ensures Depth(a + b) == if Depth(a) > Depth(b) then Depth(a) else Depth(b)
  {
    if a == [] {
      assert a + b == b;
    } else {
      assert (a + b)[1..] == a[1..] + b;
      DepthConcat(a[1..], b);
    }
  }

  lemma {:induction false} AbstractConcat(a: seq<Tree>, b: seq<Tree>)
    ensures Abstract(a + b) == Abstract(a) + Abstract(b)
  {
    if a == [] {
      assert a + b == b;
    } else {
      assert (a + b)[1..] == a[1..] + b;
      AbstractConcat(a[1..], b);
    }
  }

  /** Every level of nesting uses up a type; a cut adds one level. */
  lemma {:induction false} TreesBounded(s: Schema, policy: Policy, typeName: string, path: seq<string>)
    requires Trees(s, policy, typeName, path).Some?
    ensures Depth(Abstract(Trees(s, policy, typeName, path).value)) <= Rank(s, typeName, path) + 1
    decreases Rank(s, typeName, path), 1, 0
  {
    FieldTreesBounded(s, policy, typeName, s[typeName], path);
  }

  lemma {:induction false} FieldTreesBounded(s: Schema, policy: Policy, typeName: string, fields: seq<Field>,
          path: seq<string>)
    requires typeName in s && FieldTrees(s, policy, typeName, fields, path).Some?
    ensures Depth(Abstract(FieldTrees(s, policy, typeName, fields, path).value)) <= Rank(s, typeName, path) + 1
    decreases Rank(s, typeName, path), 0, |fields|
  {
    if fields != [] {
      var one := OneTree(s, policy, typeName, fields[0], path).value;
      var rest := FieldTrees(s, policy, typeName, fields[1..], path).value;
      FieldTreesBounded(s, policy, typeName, fields[1..], path);
      OneTreeBounded(s, policy, typeName, fields[0], path);
      AbstractConcat(one, rest);
      DepthConcat(Abstract(one), Abstract(rest));
    }
  }

  lemma {:induction false} OneTreeBounded(s: Schema, policy: Policy, typeName: string, f: Field, path: seq<string>)
    requires typeName in s && OneTree(s, policy, typeName, f, path).Some?
    ensures Depth(Abstract(OneTree(s, policy, typeName, f, path).value)) <= Rank(s, typeName, path) + 1
    decreases Rank(s, typeName, path), 0, 0
  {
    var target := Target(f).name;
    if Eligible(policy, typeName, f) {
      if !Nests(f) {
        assert Abstract([Leaf(f.name)]) == [Selection(f.name, [])];
      } else if target in path {
        assert Abstract([Cut(f.name)]) == [Selection(f.name, [TYPENAME])];
        assert Depth([TYPENAME]) == 1;
      } else {
        RankFalls(s, typeName, path, target);
        TreesBounded(s, policy, target, path + [target]);
        var children := Trees(s, policy, target, path + [target]).value;
        if children != [] {
          assert Abstract([Nested(f.name, children)]) == [Selection(f.name, Abstract(children))];
        }
      }
    }
  }

  /** Whatever the schema, cyclic or not, the generated text reads back to a non-empty selection that
      is valid for the type and nests no deeper than the schema has types, a cut adding one. */
  lemma GeneratedTextIsValid(s: Schema, policy: Policy, typeName: string)
    requires WellNamed(s) && Trees(s, policy, typeName, [typeName]).Some?
    ensures var parsed := ParseText(SelectionText(Trees(s, policy, typeName, [typeName]).value));
      && parsed.Some? && parsed.value != []
      && (parsed.value == [TYPENAME] || ValidSet(s, policy, typeName, parsed.value, false))
      && Depth(parsed.value) <= |s| + 1
  {
    var trees := Trees(s, policy, typeName, [typeName]).value;
    TreesValid(s, policy, typeName, [typeName]);
    TreesBounded(s, policy, typeName, [typeName]);
    TextComesBack(trees);
    var seen := set t | t in [typeName];
    assert s.Keys - seen == s.Keys - {typeName};
    assert Depth([TYPENAME]) == 1;
  }

  // ---- What decides failure, emptiness and validity under the GraphQL specification

  /** A walk through eligible composite fields to types not met before. */
  ghost predicate Walk(s: Schema, policy: Policy, typeName: string, path: seq<string>, walk: seq<string>)
    decreases walk
  {
    walk == [] ||
    (typeName in s && Steps(s, policy, typeName, walk[0]) && walk[0] !in path
      && Walk(s, policy, walk[0], path + [walk[0]], walk[1..]))
  }

  ghost predicate Steps(s: Schema, policy: Policy, typeName: string, target: string)
    requires typeName in s
  {
    exists f :: f in s[typeName] && Eligible(policy, typeName, f) && Nests(f) && Target(f).name == target
  }

  function End(typeName: string, walk: seq<string>): string {
    if walk == [] then typeName else walk[|walk| - 1]
  }

  /** A field that is selected for its own sake: a leaf, or one that closes a cycle. */
  ghost predicate Bears(s: Schema, policy: Policy, typeName: string, path: seq<string>) {
    typeName in s &&
    exists f :: f in s[typeName] && Eligible(policy, typeName, f) && (Nests(f) ==> Target(f).name in path)
  }

  ghost predicate HasUnion(s: Schema, policy: Policy, typeName: string) {
    typeName in s && exists f :: f in s[typeName] && Eligible(policy, typeName, f) && Target(f).kind.Union?
  }

  datatype Goal = Undefined | Bearing | UnionField

  ghost predicate Meets(s: Schema, policy: Policy, typeName: string, path: seq<string>, goal: Goal) {
    match goal
    case Undefined => typeName !in s
    case Bearing => Bears(s, policy, typeName, path)
    case UnionField => HasUnion(s, policy, typeName)
  }

  /** Some walk ends at a type that meets the goal. */
  ghost predicate Reaches(s: Schema, policy: Policy, typeName: string, path: seq<string>, goal: Goal) {
    exists walk :: Walk(s, policy, typeName, path, walk) && Meets(s, policy, End(typeName, walk), path + walk, goal)
  }

  /** Reaching the goal takes one step to a type that reaches it. */
  ghost predicate StepsTo(s: Schema, policy: Policy, typeName: string, path: seq<string>, goal: Goal) {
    typeName in s && exists target ::
      Steps(s, policy, typeName, target) && target !in path && Reaches(s, policy, target, path + [target], goal)
  }

  lemma ReachesSplits(s: Schema, policy: Policy, typeName: string, path: seq<string>, goal: Goal)
    requires Reaches(s, policy, typeName, path, goal)
    ensures Meets(s, policy, typeName, path, goal) || StepsTo(s, policy, typeName, path, goal)
  {
    var walk :| Walk(s, policy, typeName, path, walk) && Meets(s, policy, End(typeName, walk), path + walk, goal);
    if walk == [] {
      assert path + walk == path;
    } else {
      assert path + walk == path + [walk[0]] + walk[1..] && End(walk[0], walk[1..]) == End(typeName, walk);
      assert Reaches(s, policy, walk[0], path + [walk[0]], goal);
    }
  }

  lemma MeetsReaches(s: Schema, policy: Policy, typeName: string, path: seq<string>, goal: Goal)
    requires Meets(s, policy, typeName, path, goal)
    ensures Reaches(s, policy, typeName, path, goal)
  {
    assert path + [] == path;
    assert Walk(s, policy, typeName, path, []) && End(typeName, []) == typeName;
  }

  lemma StepReaches(s: Schema, policy: Policy, typeName: string, path: seq<string>, target: string, goal: Goal)
    requires typeName in s && Steps(s, policy, typeName, target) && target !in path
    requires Reaches(s, policy, target, path + [target], goal)
    ensures Reaches(s, policy, typeName, path, goal)
  {
    var rest :| Walk(s, policy, target, path + [target], rest)
      && Meets(s, policy, End(target, rest), path + [target] + rest, goal);
    var walk := [target] + rest;
    assert walk[1..] == rest && path + walk == path + [target] + rest && End(typeName, walk) == End(target, rest);
    assert Walk(s, policy, typeName, path, walk);
  }

  /** A walk ends here or takes one step. */
  lemma ReachesUnfolds(s: Schema, policy: Policy, typeName: string, path: seq<string>, goal: Goal)
    ensures Reaches(s, policy, typeName, path, goal) <==>
      Meets(s, policy, typeName, path, goal) || StepsTo(s, policy, typeName, path, goal)
  {
    if Reaches(s, policy, typeName, path, goal) {
      ReachesSplits(s, policy, typeName, path, goal);
    } else {
      if Meets(s, policy, typeName, path, goal) { MeetsReaches(s, policy, typeName, path, goal); }
      if StepsTo(s, policy, typeName, path, goal) {
        var target :| Steps(s, policy, typeName, target) && target !in path
          && Reaches(s, policy, target, path + [target], goal);
        StepReaches(s, policy, typeName, path, target, goal);
      }
    }
  }

  lemma {:induction false} FieldsFail(s: Schema, policy: Policy, typeName: string, fields: seq<Field>,
          path: seq<string>)
    requires typeName in s
    ensures FieldTrees(s, policy, typeName, fields, path).None? <==>
      exists f :: f in fields && OneTree(s, policy, typeName, f, path).None?
  {
    if fields != [] {
      FieldsFail(s, policy, typeName, fields[1..], path);
      assert fields[0] in fields && forall f :: f in fields[1..] ==> f in fields;
      assert FieldTrees(s, policy, typeName, fields, path).None? <==>
        OneTree(s, policy, typeName, fields[0], path).None? || FieldTrees(s, policy, typeName, fields[1..], path).None?;
    }
  }

  /** Generation fails exactly when a walk through eligible composite fields ends at an undefined type. */
  lemma {:induction false} FailsExactly(s: Schema, policy: Policy, typeName: string, path: seq<string>)
    ensures Trees(s, policy, typeName, path).None? <==> Reaches(s, policy, typeName, path, Undefined)
    decreases Rank(s, typeName, path)
  {
    ReachesUnfolds(s, policy, typeName, path, Undefined);
    if typeName in s {
      FieldsFail(s, policy, typeName, s[typeName], path);
      forall f | f in s[typeName] && Eligible(policy, typeName, f) && Nests(f) && Target(f).name !in path
        ensures Steps(s, policy, typeName, Target(f).name)
        ensures OneTree(s, policy, typeName, f, path).None? <==>
          Reaches(s, policy, Target(f).name, path + [Target(f).name], Undefined)
      {
        RankFalls(s, typeName, path, Target(f).name);
        FailsExactly(s, policy, Target(f).name, path + [Target(f).name]);
      }
    }
  }

  lemma {:induction false} FieldsEmpty(s: Schema, policy: Policy, typeName: string, fields: seq<Field>,
          path: seq<string>)
    requires typeName in s && FieldTrees(s, policy, typeName, fields, path).Some?
    ensures forall f :: f in fields ==> OneTree(s, policy, typeName, f, path).Some?
    ensures FieldTrees(s, policy, typeName, fields, path).value == [] <==>
      forall f :: f in fields ==> OneTree(s, policy, typeName, f, path).value == []
  {
    if fields != [] {
      FieldsEmpty(s, policy, typeName, fields[1..], path);
      assert fields[0] in fields && forall f :: f in fields[1..] ==> f in fields;
      assert FieldTrees(s, policy, typeName, fields, path).value ==
        OneTree(s, policy, typeName, fields[0], path).value + FieldTrees(s, policy, typeName, fields[1..], path).value;
    }
  }

  /** A branch vanishes exactly when no walk from it meets a leaf or closes a cycle. */
  lemma {:induction false} EmptyExactly(s: Schema, policy: Policy, typeName: string, path: seq<string>)
    requires Trees(s, policy, typeName, path).Some?
    ensures Trees(s, policy, typeName, path).value != [] <==> Reaches(s, policy, typeName, path, Bearing)
    decreases Rank(s, typeName, path)
  {
    ReachesUnfolds(s, policy, typeName, path, Bearing);
    FieldsEmpty(s, policy, typeName, s[typeName], path);
    forall f | f in s[typeName] && Eligible(policy, typeName, f) && Nests(f) && Target(f).name !in path
      ensures Steps(s, policy, typeName, Target(f).name)
      ensures OneTree(s, policy, typeName, f, path).value != [] <==>
        Reaches(s, policy, Target(f).name, path + [Target(f).name], Bearing)
    {
      RankFalls(s, typeName, path, Target(f).name);
      EmptyExactly(s, policy, Target(f).name, path + [Target(f).name]);
    }
  }

  lemma {:induction false} FieldsMembers(s: Schema, policy: Policy, typeName: string, fields: seq<Field>,
          path: seq<string>, sel: Selection)
    requires typeName in s && FieldTrees(s, policy, typeName, fields, path).Some?
    ensures forall f :: f in fields ==>
      OneTree(s, policy, typeName, f, path).Some? && |OneTree(s, policy, typeName, f, path).value| <= 1
    ensures sel in Abstract(FieldTrees(s, policy, typeName, fields, path).value) <==>
      exists f :: f in fields && OneTree(s, policy, typeName, f, path).value != []
                    && AbstractTree(OneTree(s, policy, typeName, f, path).value[0]) == sel
  {
    if fields != [] {
      var one, rest := OneTree(s, policy, typeName, fields[0], path).value,
        FieldTrees(s, policy, typeName, fields[1..], path).value;
      FieldsMembers(s, policy, typeName, fields[1..], path, sel);
      assert fields[0] in fields && forall f :: f in fields[1..] ==> f in fields;
      assert FieldTrees(s, policy, typeName, fields, path).value == one + rest;
      AbstractConcat(one, rest);
    }
  }

  /** What a field contributes is valid under the GraphQL specification. */
  ghost predicate StrictlyValid(s: Schema, policy: Policy, typeName: string, f: Field, path: seq<string>)
    requires typeName in s
  {
    var one := OneTree(s, policy, typeName, f, path);
    one.Some? && forall tree :: tree in one.value ==> ValidSel(s, policy, typeName, AbstractTree(tree), f, true)
  }

  lemma FieldsStrict(s: Schema, policy: Policy, typeName: string, path: seq<string>)
    requires WellNamed(s) && Trees(s, policy, typeName, path).Some?
    ensures ValidSet(s, policy, typeName, Abstract(Trees(s, policy, typeName, path).value), true) <==>
      forall f :: f in s[typeName] ==> StrictlyValid(s, policy, typeName, f, path)
  {
    var fields := s[typeName];
    var sels := Abstract(Trees(s, policy, typeName, path).value);
    if ValidSet(s, policy, typeName, sels, true) {
      forall f | f in fields ensures StrictlyValid(s, policy, typeName, f, path) {
        FieldStrict(s, policy, typeName, path, f);
      }
    }
    if forall f :: f in fields ==> StrictlyValid(s, policy, typeName, f, path) {
      forall i | 0 <= i < |sels| ensures exists f :: f in fields && ValidSel(s, policy, typeName, sels[i], f, true) {
        FieldsMembers(s, policy, typeName, fields, path, sels[i]);
        var f :| f in fields && OneTree(s, policy, typeName, f, path).value != []
                   && AbstractTree(OneTree(s, policy, typeName, f, path).value[0]) == sels[i];
        assert StrictlyValid(s, policy, typeName, f, path);
      }
    }
  }

  lemma FieldStrict(s: Schema, policy: Policy, typeName: string, path: seq<string>, f: Field)
    requires WellNamed(s) && Trees(s, policy, typeName, path).Some? && f in s[typeName]
    requires ValidSet(s, policy, typeName, Abstract(Trees(s, policy, typeName, path).value), true)
    ensures StrictlyValid(s, policy, typeName, f, path)
  {
    FieldsMembers(s, policy, typeName, s[typeName], path, TYPENAME);
    var one := OneTree(s, policy, typeName, f, path).value;
    if one != [] {
      assert one == [one[0]];
      FieldsMembers(s, policy, typeName, s[typeName], path, AbstractTree(one[0]));
      OneTreeName(s, policy, typeName, f, path);
      SelectionOfField(s, policy, typeName, Abstract(Trees(s, policy, typeName, path).value), AbstractTree(one[0]), f);
    }
  }

  lemma OneTreeName(s: Schema, policy: Policy, typeName: string, f: Field, path: seq<string>)
    requires typeName in s && OneTree(s, policy, typeName, f, path).Some?
      && OneTree(s, policy, typeName, f, path).value != []
    ensures AbstractTree(OneTree(s, policy, typeName, f, path).value[0]).name == f.name
  {}

  lemma SelectionOfField(s: Schema, policy: Policy, typeName: string, sels: seq<Selection>, sel: Selection, f: Field)
    requires WellNamed(s) && ValidSet(s, policy, typeName, sels, true)
    requires sel in sels && f in s[typeName] && f.name == sel.name
    ensures ValidSel(s, policy, typeName, sel, f, true)
  {
    var i :| 0 <= i < |sels| && sels[i] == sel;
    var g :| g in s[typeName] && ValidSel(s, policy, typeName, sels[i], g, true);
    assert g.name == f.name;
  }

  lemma NoneIsTypename(s: Schema, policy: Policy, typeName: string, sels: seq<Selection>)
    requires WellNamed(s) && ValidSet(s, policy, typeName, sels, false)
    ensures forall sel :: sel in sels ==> sel.name != "__typename"
  {
    forall sel | sel in sels ensures sel.name != "__typename" {
      var i :| 0 <= i < |sels| && sels[i] == sel;
      var g :| g in s[typeName] && ValidSel(s, policy, typeName, sels[i], g, false);
      assert g.name == sel.name;
    }
  }

  /** The generated selection is valid under the GraphQL specification exactly when no walk meets an eligible
      field of union type, which the generator selects without the sub-selection a union needs. */
  lemma {:induction false} SpecificationValidExactly(s: Schema, policy: Policy, typeName: string, path: seq<string>)
    requires WellNamed(s) && Trees(s, policy, typeName, path).Some?
    ensures ValidSet(s, policy, typeName, Abstract(Trees(s, policy, typeName, path).value), true) <==>
      !Reaches(s, policy, typeName, path, UnionField)
    decreases Rank(s, typeName, path), 1
  {
    ReachesUnfolds(s, policy, typeName, path, UnionField);
    FieldsStrict(s, policy, typeName, path);
    FieldsEmpty(s, policy, typeName, s[typeName], path);
    forall f | f in s[typeName]
      ensures StrictlyValid(s, policy, typeName, f, path) <==> !MeetsThrough(s, policy, typeName, path, f)
    {
      FieldStrictExactly(s, policy, typeName, path, f);
    }
    forall f | f in s[typeName] && Eligible(policy, typeName, f) && Nests(f)
      ensures Steps(s, policy, typeName, Target(f).name)
    {}
  }

  /** The field is of union type, or leads to one. */
  ghost predicate MeetsThrough(s: Schema, policy: Policy, typeName: string, path: seq<string>, f: Field) {
    Eligible(policy, typeName, f) &&
    (Target(f).kind.Union? ||
     (Nests(f) && Target(f).name !in path && Reaches(s, policy, Target(f).name, path + [Target(f).name], UnionField)))
  }

  lemma {:induction false} FieldStrictExactly(s: Schema, policy: Policy, typeName: string, path: seq<string>, f: Field)
    requires WellNamed(s) && typeName in s && f in s[typeName] && OneTree(s, policy, typeName, f, path).Some?
    ensures StrictlyValid(s, policy, typeName, f, path) <==> !MeetsThrough(s, policy, typeName, path, f)
    decreases Rank(s, typeName, path), 0
  {
    var target := Target(f).name;
    if Eligible(policy, typeName, f) {
      if Nests(f) && target !in path {
        RankFalls(s, typeName, path, target);
        SpecificationValidExactly(s, policy, target, path + [target]);
        NestedStrict(s, policy, typeName, path, f);
      } else {
        var tree := if Nests(f) then Cut(f.name) else Leaf(f.name);
        assert OneTree(s, policy, typeName, f, path).value == [tree] && tree in [tree];
      }
    }
  }

  lemma NestedStrict(s: Schema, policy: Policy, typeName: string, path: seq<string>, f: Field)
    requires WellNamed(s) && typeName in s && f in s[typeName] && OneTree(s, policy, typeName, f, path).Some?
    requires Eligible(policy, typeName, f) && Nests(f) && Target(f).name !in path
    requires Trees(s, policy, Target(f).name, path + [Target(f).name]).Some?
    ensures StrictlyValid(s, policy, typeName, f, path) <==>
      ValidSet(s, policy, Target(f).name,
        Abstract(Trees(s, policy, Target(f).name, path + [Target(f).name]).value), true)
  {
    var target := Target(f).name;
    var children := Trees(s, policy, target, path + [target]).value;
    TreesValid(s, policy, target, path + [target]);
    if children != [] {
      assert OneTree(s, policy, typeName, f, path).value == [Nested(f.name, children)];
      assert AbstractTree(Nested(f.name, children)) == Selection(f.name, Abstract(children));
      NoneIsTypename(s, policy, target, Abstract(children));
      assert Abstract(children) != [TYPENAME] by { assert Abstract(children)[0] in Abstract(children); }
    }
  }

  const UnionSchema: Schema := map["Query" := [Field("search", Named(Union, "Result"), [])]]

  /** One field of union type: it is selected bare, which the GraphQL specification forbids. */
  lemma UnionExample()
    ensures WellNamed(UnionSchema) && Trees(UnionSchema, map[], "Query", ["Query"]) == Some([Leaf("search")])
    ensures !ValidSet(UnionSchema, map[], "Query", Abstract([Leaf("search")]), true)
    ensures ValidSet(UnionSchema, map[], "Query", Abstract([Leaf("search")]), false)
  {
    var f := Field("search", Named(Union, "Result"), []);
    UnionTrees();
    assert HasUnion(UnionSchema, map[], "Query") by { assert f in UnionSchema["Query"]; }
    MeetsReaches(UnionSchema, map[], "Query", ["Query"], UnionField);
    SpecificationValidExactly(UnionSchema, map[], "Query", ["Query"]);
    TreesValid(UnionSchema, map[], "Query", ["Query"]);
  }

  lemma UnionTrees()
    ensures WellNamed(UnionSchema) && Trees(UnionSchema, map[], "Query", ["Query"]) == Some([Leaf("search")])
  {
    var f := Field("search", Named(Union, "Result"), []);
    assert UnionSchema["Query"] == [f] && [f][1..] == [];
    assert forall i :: 0 <= i < |"search"| ==> NameChar("search"[i]);
    assert OneTree(UnionSchema, map[], "Query", f, ["Query"]) == Some([Leaf("search")]);
    assert [Leaf("search")] + [] == [Leaf("search")];
  }
}
