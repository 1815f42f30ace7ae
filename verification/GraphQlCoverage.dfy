/** Which fields a generated selection has. */
module GraphQlCoverage {
  import opened Wrappers
  import opened GraphQlTypes
  import opened GraphQlSelection

  /** The field takes no arguments and is not excluded from its type. */
  ghost predicate Usable(policy: Policy, typeName: string, f: Field) {
    |f.args| == 0 && (typeName in policy ==> forall i :: 0 <= i < |policy[typeName]| ==> policy[typeName][i] != f.name)
  }

  /** Its type, freed of lists and non-nulls, is an object or an interface. */
  ghost predicate Compound(f: Field) {
    Target(f).kind == Object || Target(f).kind == Interface
  }

  /** What a usable field adds: itself, a bare `__typename` below it where its type is being selected
      already, or else the whole selection of its type, unless that is empty. */
  ghost predicate Gives(s: Schema, policy: Policy, typeName: string, path: seq<string>, f: Field, tree: Tree)
    requires typeName in s
  {
    && Usable(policy, typeName, f) && tree.name == f.name
    && match tree
       case Leaf(_) => !Compound(f)
       case Cut(_) => Compound(f) && Target(f).name in path
       case Nested(_, children) =>
         Compound(f) && Target(f).name !in path && children != []
         && Trees(s, policy, Target(f).name, path + [Target(f).name]) == Some(children)
  }

  lemma OneGives(s: Schema, policy: Policy, typeName: string, path: seq<string>, f: Field, tree: Tree)
    requires typeName in s && OneTree(s, policy, typeName, f, path).Some?
    ensures tree in OneTree(s, policy, typeName, f, path).value <==> Gives(s, policy, typeName, path, f, tree)
  {
    assert Eligible(policy, typeName, f) <==> Usable(policy, typeName, f);
    assert Nests(f) <==> Compound(f);
  }

  lemma {:induction false} FieldsGive(s: Schema, policy: Policy, typeName: string, fields: seq<Field>,
                                      path: seq<string>, tree: Tree)
    requires typeName in s && FieldTrees(s, policy, typeName, fields, path).Some?
    ensures tree in FieldTrees(s, policy, typeName, fields, path).value <==>
      exists f :: f in fields && Gives(s, policy, typeName, path, f, tree)
    decreases |fields|
  {
    if fields != [] {
      OneGives(s, policy, typeName, path, fields[0], tree);
      FieldsGive(s, policy, typeName, fields[1..], path, tree);
      assert forall f :: f in fields <==> f == fields[0] || f in fields[1..];
    }
  }

  /** A generated selection has exactly what the usable fields of its type add. */
  lemma SelectsExactly(s: Schema, policy: Policy, typeName: string, path: seq<string>, tree: Tree)
    requires Trees(s, policy, typeName, path).Some?
    ensures tree in Trees(s, policy, typeName, path).value <==>
      exists f :: f in s[typeName] && Gives(s, policy, typeName, path, f, tree)
  {
    FieldsGive(s, policy, typeName, s[typeName], path, tree);
  }

  /** In the order of the schema, each field adding at most one. */
  lemma {:induction false} InSchemaOrder(s: Schema, policy: Policy, typeName: string, fields: seq<Field>,
          path: seq<string>, i: nat)
    requires typeName in s && FieldTrees(s, policy, typeName, fields, path).Some? && i <= |fields|
    ensures FieldTrees(s, policy, typeName, fields[..i], path).Some?
    ensures FieldTrees(s, policy, typeName, fields[..i], path).value <=
            FieldTrees(s, policy, typeName, fields, path).value
    ensures |FieldTrees(s, policy, typeName, fields[..i], path).value| <= i
    decreases |fields|
  {
    if i > 0 {
      assert fields[..i][0] == fields[0] && fields[..i][1..] == fields[1..][..i - 1];
      InSchemaOrder(s, policy, typeName, fields[1..], path, i - 1);
    }
  }
}
