/** Generating a selection set for a type of a possibly cyclic schema, and reading it back. */
module GraphQlSelection {
  import opened Wrappers
  import opened GraphQlTypes
  import Strings = Text

  datatype Argument = Argument(name: string, ref: TypeRef)

  datatype Field = Field(name: string, ref: TypeRef, args: seq<Argument>)

  /** The fields of each type, in schema order. */
  type Schema = map<string, seq<Field>>

  /** The fields excluded from each type. */
  type Policy = map<string, seq<string>>

  predicate Eligible(policy: Policy, typeName: string, f: Field) {
    f.args == [] && !(typeName in policy && f.name in policy[typeName])
  }

  function Target(f: Field): (r: TypeRef)
    ensures r.Named?
  {
    InnermostIsNamed(f.ref);
    Innermost(f.ref)
  }

  lemma {:induction false} InnermostIsNamed(ref: TypeRef)
    ensures Innermost(ref).Named?
  {
    if !ref.Named? { InnermostIsNamed(ref.of); }
  }

  predicate Nests(f: Field) {
    Target(f).kind.Object? || Target(f).kind.Interface?
  }

  // ---- The generated selection as a tree

  datatype Tree = Leaf(name: string) | Cut(name: string) | Nested(name: string, children: seq<Tree>)

  /** How many types a path has left to add, counted from a type that may not exist. */
  function Rank(s: Schema, typeName: string, path: seq<string>): nat {
    if typeName in s then 1 + |s.Keys - set t | t in path| else 0
  }

  lemma RankFalls(s: Schema, typeName: string, path: seq<string>, target: string)
    requires typeName in s && target !in path
    ensures Rank(s, target, path + [target]) < Rank(s, typeName, path)
  {
    var before, after := s.Keys - (set t | t in path), s.Keys - (set t | t in path + [target]);
    if target in s {
      assert target in before && after == before - {target};
    }
  }

  /** The selection below a type, or None when a type is missing from the schema. */
  function Trees(s: Schema, policy: Policy, typeName: string, path: seq<string>): Option<seq<Tree>>
    decreases Rank(s, typeName, path), 1, 0
  {
    if typeName !in s then None else FieldTrees(s, policy, typeName, s[typeName], path)
  }

  function FieldTrees(s: Schema, policy: Policy, typeName: string, fields: seq<Field>, path: seq<string>)
    : Option<seq<Tree>>
    requires typeName in s
    decreases Rank(s, typeName, path), 0, |fields|
  {
    if fields == [] then Some([])
    else
      match OneTree(s, policy, typeName, fields[0], path)
      case None => None
      case Some(first) =>
        match FieldTrees(s, policy, typeName, fields[1..], path)
        case None => None
        case Some(rest) => Some(first + rest)
  }

  /** Nothing or one tree for a field. */
  function OneTree(s: Schema, policy: Policy, typeName: string, f: Field, path: seq<string>): Option<seq<Tree>>
    requires typeName in s
    decreases Rank(s, typeName, path), 0, 0
  {
    var target := Target(f).name;
    if !Eligible(policy, typeName, f) then Some([])
    else if !Nests(f) then Some([Leaf(f.name)])
    else if target in path then Some([Cut(f.name)])
    else
      RankFalls(s, typeName, path, target);
      match Trees(s, policy, target, path + [target])
      case None => None
      case Some(children) => Some(if children == [] then [] else [Nested(f.name, children)])
  }

  // ---- The generated text

  function LinesOf(trees: seq<Tree>, indent: string): seq<string>
    decreases trees, 0
  {
    if trees == [] then [] else TreeLines(trees[0], indent) + LinesOf(trees[1..], indent)
  }

  function TreeLines(tree: Tree, indent: string): seq<string>
    decreases tree, 1
  {
    match tree
    case Leaf(name) => [indent + name]
    case Cut(name) => [indent + name + " { __typename }"]
    case Nested(name, children) => [indent + name + " {"] + LinesOf(children, indent + "  ") + [indent + "}"]
  }

  function SelectionText(trees: seq<Tree>): string {
    if trees == [] then "{ __typename }"
    else
      LinesEmpty(trees, "  ");
      "{\n" + Strings.Join(LinesOf(trees, "  "), '\n') + "\n}"
  }

  lemma {:induction false} LinesSnoc(a: seq<Tree>, b: seq<Tree>, indent: string)
    ensures LinesOf(a + b, indent) == LinesOf(a, indent) + LinesOf(b, indent)
  {
    if a == [] {
      assert a + b == b;
    } else {
      assert (a + b)[1..] == a[1..] + b;
      LinesSnoc(a[1..], b, indent);
    }
  }

  method FieldsFor(typeName: string, s: Schema, policy: Policy, path: seq<string>, indent: string)
    returns (lines: Option<seq<string>>)
    ensures lines ==
      match Trees(s, policy, typeName, path) case None => None case Some(trees) => Some(LinesOf(trees, indent))
    decreases Rank(s, typeName, path), 1
  {
    if typeName !in s { return None; }
    var fields := s[typeName];
    var text: seq<string> := [];
    ghost var done: seq<Tree> := [];
    assert fields[0..] == fields;
    PrependNothing(FieldTrees(s, policy, typeName, fields, path));
    for i := 0 to |fields|
      invariant text == LinesOf(done, indent)
      invariant Trees(s, policy, typeName, path) == Prepend(done, FieldTrees(s, policy, typeName, fields[i..], path))
    {
      var f := fields[i];
      assert fields[i..][0] == f && fields[i..][1..] == fields[i + 1..];
      var added := FieldLines(typeName, f, s, policy, path, indent);
      ghost var one := OneTree(s, policy, typeName, f, path);
      if added.None? { return None; }
      text := text + added.value;
      LinesSnoc(done, one.value, indent);
      PrependTwice(done, one.value, FieldTrees(s, policy, typeName, fields[i + 1..], path));
      done := done + one.value;
    }
    assert fields[|fields|..] == [] && done + [] == done;
    return Some(text);
  }

  function Prepend(a: seq<Tree>, b: Option<seq<Tree>>): Option<seq<Tree>> {
    match b case None => None case Some(trees) => Some(a + trees)
  }

  lemma PrependNothing(c: Option<seq<Tree>>)
    ensures Prepend([], c) == c
  {
    if c.Some? { assert [] + c.value == c.value; }
  }

  lemma PrependTwice(a: seq<Tree>, b: seq<Tree>, c: Option<seq<Tree>>)
    ensures Prepend(a, Prepend(b, c)) == Prepend(a + b, c)
  {
    if c.Some? { assert a + (b + c.value) == a + b + c.value; }
  }

  /** The body of the loop: the lines of one field. */
  method FieldLines(typeName: string, f: Field, s: Schema, policy: Policy, path: seq<string>, indent: string)
    returns (lines: Option<seq<string>>)
    requires typeName in s
    ensures lines ==
      match OneTree(s, policy, typeName, f, path) case None => None case Some(trees) => Some(LinesOf(trees, indent))
    decreases Rank(s, typeName, path), 0
  {
    if typeName in policy && f.name in policy[typeName] { return Some([]); }
    if f.args != [] { return Some([]); }
    var target := NamedType(f.ref);
    LinesOne(Leaf(f.name), indent);
    LinesOne(Cut(f.name), indent);
    if !target.kind.Object? && !target.kind.Interface? { return Some([indent + f.name]); }
    if target.name in path { return Some([indent + f.name + " { __typename }"]); }
    RankFalls(s, typeName, path, target.name);
    var nested := FieldsFor(target.name, s, policy, path + [target.name], indent + "  ");
    if nested.None? { return None; }
    ghost var children := Trees(s, policy, target.name, path + [target.name]).value;
    LinesEmpty(children, indent + "  ");
    if nested.value == [] { return Some([]); }
    LinesOne(Nested(f.name, children), indent);
    return Some([indent + f.name + " {"] + nested.value + [indent + "}"]);
  }

  lemma LinesOne(tree: Tree, indent: string)
    ensures LinesOf([tree], indent) == TreeLines(tree, indent)
  {}

  lemma LinesEmpty(trees: seq<Tree>, indent: string)
    ensures LinesOf(trees, indent) == [] <==> trees == []
  {}

  method BuildSelectionSet(typeName: string, s: Schema, policy: Policy) returns (text: Option<string>)
    ensures text ==
      match Trees(s, policy, typeName, [typeName]) case None => None case Some(trees) => Some(SelectionText(trees))
  {
    var lines := FieldsFor(typeName, s, policy, [typeName], "  ");
    if lines.None? { return None; }
    LinesEmpty(Trees(s, policy, typeName, [typeName]).value, "  ");
    if lines.value == [] { return Some("{ __typename }"); }
    return Some("{\n" + Strings.Join(lines.value, '\n') + "\n}");
  }

  // ---- Reading a selection set, sections 2.1 and 2.4 of the GraphQL specification

  datatype Token = Open | Close | Punct(c: char) | Word(name: string)

  datatype Selection = Selection(name: string, children: seq<Selection>)

  function Flush(word: string): seq<Token> {
    if word == "" then [] else [Word(word)]
  }

  /** The tokens of a blank, a comma, a brace or another punctuator. */
  function Mark(c: char): Option<seq<Token>> {
    if Blank(c) || c == ',' then Some([])
    else if c == '{' then Some([Open])
    else if c == '}' then Some([Close])
    else if c in "!$():[]" then Some([Punct(c)])
    else None
  }

  function Both(a: seq<Token>, b: Option<seq<Token>>): Option<seq<Token>> {
    match b case None => None case Some(ts) => Some(a + ts)
  }

  /** The tokens of `s` after the letters `word` of an unfinished name; None at a foreign character. */
  function Lex(s: string, word: string): Option<seq<Token>> {
    if s == "" then Some(Flush(word))
    else if NameChar(s[0]) && (word != "" || !('0' <= s[0] <= '9')) then Lex(s[1..], word + [s[0]])
    else if Mark(s[0]).None? then None
    else Both(Flush(word) + Mark(s[0]).value, Lex(s[1..], ""))
  }

  /** The selections up to the closing brace, and the tokens behind it. */
  function ParseItems(ts: seq<Token>): (r: Option<(seq<Selection>, seq<Token>)>)
    ensures r.Some? ==> |r.value.1| < |ts|
    decreases |ts|
  {
    if ts == [] || ts[0].Open? || ts[0].Punct? then None
    else if ts[0].Close? then Some(([], ts[1..]))
    else if |ts| > 1 && ts[1].Open? then
      match ParseItems(ts[2..])
      case None => None
      case Some((children, rest)) =>
        if children == [] then None
        else
          match ParseItems(rest)
          case None => None
          case Some((more, end)) => Some(([Selection(ts[0].name, children)] + more, end))
    else
      match ParseItems(ts[1..])
      case None => None
      case Some((more, end)) => Some(([Selection(ts[0].name, [])] + more, end))
  }

  /** A whole text that is one non-empty selection set. */
  function ParseText(s: string): Option<seq<Selection>> {
    match Lex(s, "")
    case None => None
    case Some(ts) =>
      if ts == [] || !ts[0].Open? then None
      else
        match ParseItems(ts[1..])
        case None => None
        case Some((sels, rest)) => if sels != [] && rest == [] then Some(sels) else None
  }

  const TYPENAME := Selection("__typename", [])

  function Abstract(trees: seq<Tree>): (sels: seq<Selection>)
    ensures |sels| == |trees|
    decreases trees, 0
  {
    if trees == [] then [] else [AbstractTree(trees[0])] + Abstract(trees[1..])
  }

  function AbstractTree(tree: Tree): Selection
    decreases tree, 1
  {
    match tree
    case Leaf(name) => Selection(name, [])
    case Cut(name) => Selection(name, [TYPENAME])
    case Nested(name, children) => Selection(name, Abstract(children))
  }
}
