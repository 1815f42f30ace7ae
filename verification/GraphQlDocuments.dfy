/** The operation document around a selection set: its text, its parser, and its variables. */
module GraphQlDocuments {
  import opened Wrappers
  import opened GraphQlTypes
  import opened GraphQlSelection
  import opened GraphQlTheorems
  import opened GraphQlValidity

  // ---- Writing

  function VariableText(a: Argument): string {
    "$" + a.name + ": " + Render(a.ref)
  }

  function CallText(a: Argument): string {
    a.name + ": $" + a.name
  }

  /** `", ".join(...)` */
  function Separated(parts: seq<string>): string {
    if parts == [] then "" else if |parts| == 1 then parts[0] else parts[0] + ", " + Separated(parts[1..])
  }

  function Texts(args: seq<Argument>, declares: bool): (texts: seq<string>)
    ensures |texts| == |args|
  {
    seq(|args|, i requires 0 <= i < |args| => if declares then VariableText(args[i]) else CallText(args[i]))
  }

  /** A list of variables or arguments in parentheses, or nothing. */
  function Parenthesised(args: seq<Argument>, declares: bool): string {
    var inner := Separated(Texts(args, declares));
    if inner != "" then "(" + inner + ")" else ""
  }

  function DocumentText(operation: string, f: Field, selection: Option<string>): string {
    var call := f.name + Parenthesised(f.args, false);
    operation + Parenthesised(f.args, true) + " { " +
      (if selection.Some? then call + " " + selection.value else call) + " }"
  }

  /** The document of a top-level field, or None when its type is not in the schema. */
  method BuildDocument(operation: string, f: Field, s: Schema, policy: Policy) returns (text: Option<string>)
    ensures !Nests(f) ==> text == Some(DocumentText(operation, f, None))
    ensures Nests(f) ==>
      text == match Trees(s, policy, Target(f).name, [Target(f).name])
              case None => None
              case Some(trees) => Some(DocumentText(operation, f, Some(SelectionText(trees))))
  {
    var returned := NamedType(f.ref);
    if !returned.kind.Object? && !returned.kind.Interface? { return Some(DocumentText(operation, f, None)); }
    var selection := BuildSelectionSet(returned.name, s, policy);
    if selection.None? { return None; }
    return Some(DocumentText(operation, f, selection));
  }

  // ---- Reading, sections 2.3 to 2.11 of the GraphQL specification, October 2021

  datatype Shape = NamedShape(name: string) | ListShape(of: Shape) | NonNullShape(of: Shape)

  datatype Declared = Declared(variable: string, shape: Shape)

  datatype Passed = Passed(argument: string, variable: string)

  datatype Document = Document(operation: string, variables: seq<Declared>, call: Call)

  function ParseType(ts: seq<Token>): (r: Option<(Shape, seq<Token>)>)
    ensures r.Some? ==> |r.value.1| < |ts|
    decreases |ts|
  {
    if ts == [] then None
    else
      var core: Option<(Shape, seq<Token>)> :=
        if ts[0].Word? then Some((NamedShape(ts[0].name), ts[1..]))
        else if ts[0] == Punct('[') then
          match ParseType(ts[1..])
          case Some((of, rest)) =>
            if rest != [] && rest[0] == Punct(']') then Some((ListShape(of), rest[1..])) else None
          case None => None
        else None;
      match core
      case Some((shape, rest)) =>
        if rest != [] && rest[0] == Punct('!') then Some((NonNullShape(shape), rest[1..])) else Some((shape, rest))
      case None => None
  }

  /** Variable definitions up to the closing parenthesis. */
  function ParseVariables(ts: seq<Token>): (r: Option<(seq<Declared>, seq<Token>)>)
    ensures r.Some? ==> |r.value.1| < |ts|
    decreases |ts|
  {
    if ts == [] then None
    else if ts[0] == Punct(')') then Some(([], ts[1..]))
    else if |ts| > 3 && ts[0] == Punct('$') && ts[1].Word? && ts[2] == Punct(':') then
      match ParseType(ts[3..])
      case None => None
      case Some((shape, rest)) =>
        match ParseVariables(rest)
        case None => None
        case Some((more, end)) => Some(([Declared(ts[1].name, shape)] + more, end))
    else None
  }

  /** Arguments up to the closing parenthesis, each a variable. */
  function ParseArguments(ts: seq<Token>): (r: Option<(seq<Passed>, seq<Token>)>)
    ensures r.Some? ==> |r.value.1| < |ts|
    decreases |ts|
  {
    if ts == [] then None
    else if ts[0] == Punct(')') then Some(([], ts[1..]))
    else if |ts| > 3 && ts[0].Word? && ts[1] == Punct(':') && ts[2] == Punct('$') && ts[3].Word? then
      match ParseArguments(ts[4..])
      case None => None
      case Some((more, end)) => Some(([Passed(ts[0].name, ts[3].name)] + more, end))
    else None
  }

  /** A parenthesised list is optional but not empty. */
  function OptionalVariables(ts: seq<Token>): Option<(seq<Declared>, seq<Token>)> {
    if ts != [] && ts[0] == Punct('(') then
      match ParseVariables(ts[1..])
      case Some((found, rest)) => if found == [] then None else Some((found, rest))
      case None => None
    else Some(([], ts))
  }

  function OptionalArguments(ts: seq<Token>): Option<(seq<Passed>, seq<Token>)> {
    if ts != [] && ts[0] == Punct('(') then
      match ParseArguments(ts[1..])
      case Some((found, rest)) => if found == [] then None else Some((found, rest))
      case None => None
    else Some(([], ts))
  }

  function OptionalSelection(ts: seq<Token>): Option<(seq<Selection>, seq<Token>)> {
    if ts != [] && ts[0].Open? then
      match ParseItems(ts[1..])
      case Some((found, rest)) => if found == [] then None else Some((found, rest))
      case None => None
    else Some(([], ts))
  }

  datatype Call = Call(field: string, arguments: seq<Passed>, selection: seq<Selection>)

  /** A braced call of one field. */
  function ParseBody(ts: seq<Token>): Option<Call> {
    if |ts| < 2 || !ts[0].Open? || !ts[1].Word? then None
    else
      match OptionalArguments(ts[2..])
      case None => None
      case Some((arguments, tail)) =>
        match OptionalSelection(tail)
        case Some((selection, end)) => if end == [Close] then Some(Call(ts[1].name, arguments, selection)) else None
        case None => None
  }

  /** One operation with one field. */
  function ParseDocument(ts: seq<Token>): Option<Document> {
    if ts == [] || !ts[0].Word? then None
    else
      match OptionalVariables(ts[1..])
      case None => None
      case Some((variables, body)) =>
        match ParseBody(body)
        case Some(call) => Some(Document(ts[0].name, variables, call))
        case None => None
  }

  // ---- Types read back

  function ShapeOf(ref: TypeRef): Shape {
    match ref
    case Named(_, name) => NamedShape(name)
    case ListOf(of) => ListShape(ShapeOf(of))
    case NonNull(of) => NonNullShape(ShapeOf(of))
  }

  function TypeTokens(ref: TypeRef): seq<Token> {
    match ref
    case Named(_, name) => [Word(name)]
    case ListOf(of) => [Punct('[')] + TypeTokens(of) + [Punct(']')]
    case NonNull(of) => TypeTokens(of) + [Punct('!')]
  }

  /** Text that begins with a blank, a comma or a punctuator. */
  predicate Delimited(s: string) {
    s != "" && Mark(s[0]).Some?
  }

  /** A name in front of a delimiter. */
  lemma LexItem(name: string, tail: string)
    requires ValidName(name) && Delimited(tail)
    ensures Lex(name + tail, "") == Both([Word(name)], Lex(tail, ""))
  {
    var c, rest := tail[0], tail[1..];
    assert tail == [c] + rest;
    LexName(name, tail, "");
    assert "" + name == name;
    BothTwice([Word(name)], Mark(c).value, Lex(rest, ""));
    assert [] + Mark(c).value == Mark(c).value;
  }

  lemma LexPunct(c: char, rest: string)
    requires c in "!$():[]"
    ensures Lex([c] + rest, "") == Both([Punct(c)], Lex(rest, ""))
  {
    LexMark(c, rest, "");
  }

  lemma {:induction false} LexType(ref: TypeRef, tail: string)
    requires NamesValid(ref) && Delimited(tail)
    ensures Lex(Render(ref) + tail, "") == Both(TypeTokens(ref), Lex(tail, ""))
  {
    match ref {
      case Named(_, name) => LexItem(name, tail);
      case ListOf(of) =>
        var inner := Render(of) + ([']'] + tail);
        assert Render(ref) + tail == ['['] + inner;
        LexPunct('[', inner);
        LexType(of, [']'] + tail);
        LexPunct(']', tail);
        BothThrice([Punct('[')], TypeTokens(of), [Punct(']')], Lex(tail, ""));
      case NonNull(of) =>
        assert Render(ref) + tail == Render(of) + (['!'] + tail);
        LexType(of, ['!'] + tail);
        LexPunct('!', tail);
        BothTwice(TypeTokens(of), [Punct('!')], Lex(tail, ""));
    }
  }

  /** The type's tokens parse back to its shape, in front of anything but a `!`. */
  lemma {:induction false} TypeComesBack(ref: TypeRef, rest: seq<Token>)
    requires WellFormed(ref) && (rest == [] || rest[0] != Punct('!'))
    ensures ParseType(TypeTokens(ref) + rest) == Some((ShapeOf(ref), rest))
    decreases ref, 1
  {
    if ref.NonNull? {
      CoreComesBack(ref.of, [Punct('!')] + rest);
      assert TypeTokens(ref) + rest == TypeTokens(ref.of) + ([Punct('!')] + rest);
      assert ([Punct('!')] + rest)[1..] == rest;
    } else {
      CoreComesBack(ref, rest);
    }
  }

  /** A nullable type is read up to what follows, and a `!` there makes it non-null. */
  lemma {:induction false} CoreComesBack(ref: TypeRef, rest: seq<Token>)
    requires WellFormed(ref) && !ref.NonNull?
    ensures ParseType(TypeTokens(ref) + rest) ==
      if rest != [] && rest[0] == Punct('!') then Some((NonNullShape(ShapeOf(ref)), rest[1..]))
      else Some((ShapeOf(ref), rest))
    decreases ref, 0
  {
    var ts := TypeTokens(ref) + rest;
    if ref.ListOf? {
      var tail := [Punct(']')] + rest;
      assert ts[1..] == TypeTokens(ref.of) + tail && tail[1..] == rest;
      TypeComesBack(ref.of, tail);
    } else {
      assert ts[1..] == rest;
    }
  }

  /** A trailing blank changes no tokens. */
  lemma {:induction false} LexTrailing(s: string, word: string)
    ensures Lex(s + " ", word) == Lex(s, word)
  {
    if s == "" {
      LexMark(' ', "", word);
      assert s + " " == [' '] + "" && Lex("", "") == Some([]);
      assert Flush(word) + [] == Flush(word);
    } else {
      assert (s + " ")[0] == s[0] && (s + " ")[1..] == s[1..] + " ";
      LexTrailing(s[1..], if NameChar(s[0]) && (word != "" || !('0' <= s[0] <= '9')) then word + [s[0]] else "");
    }
  }

  /** The type's whole text lexes and parses to the reference's shape. */
  lemma TypeTextComesBack(ref: TypeRef)
    requires NamesValid(ref) && WellFormed(ref)
    ensures Lex(Render(ref), "").Some? && ParseType(Lex(Render(ref), "").value) == Some((ShapeOf(ref), []))
  {
    LexTrailing(Render(ref), "");
    LexType(ref, " ");
    assert " " == [' '] + "";
    LexSkip(' ', "");
    TypeComesBack(ref, []);
    assert TypeTokens(ref) + [] == TypeTokens(ref);
  }

  // ---- Lists of variables and arguments

  predicate ArgsValid(args: seq<Argument>) {
    forall i :: 0 <= i < |args| ==> ValidName(args[i].name) && NamesValid(args[i].ref) && WellFormed(args[i].ref)
  }

  function ItemText(a: Argument, declares: bool): string {
    if declares then VariableText(a) else CallText(a)
  }

  function ItemTokens(a: Argument, declares: bool): seq<Token> {
    if declares then [Punct('$')] + [Word(a.name)] + ([Punct(':')] + TypeTokens(a.ref))
    else [Word(a.name)] + [Punct(':')] + ([Punct('$')] + [Word(a.name)])
  }

  function ListTokens(args: seq<Argument>, declares: bool): seq<Token> {
    if args == [] then [] else ItemTokens(args[0], declares) + ListTokens(args[1..], declares)
  }

  function ParenTokens(args: seq<Argument>, declares: bool): seq<Token> {
    if args == [] then [] else [Punct('(')] + ListTokens(args, declares) + [Punct(')')]
  }

  lemma LexVariable(a: Argument, tail: string)
    requires ValidName(a.name) && NamesValid(a.ref) && Delimited(tail)
    ensures Lex(VariableText(a) + tail, "") == Both(ItemTokens(a, true), Lex(tail, ""))
  {
    var typed := Render(a.ref) + tail;
    assert VariableText(a) + tail == ['$'] + (a.name + ([':'] + ([' '] + typed)));
    LexPunct('$', a.name + ([':'] + ([' '] + typed)));
    LexItem(a.name, [':'] + ([' '] + typed));
    LexPunct(':', [' '] + typed);
    LexSkip(' ', typed);
    LexType(a.ref, tail);
    BothTwice([Punct(':')], TypeTokens(a.ref), Lex(tail, ""));
    BothThrice([Punct('$')], [Word(a.name)], [Punct(':')] + TypeTokens(a.ref), Lex(tail, ""));
  }

  lemma LexCall(a: Argument, tail: string)
    requires ValidName(a.name) && Delimited(tail)
    ensures Lex(CallText(a) + tail, "") == Both(ItemTokens(a, false), Lex(tail, ""))
  {
    var passed := ['$'] + (a.name + tail);
    assert CallText(a) + tail == a.name + ([':'] + ([' '] + passed));
    LexItem(a.name, [':'] + ([' '] + passed));
    LexPunct(':', [' '] + passed);
    LexSkip(' ', passed);
    LexPunct('$', a.name + tail);
    LexItem(a.name, tail);
    BothTwice([Punct('$')], [Word(a.name)], Lex(tail, ""));
    BothThrice([Word(a.name)], [Punct(':')], [Punct('$')] + [Word(a.name)], Lex(tail, ""));
  }

  lemma LexOne(a: Argument, declares: bool, tail: string)
    requires ValidName(a.name) && NamesValid(a.ref) && Delimited(tail)
    ensures Lex(ItemText(a, declares) + tail, "") == Both(ItemTokens(a, declares), Lex(tail, ""))
  {
    if declares { LexVariable(a, tail); } else { LexCall(a, tail); }
  }

  lemma LexComma(rest: string)
    ensures Lex([','] + ([' '] + rest), "") == Lex(rest, "")
  {
    LexMark(',', [' '] + rest, "");
    BothNothing(Lex([' '] + rest, ""));
    LexSkip(' ', rest);
  }

  lemma SeparatedUnfolds(args: seq<Argument>, declares: bool, tail: string)
    requires args != []
    ensures Separated(Texts(args, declares)) + tail ==
            if |args| == 1 then ItemText(args[0], declares) + tail
            else ItemText(args[0], declares) + ([','] + ([' '] + (Separated(Texts(args[1..], declares)) + tail)))
  {
    assert Texts(args, declares)[1..] == Texts(args[1..], declares);
  }

  lemma {:induction false} LexList(args: seq<Argument>, declares: bool, tail: string)
    requires args != [] && ArgsValid(args) && Delimited(tail)
    ensures Lex(Separated(Texts(args, declares)) + tail, "") == Both(ListTokens(args, declares), Lex(tail, ""))
  {
    var a, later := args[0], args[1..];
    SeparatedUnfolds(args, declares, tail);
    if later == [] {
      assert ListTokens(args, declares) == ItemTokens(a, declares) + [] == ItemTokens(a, declares);
      LexOne(a, declares, tail);
    } else {
      var rest := Separated(Texts(later, declares)) + tail;
      LexOne(a, declares, [','] + ([' '] + rest));
      LexComma(rest);
      LexList(later, declares, tail);
      BothTwice(ItemTokens(a, declares), ListTokens(later, declares), Lex(tail, ""));
    }
  }

  lemma ParenOpens(args: seq<Argument>, declares: bool)
    ensures Parenthesised(args, declares) == if args == [] then "" else ['('] + Separated(Texts(args, declares)) + [')']
  {
    if args == [] {
      assert Texts(args, declares) == [];
    } else {
      assert Texts(args, declares)[0] == ItemText(args[0], declares);
    }
  }

  lemma LexParen(args: seq<Argument>, declares: bool, tail: string)
    requires ArgsValid(args)
    ensures Lex(Parenthesised(args, declares) + tail, "") == Both(ParenTokens(args, declares), Lex(tail, ""))
    ensures Delimited(tail) ==> Delimited(Parenthesised(args, declares) + tail)
  {
    ParenOpens(args, declares);
    if args == [] {
      assert "" + tail == tail;
      BothNothing(Lex(tail, ""));
    } else {
      var inner := Separated(Texts(args, declares));
      assert Parenthesised(args, declares) + tail == ['('] + (inner + ([')'] + tail));
      LexPunct('(', inner + ([')'] + tail));
      LexList(args, declares, [')'] + tail);
      LexPunct(')', tail);
      BothThrice([Punct('(')], ListTokens(args, declares), [Punct(')')], Lex(tail, ""));
    }
  }

  function DeclaredOf(args: seq<Argument>): (ds: seq<Declared>)
    ensures |ds| == |args|
  {
    if args == [] then [] else [Declared(args[0].name, ShapeOf(args[0].ref))] + DeclaredOf(args[1..])
  }

  function PassedOf(args: seq<Argument>): (ps: seq<Passed>)
    ensures |ps| == |args|
  {
    if args == [] then [] else [Passed(args[0].name, args[0].name)] + PassedOf(args[1..])
  }

  lemma {:induction false} TypeTokensSome(ref: TypeRef)
    ensures TypeTokens(ref) != []
  {}

  lemma VariableTokens(a: Argument, later: seq<Token>)
    ensures var ts := ItemTokens(a, true) + later;
      |ts| > 3 && ts[0] == Punct('$') && ts[1] == Word(a.name) && ts[2] == Punct(':')
        && ts[3..] == TypeTokens(a.ref) + later
  {
    TypeTokensSome(a.ref);
    assert ItemTokens(a, true) == [Punct('$'), Word(a.name), Punct(':')] + TypeTokens(a.ref);
  }

  lemma OneVariable(a: Argument, later: seq<Token>)
    requires WellFormed(a.ref) && later != [] && later[0] != Punct('!') && ParseVariables(later).Some?
    ensures ParseVariables(ItemTokens(a, true) + later) ==
            Some(([Declared(a.name, ShapeOf(a.ref))] + ParseVariables(later).value.0, ParseVariables(later).value.1))
  {
    VariableTokens(a, later);
    TypeComesBack(a.ref, later);
  }

  lemma ListEnd(rest: seq<Token>)
    ensures ParseVariables([Punct(')')] + rest) == Some(([], rest))
    ensures ParseArguments([Punct(')')] + rest) == Some(([], rest))
  {
    assert ([Punct(')')] + rest)[1..] == rest;
  }

  /** What follows an item: the next one or the closing parenthesis. */
  lemma ListHead(args: seq<Argument>, declares: bool, rest: seq<Token>)
    ensures var ts := ListTokens(args, declares) + ([Punct(')')] + rest); ts != [] && ts[0] != Punct('!')
  {}

  lemma {:induction false} VariablesComeBack(args: seq<Argument>, rest: seq<Token>)
    requires ArgsValid(args)
    ensures ParseVariables(ListTokens(args, true) + ([Punct(')')] + rest)) == Some((DeclaredOf(args), rest))
  {
    var end := [Punct(')')] + rest;
    if args == [] {
      assert ListTokens(args, true) + end == end;
      ListEnd(rest);
    } else {
      assert ListTokens(args, true) + end == ItemTokens(args[0], true) + (ListTokens(args[1..], true) + end);
      VariablesComeBack(args[1..], rest);
      ListHead(args[1..], true, rest);
      OneVariable(args[0], ListTokens(args[1..], true) + end);
    }
  }

  lemma OneArgument(a: Argument, later: seq<Token>)
    requires ParseArguments(later).Some?
    ensures ParseArguments(ItemTokens(a, false) + later) ==
            Some(([Passed(a.name, a.name)] + ParseArguments(later).value.0, ParseArguments(later).value.1))
  {
    var ts := ItemTokens(a, false) + later;
    assert ItemTokens(a, false) == [Word(a.name), Punct(':'), Punct('$'), Word(a.name)];
    assert ts[4..] == later;
    assert later != [];
  }

  lemma {:induction false} ArgumentsComeBack(args: seq<Argument>, rest: seq<Token>)
    ensures ParseArguments(ListTokens(args, false) + ([Punct(')')] + rest)) == Some((PassedOf(args), rest))
  {
    var end := [Punct(')')] + rest;
    if args == [] {
      assert ListTokens(args, false) + end == end;
      ListEnd(rest);
    } else {
      assert ListTokens(args, false) + end == ItemTokens(args[0], false) + (ListTokens(args[1..], false) + end);
      ArgumentsComeBack(args[1..], rest);
      OneArgument(args[0], ListTokens(args[1..], false) + end);
    }
  }

  // ---- The whole document

  predicate Callable(f: Field) {
    ValidName(f.name) && ArgsValid(f.args)
  }

  function CallTokens(f: Field): seq<Token> {
    [Word(f.name)] + ParenTokens(f.args, false)
  }

  lemma LexCallPart(name: string, args: seq<Argument>, declares: bool, tail: string)
    requires ValidName(name) && ArgsValid(args) && Delimited(tail)
    ensures Lex(name + (Parenthesised(args, declares) + tail), "") ==
      Both([Word(name)] + ParenTokens(args, declares), Lex(tail, ""))
  {
    LexParen(args, declares, tail);
    LexItem(name, Parenthesised(args, declares) + tail);
    BothTwice([Word(name)], ParenTokens(args, declares), Lex(tail, ""));
  }

  lemma LexBrace(rest: string)
    ensures Lex(" { " + rest, "") == Both([Open], Lex(rest, ""))
    ensures Lex(" }", "") == Some([Close])
  {
    assert " { " + rest == [' '] + (['{'] + ([' '] + rest));
    LexSkip(' ', ['{'] + ([' '] + rest));
    LexMark('{', [' '] + rest, "");
    LexSkip(' ', rest);
    assert " }" == [' '] + (['}'] + "");
    LexSkip(' ', ['}'] + "");
    LexMark('}', "", "");
    assert Lex("", "") == Some([]) && [Close] + [] == [Close];
  }

  /** The selection behind the call, if there is one, and the closing brace. */
  function Tail(trees: Option<seq<Tree>>): string {
    match trees case None => " }" case Some(ts) => " " + (SelectionText(ts) + " }")
  }

  function TailTokens(trees: Option<seq<Tree>>): seq<Token> {
    match trees case None => [Close] case Some(ts) => SelectionTokens(ts) + [Close]
  }

  lemma LexTail(trees: Option<seq<Tree>>)
    requires trees.Some? ==> TreesNamed(trees.value)
    ensures Lex(Tail(trees), "") == Some(TailTokens(trees)) && Delimited(Tail(trees))
  {
    LexBrace("");
    if trees.Some? {
      LexSkip(' ', SelectionText(trees.value) + " }");
      LexSelection(trees.value, " }");
    }
  }

  function SelectionTextOf(trees: Option<seq<Tree>>): Option<string> {
    match trees case None => None case Some(ts) => Some(SelectionText(ts))
  }

  function DocumentTokens(operation: string, f: Field, trees: Option<seq<Tree>>): seq<Token> {
    [Word(operation)] + ParenTokens(f.args, true) + ([Open] + (CallTokens(f) + TailTokens(trees)))
  }

  lemma Regroup(a: string, b: string, c: string, d: string, e: string, f: string, g: string)
    ensures a + b + c + (d + e + f + g) == a + (b + (c + (d + (e + (f + g)))))
    ensures a + b + c + (d + e) + g == a + (b + (c + (d + (e + g))))
    ensures a + b + c + (d + e + f) + g == a + (b + (c + (d + (e + (f + g)))))
  {}

  lemma TextSplits(operation: string, f: Field, trees: Option<seq<Tree>>)
    ensures DocumentText(operation, f, SelectionTextOf(trees)) ==
            operation +
              (Parenthesised(f.args, true) + (" { " + (f.name + (Parenthesised(f.args, false) + Tail(trees)))))
  {
    var p, q := Parenthesised(f.args, true), Parenthesised(f.args, false);
    if trees.Some? {
      Spaced(f.name, q, SelectionText(trees.value));
      Regroup(operation, p, " { ", f.name, q, " " + SelectionText(trees.value), " }");
      assert " " + SelectionText(trees.value) + " }" == Tail(trees);
    } else {
      Regroup(operation, p, " { ", f.name, q, "", " }");
    }
  }

  lemma Spaced(a: string, b: string, c: string)
    ensures a + b + " " + c == a + b + (" " + c)
  {}

  lemma LexDocument(operation: string, f: Field, trees: Option<seq<Tree>>)
    requires ValidName(operation) && Callable(f) && (trees.Some? ==> TreesNamed(trees.value))
    ensures Lex(DocumentText(operation, f, SelectionTextOf(trees)), "") == Some(DocumentTokens(operation, f, trees))
  {
    var call := f.name + (Parenthesised(f.args, false) + Tail(trees));
    TextSplits(operation, f, trees);
    LexTail(trees);
    LexCallPart(f.name, f.args, false, Tail(trees));
    LexBrace(call);
    LexCallPart(operation, f.args, true, " { " + call);
  }

  lemma ParseVariableList(args: seq<Argument>, rest: seq<Token>)
    requires ArgsValid(args) && rest != [] && rest[0] != Punct('(')
    ensures OptionalVariables(ParenTokens(args, true) + rest) == Some((DeclaredOf(args), rest))
  {
    if args == [] {
      assert ParenTokens(args, true) + rest == rest;
    } else {
      Bracketed(Punct('('), ListTokens(args, true), Punct(')'), rest);
      VariablesComeBack(args, rest);
    }
  }

  lemma ParseArgumentList(args: seq<Argument>, rest: seq<Token>)
    requires rest != [] && rest[0] != Punct('(')
    ensures OptionalArguments(ParenTokens(args, false) + rest) == Some((PassedOf(args), rest))
  {
    if args == [] {
      assert ParenTokens(args, false) + rest == rest;
    } else {
      Bracketed(Punct('('), ListTokens(args, false), Punct(')'), rest);
      ArgumentsComeBack(args, rest);
    }
  }

  lemma ParseTail(trees: Option<seq<Tree>>)
    requires trees.Some? ==> TreesNamed(trees.value)
    ensures OptionalSelection(TailTokens(trees)) ==
      Some((if trees.Some? then SelectionOf(trees.value) else [], [Close]))
    ensures TailTokens(trees)[0] == if trees.Some? then Open else Close
  {
    if trees.Some? {
      ParseSelection(trees.value, [Close]);
      assert TailTokens(trees)[1..] == SelectionTokens(trees.value)[1..] + [Close];
    }
  }

  function MeantCall(f: Field, trees: Option<seq<Tree>>): Call {
    Call(f.name, PassedOf(f.args), if trees.Some? then SelectionOf(trees.value) else [])
  }

  lemma ParseBodyUnfolds(name: string, rest: seq<Token>, arguments: seq<Passed>, tail: seq<Token>,
          selection: seq<Selection>)
    requires OptionalArguments(rest) == Some((arguments, tail)) && OptionalSelection(tail) == Some((selection, [Close]))
    ensures ParseBody([Open, Word(name)] + rest) == Some(Call(name, arguments, selection))
  {
    assert ([Open, Word(name)] + rest)[2..] == rest;
  }

  lemma BodyComesBack(f: Field, trees: Option<seq<Tree>>)
    requires Callable(f) && (trees.Some? ==> TreesNamed(trees.value))
    ensures ParseBody([Open] + (CallTokens(f) + TailTokens(trees))) == Some(MeantCall(f, trees))
  {
    ParseTail(trees);
    ParseArgumentList(f.args, TailTokens(trees));
    var rest := ParenTokens(f.args, false) + TailTokens(trees);
    ParseBodyUnfolds(f.name, rest, PassedOf(f.args), TailTokens(trees), MeantCall(f, trees).selection);
    BodyTokens(f.name, ParenTokens(f.args, false), TailTokens(trees));
  }

  lemma BodyTokens(name: string, paren: seq<Token>, tail: seq<Token>)
    ensures [Open] + ([Word(name)] + paren + tail) == [Open, Word(name)] + (paren + tail)
  {}

  /** The document read back: its variables, their use in the call, and its selection. */
  function Meant(operation: string, f: Field, trees: Option<seq<Tree>>): Document {
    Document(operation, DeclaredOf(f.args), MeantCall(f, trees))
  }

  lemma ParseDocumentUnfolds(operation: string, paren: seq<Token>, body: seq<Token>, variables: seq<Declared>,
          call: Call)
    requires OptionalVariables(paren + body) == Some((variables, body)) && ParseBody(body) == Some(call)
    ensures ParseDocument([Word(operation)] + paren + body) == Some(Document(operation, variables, call))
  {
    assert ([Word(operation)] + paren + body)[1..] == paren + body;
  }

  /** The document's text parses, and reads as the operation it was written for. */
  lemma DocumentComesBack(operation: string, f: Field, trees: Option<seq<Tree>>)
    requires ValidName(operation) && Callable(f) && (trees.Some? ==> TreesNamed(trees.value))
    ensures Lex(DocumentText(operation, f, SelectionTextOf(trees)), "").Some?
    ensures ParseDocument(Lex(DocumentText(operation, f, SelectionTextOf(trees)), "").value) ==
      Some(Meant(operation, f, trees))
  {
    var body := [Open] + (CallTokens(f) + TailTokens(trees));
    LexDocument(operation, f, trees);
    ParseVariableList(f.args, body);
    BodyComesBack(f, trees);
    ParseDocumentUnfolds(operation, ParenTokens(f.args, true), body, DeclaredOf(f.args), MeantCall(f, trees));
  }

  /** Sections 5.8.3 and 5.8.4: the variables declared are those used, each passed to the argument of
      its name; and a variable is declared non-null exactly when the tool schema requires it. */
  lemma {:induction false} VariablesMatch(args: seq<Argument>)
    ensures forall i :: 0 <= i < |args| ==>
      && DeclaredOf(args)[i].variable == PassedOf(args)[i].variable == PassedOf(args)[i].argument == args[i].name
      && (DeclaredOf(args)[i].shape.NonNullShape? <==> args[i].ref.NonNull?)
  {
    if args != [] { VariablesMatch(args[1..]); }
  }

  // ---- The tool schema of the operation

  datatype ToolSchema = ToolSchema(properties: map<string, JsonType>, required: seq<string>)

  function PropertiesOf(args: seq<Argument>): map<string, JsonType> {
    if args == [] then map[]
    else PropertiesOf(args[..|args| - 1])[args[|args| - 1].name := JsonTypeFor(args[|args| - 1].ref)]
  }

  function RequiredOf(args: seq<Argument>): seq<string> {
    if args == [] then [] else (if args[0].ref.NonNull? then [args[0].name] else []) + RequiredOf(args[1..])
  }

  function SchemaFor(f: Field): ToolSchema {
    ToolSchema(PropertiesOf(f.args), RequiredOf(f.args))
  }

  predicate DistinctArgs(args: seq<Argument>) {
    forall i, j :: 0 <= i < j < |args| ==> args[i].name != args[j].name
  }

  lemma {:induction false} PropertyOf(args: seq<Argument>, k: nat)
    requires DistinctArgs(args) && k < |args|
    ensures args[k].name in PropertiesOf(args) && PropertiesOf(args)[args[k].name] == JsonTypeFor(args[k].ref)
  {
    if k < |args| - 1 { PropertyOf(args[..|args| - 1], k); }
  }

  lemma {:induction false} RequiredExactly(args: seq<Argument>, name: string)
    ensures name in RequiredOf(args) <==> exists k :: 0 <= k < |args| && args[k].name == name && args[k].ref.NonNull?
  {
    if args != [] {
      RequiredExactly(args[1..], name);
      if k :| 0 <= k < |args[1..]| && args[1..][k].name == name && args[1..][k].ref.NonNull? {
        assert args[k + 1].name == name && args[k + 1].ref.NonNull?;
      }
      if k :| 0 < k < |args| && args[k].name == name && args[k].ref.NonNull? {
        assert args[1..][k - 1].name == name;
      }
    }
  }

  /** The generated tool schema is the one a hand-written entry with the document's own variable types
      would get: same JSON type for each variable, required exactly when declared non-null. */
  lemma SchemaMatchesDocument(f: Field, k: nat)
    requires Callable(f) && DistinctArgs(f.args) && k < |f.args|
    ensures var a, declared := f.args[k], DeclaredOf(f.args)[k]; var schema := SchemaFor(f);
      && a.name == declared.variable && a.name in schema.properties
      && schema.properties[a.name] == JsonTypeOfText(Render(a.ref))
      && (a.name in schema.required <==> declared.shape.NonNullShape?)
  {
    VariablesMatch(f.args);
    PropertyOf(f.args, k);
    MappersAgree(f.args[k].ref);
    RequiredExactly(f.args, f.args[k].name);
    if f.args[k].name in SchemaFor(f).required {
      var j :| 0 <= j < |f.args| && f.args[j].name == f.args[k].name && f.args[j].ref.NonNull?;
      assert j == k;
    }
  }

  /** Section 5.3.3 for the called field: a valid selection exactly when its type is composite. */
  ghost predicate SelectionValid(s: Schema, policy: Policy, f: Field, sels: seq<Selection>, unions: bool) {
    if Composite(f, unions)
    then sels != [] && (sels == [TYPENAME] || ValidSet(s, policy, Target(f).name, sels, unions))
    else sels == []
  }

  /** What is generated for a top-level field. */
  function TreesFor(s: Schema, policy: Policy, f: Field): Option<seq<Tree>> {
    if Nests(f) then Trees(s, policy, Target(f).name, [Target(f).name]) else None
  }

  /** A top-level field whose type is in the schema becomes a document that parses to a call of that
      field, with a valid selection for an object or interface and none for anything else. Under the
      GraphQL specification, where unions need one too, it is valid exactly when the field is of no
      union type and leads to no eligible field of one. */
  lemma GeneratedDocumentIsValid(operation: string, f: Field, s: Schema, policy: Policy)
    requires ValidName(operation) && Callable(f) && WellNamed(s) && (Nests(f) ==> TreesFor(s, policy, f).Some?)
    ensures var tokens := Lex(DocumentText(operation, f, SelectionTextOf(TreesFor(s, policy, f))), "");
      var document := Meant(operation, f, TreesFor(s, policy, f));
      && tokens.Some? && ParseDocument(tokens.value) == Some(document)
      && SelectionValid(s, policy, f, document.call.selection, false)
      && (SelectionValid(s, policy, f, document.call.selection, true) <==>
            !Target(f).kind.Union? && (Nests(f) ==> !Reaches(s, policy, Target(f).name, [Target(f).name], UnionField)))
  {
    var name, trees := Target(f).name, TreesFor(s, policy, f);
    if Nests(f) {
      TreesValid(s, policy, name, [name]);
      NestedSelection(s, policy, f, trees.value);
    }
    DocumentComesBack(operation, f, trees);
  }

  lemma NestedSelection(s: Schema, policy: Policy, f: Field, trees: seq<Tree>)
    requires WellNamed(s) && Nests(f) && TreesFor(s, policy, f) == Some(trees)
    ensures SelectionValid(s, policy, f, SelectionOf(trees), false)
    ensures SelectionValid(s, policy, f, SelectionOf(trees), true) <==>
      !Reaches(s, policy, Target(f).name, [Target(f).name], UnionField)
  {
    var name := Target(f).name;
    TreesValid(s, policy, name, [name]);
    SpecificationValidExactly(s, policy, name, [name]);
    NoneIsTypename(s, policy, name, Abstract(trees));
    if trees != [] {
      assert Abstract(trees)[0] in Abstract(trees);
      assert Abstract(trees) != [TYPENAME];
    }
  }
}
