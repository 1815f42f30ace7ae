/** Every generated selection set reads back to a valid, finite selection. */
module GraphQlTheorems {
  import opened Wrappers
  import opened GraphQlTypes
  import opened GraphQlSelection
  import Strings = Text

  // ---- Printing and reading

  predicate TreesNamed(trees: seq<Tree>)
    decreases trees, 0
  {
    trees == [] || (TreeNamed(trees[0]) && TreesNamed(trees[1..]))
  }

  /** Every name in the tree is a valid name, and nested selections are not empty. */
  predicate TreeNamed(tree: Tree)
    decreases tree, 1
  {
    ValidName(tree.name) && (tree.Nested? ==> tree.children != [] && TreesNamed(tree.children))
  }

  function Tokens(trees: seq<Tree>): seq<Token>
    decreases trees, 0
  {
    if trees == [] then [] else TreeTokens(trees[0]) + Tokens(trees[1..])
  }

  function TreeTokens(tree: Tree): seq<Token>
    decreases tree, 1
  {
    match tree
    case Leaf(name) => [Word(name)]
    case Cut(name) => [Word(name), Open, Word("__typename"), Close]
    case Nested(name, children) => [Word(name), Open] + Tokens(children) + [Close]
  }

  /** Lexing goes on letter by letter through a name. */
  lemma {:induction false} LexName(name: string, rest: string, word: string)
    requires forall i :: 0 <= i < |name| ==> NameChar(name[i])
    requires word != "" || name == "" || !('0' <= name[0] <= '9')
    ensures Lex(name + rest, word) == Lex(rest, word + name)
  {
    if name == "" {
      assert name + rest == rest && word + name == word;
    } else {
      assert (name + rest)[1..] == name[1..] + rest && word + [name[0]] + name[1..] == word + name;
      LexName(name[1..], rest, word + [name[0]]);
    }
  }

  predicate BlankText(s: string) {
    forall i :: 0 <= i < |s| ==> s[i] == ' '
  }

  lemma BothNothing(c: Option<seq<Token>>)
    ensures Both([], c) == c
  {
    if c.Some? { assert [] + c.value == c.value; }
  }

  lemma BothTwice(a: seq<Token>, b: seq<Token>, c: Option<seq<Token>>)
    ensures Both(a, Both(b, c)) == Both(a + b, c)
  {
    if c.Some? { assert a + (b + c.value) == a + b + c.value; }
  }

  /** A blank or a brace ends the name before it. */
  lemma LexMark(c: char, rest: string, word: string)
    requires Mark(c).Some?
    ensures word == "" ==> Lex([c] + rest, word) == Both(Mark(c).value, Lex(rest, ""))
    ensures word != "" && Mark(c).value == [] ==> Lex([c] + rest, word) == Both([Word(word)], Lex(rest, ""))
  {
    assert ([c] + rest)[1..] == rest;
    assert [] + Mark(c).value == Mark(c).value && [Word(word)] + [] == [Word(word)];
  }

  lemma LexSkip(c: char, rest: string)
    requires c == ' ' || c == '\n'
    ensures Lex([c] + rest, "") == Lex(rest, "")
  {
    LexMark(c, rest, "");
    BothNothing(Lex(rest, ""));
  }

  lemma {:induction false} LexBlank(blank: string, rest: string)
    requires BlankText(blank)
    ensures Lex(blank + rest, "") == Lex(rest, "")
  {
    if blank == "" {
      assert blank + rest == rest;
    } else {
      assert blank + rest == [' '] + (blank[1..] + rest);
      LexSkip(' ', blank[1..] + rest);
      LexBlank(blank[1..], rest);
    }
  }

  /** An indented name that a blank follows. */
  lemma LexWord(indent: string, name: string, c: char, rest: string)
    requires BlankText(indent) && ValidName(name) && (c == ' ' || c == '\n')
    ensures Lex(indent + name + ([c] + rest), "") == Both([Word(name)], Lex(rest, ""))
  {
    assert indent + name + ([c] + rest) == indent + (name + ([c] + rest));
    LexBlank(indent, name + ([c] + rest));
    LexName(name, [c] + rest, "");
    assert "" + name == name;
    LexMark(c, rest, name);
  }

  /** The lines joined by line breaks, each ended by one. */
  function Ended(lines: seq<string>): string {
    if lines == [] then "" else lines[0] + ("\n" + Ended(lines[1..]))
  }

  lemma {:induction false} JoinIsEnded(lines: seq<string>)
    requires |lines| > 0
    ensures Strings.Join(lines, '\n') + "\n" == Ended(lines)
  {
    if |lines| > 1 {
      JoinIsEnded(lines[1..]);
      assert Strings.Join(lines, '\n') == lines[0] + ['\n'] + Strings.Join(lines[1..], '\n');
      assert "\n" + Ended(lines[1..]) == ['\n'] + Strings.Join(lines[1..], '\n') + "\n";
    } else {
      assert lines[1..] == [];
    }
  }

  lemma {:induction false} EndedConcat(a: seq<string>, b: seq<string>)
    ensures Ended(a + b) == Ended(a) + Ended(b)
  {
    if a == [] {
      assert a + b == b;
    } else {
      assert (a + b)[1..] == a[1..] + b;
      EndedConcat(a[1..], b);
    }
  }

  lemma LexLeaf(indent: string, name: string, rest: string)
    requires BlankText(indent) && ValidName(name)
    ensures Lex(Ended([indent + name]) + rest, "") == Both([Word(name)], Lex(rest, ""))
  {
    assert Ended([indent + name]) + rest == indent + name + (['\n'] + rest);
    LexWord(indent, name, '\n', rest);
  }

  lemma LexOpen(indent: string, name: string, rest: string)
    requires BlankText(indent) && ValidName(name)
    ensures Lex(Ended([indent + name + " {"]) + rest, "") == Both([Word(name), Open], Lex(rest, ""))
  {
    var tail := ['{'] + (['\n'] + rest);
    assert Ended([indent + name + " {"]) + rest == indent + name + ([' '] + tail);
    LexWord(indent, name, ' ', tail);
    LexMark('{', ['\n'] + rest, "");
    LexSkip('\n', rest);
    BothTwice([Word(name)], [Open], Lex(rest, ""));
    assert [Word(name)] + [Open] == [Word(name), Open];
  }

  lemma LexClose(indent: string, rest: string)
    requires BlankText(indent)
    ensures Lex(Ended([indent + "}"]) + rest, "") == Both([Close], Lex(rest, ""))
  {
    var tail := ['}'] + (['\n'] + rest);
    assert Ended([indent + "}"]) + rest == indent + tail;
    LexBlank(indent, tail);
    LexMark('}', ['\n'] + rest, "");
    LexSkip('\n', rest);
  }

  lemma TypenameIsName()
    ensures ValidName("__typename")
  {
    assert forall i :: 0 <= i < |"__typename"| ==> NameChar("__typename"[i]);
  }

  lemma LexTypenameEnd(rest: string)
    ensures Lex(" " + "__typename" + ([' '] + (['}'] + rest)), "") == Both([Word("__typename"), Close], Lex(rest, ""))
  {
    TypenameIsName();
    LexWord(" ", "__typename", ' ', ['}'] + rest);
    LexMark('}', rest, "");
    BothTwice([Word("__typename")], [Close], Lex(rest, ""));
    assert [Word("__typename")] + [Close] == [Word("__typename"), Close];
  }

  lemma LexTypename(rest: string)
    ensures Lex("{ __typename }" + rest, "") == Both([Open, Word("__typename"), Close], Lex(rest, ""))
  {
    var inner := " " + "__typename" + ([' '] + (['}'] + rest));
    assert "{ __typename }" + rest == ['{'] + inner;
    LexMark('{', inner, "");
    LexTypenameEnd(rest);
    BothTwice([Open], [Word("__typename"), Close], Lex(rest, ""));
    assert [Open] + [Word("__typename"), Close] == [Open, Word("__typename"), Close];
  }

  lemma LexCut(indent: string, name: string, rest: string)
    requires BlankText(indent) && ValidName(name)
    ensures Lex(Ended([indent + name + " { __typename }"]) + rest, "") ==
            Both([Word(name), Open, Word("__typename"), Close], Lex(rest, ""))
  {
    var tail := "{ __typename }" + (['\n'] + rest);
    assert Ended([indent + name + " { __typename }"]) + rest == indent + name + ([' '] + tail);
    LexWord(indent, name, ' ', tail);
    LexTypename(['\n'] + rest);
    LexSkip('\n', rest);
    BothTwice([Word(name)], [Open, Word("__typename"), Close], Lex(rest, ""));
    assert [Word(name)] + [Open, Word("__typename"), Close] == [Word(name), Open, Word("__typename"), Close];
  }

  lemma NestedText(name: string, children: seq<Tree>, indent: string, rest: string)
    ensures Ended(TreeLines(Nested(name, children), indent)) + rest ==
            Ended([indent + name + " {"]) + (Ended(LinesOf(children, indent + "  ")) + (Ended([indent + "}"]) + rest))
  {
    var top, middle, bottom := [indent + name + " {"], LinesOf(children, indent + "  "), [indent + "}"];
    EndedConcat(top + middle, bottom);
    EndedConcat(top, middle);
    assert Ended(top) + Ended(middle) + Ended(bottom) + rest == Ended(top) + (Ended(middle) + (Ended(bottom) + rest));
  }

  lemma BothThrice(a: seq<Token>, b: seq<Token>, c: seq<Token>, d: Option<seq<Token>>)
    ensures Both(a, Both(b, Both(c, d))) == Both(a + b + c, d)
  {
    BothTwice(b, c, d);
    BothTwice(a, b + c, d);
    assert a + (b + c) == a + b + c;
  }

  /** The printed lines lex to the tokens of the trees. */
  lemma {:induction false} LexTrees(trees: seq<Tree>, indent: string, rest: string)
    requires TreesNamed(trees) && BlankText(indent)
    ensures Lex(Ended(LinesOf(trees, indent)) + rest, "") == Both(Tokens(trees), Lex(rest, ""))
    decreases trees, 0
  {
    if trees == [] {
      assert "" + rest == rest;
      BothNothing(Lex(rest, ""));
    } else {
      var first, later := TreeLines(trees[0], indent), LinesOf(trees[1..], indent);
      EndedConcat(first, later);
      assert Ended(first) + Ended(later) + rest == Ended(first) + (Ended(later) + rest);
      LexTree(trees[0], indent, Ended(later) + rest);
      LexTrees(trees[1..], indent, rest);
      BothTwice(TreeTokens(trees[0]), Tokens(trees[1..]), Lex(rest, ""));
    }
  }

  lemma {:induction false} LexTree(tree: Tree, indent: string, rest: string)
    requires TreeNamed(tree) && BlankText(indent)
    ensures Lex(Ended(TreeLines(tree, indent)) + rest, "") == Both(TreeTokens(tree), Lex(rest, ""))
    decreases tree, 1
  {
    match tree {
      case Leaf(name) => LexLeaf(indent, name, rest);
      case Cut(name) => LexCut(indent, name, rest);
      case Nested(name, children) =>
        var end := Ended([indent + "}"]) + rest;
        NestedText(name, children, indent, rest);
        LexOpen(indent, name, Ended(LinesOf(children, indent + "  ")) + end);
        LexTrees(children, indent + "  ", end);
        LexClose(indent, rest);
        BothThrice([Word(name), Open], Tokens(children), [Close], Lex(rest, ""));
    }
  }

  function After(sels: seq<Selection>, r: Option<(seq<Selection>, seq<Token>)>): Option<(seq<Selection>, seq<Token>)> {
    match r case None => None case Some((more, end)) => Some((sels + more, end))
  }

  lemma AfterTwice(a: seq<Selection>, b: seq<Selection>, r: Option<(seq<Selection>, seq<Token>)>)
    ensures After(a, After(b, r)) == After(a + b, r) && After([], r) == r
  {
    if r.Some? { assert a + (b + r.value.0) == a + b + r.value.0 && [] + r.value.0 == r.value.0; }
  }

  /** Tokens parse back to the selections they came from, in front of anything that is no brace. */
  lemma {:induction false} ParseTokens(trees: seq<Tree>, rest: seq<Token>)
    requires TreesNamed(trees) && (rest == [] || !rest[0].Open?)
    ensures ParseItems(Tokens(trees) + rest) == After(Abstract(trees), ParseItems(rest))
    ensures Tokens(trees) + rest == [] || !(Tokens(trees) + rest)[0].Open?
    decreases trees, 0
  {
    if trees == [] {
      assert Tokens(trees) + rest == rest;
      AfterTwice([], [], ParseItems(rest));
    } else {
      var tail := Tokens(trees[1..]) + rest;
      assert Tokens(trees) + rest == TreeTokens(trees[0]) + tail;
      ParseTokens(trees[1..], rest);
      ParseTree(trees[0], tail);
      AfterTwice([AbstractTree(trees[0])], Abstract(trees[1..]), ParseItems(rest));
    }
  }

  lemma ParseTypename(tail: seq<Token>)
    ensures ParseItems([Word("__typename"), Close] + tail) == Some(([TYPENAME], tail))
  {
    var inner, end := [Word("__typename"), Close] + tail, [Close] + tail;
    assert inner[1..] == end && end[1..] == tail;
    assert ParseItems(end) == Some(([], tail));
    assert [TYPENAME] + [] == [TYPENAME];
  }

  lemma {:induction false} ParseTree(tree: Tree, tail: seq<Token>)
    requires TreeNamed(tree) && (tail == [] || !tail[0].Open?)
    ensures ParseItems(TreeTokens(tree) + tail) == After([AbstractTree(tree)], ParseItems(tail))
    decreases tree, 1
  {
    var ts := TreeTokens(tree) + tail;
    match tree {
      case Leaf(name) => assert ts[1..] == tail;
      case Cut(name) =>
        assert ts[2..] == [Word("__typename"), Close] + tail;
        ParseTypename(tail);
      case Nested(name, children) =>
        assert ts[2..] == Tokens(children) + ([Close] + tail);
        assert ([Close] + tail)[1..] == tail;
        ParseTokens(children, [Close] + tail);
        assert Abstract(children) + [] == Abstract(children);
        assert ParseItems(ts[2..]) == Some((Abstract(children), tail));
    }
  }

  /** The selection the text stands for: its fallback selects the type's name. */
  function SelectionOf(trees: seq<Tree>): seq<Selection> {
    if trees == [] then [TYPENAME] else Abstract(trees)
  }

  function SelectionTokens(trees: seq<Tree>): seq<Token> {
    if trees == [] then [Open, Word("__typename"), Close] else [Open] + Tokens(trees) + [Close]
  }

  lemma TextIsEnded(trees: seq<Tree>, rest: string)
    requires trees != []
    ensures SelectionText(trees) + rest == ['{'] + (['\n'] + (Ended(LinesOf(trees, "  ")) + (['}'] + rest)))
  {
    LinesEmpty(trees, "  ");
    JoinIsEnded(LinesOf(trees, "  "));
  }

  lemma LexSelection(trees: seq<Tree>, rest: string)
    requires TreesNamed(trees)
    ensures Lex(SelectionText(trees) + rest, "") == Both(SelectionTokens(trees), Lex(rest, ""))
  {
    if trees == [] {
      LexTypename(rest);
    } else {
      var body := Ended(LinesOf(trees, "  ")) + (['}'] + rest);
      TextIsEnded(trees, rest);
      LexMark('{', ['\n'] + body, "");
      LexSkip('\n', body);
      LexTrees(trees, "  ", ['}'] + rest);
      LexMark('}', rest, "");
      BothThrice([Open], Tokens(trees), [Close], Lex(rest, ""));
    }
  }

  lemma ParseClose(rest: seq<Token>)
    ensures ParseItems([Close] + rest) == Some(([], rest))
  {
    assert ([Close] + rest)[1..] == rest;
  }

  lemma ParseSelection(trees: seq<Tree>, rest: seq<Token>)
    requires TreesNamed(trees)
    ensures SelectionTokens(trees)[0] == Open && |SelectionTokens(trees)| > 1
    ensures ParseItems(SelectionTokens(trees)[1..] + rest) == Some((SelectionOf(trees), rest))
  {
    if trees == [] {
      assert SelectionTokens(trees)[1..] + rest == [Word("__typename"), Close] + rest;
      ParseTypename(rest);
    } else {
      Bracketed(Open, Tokens(trees), Close, rest);
      ParseClose(rest);
      ParseTokens(trees, [Close] + rest);
      assert Abstract(trees) + [] == Abstract(trees);
    }
  }

  /** Printing loses nothing: the text parses back to the tree it was printed from. */
  lemma TextComesBack(trees: seq<Tree>)
    requires TreesNamed(trees)
    ensures ParseText(SelectionText(trees)) == Some(SelectionOf(trees))
  {
    LexSelection(trees, "");
    ParseSelection(trees, []);
    assert SelectionText(trees) + "" == SelectionText(trees);
    assert Lex("", "") == Some([]);
    assert SelectionTokens(trees) + [] == SelectionTokens(trees)
      && SelectionTokens(trees)[1..] + [] == SelectionTokens(trees)[1..];
  }
}
