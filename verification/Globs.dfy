/** Shell patterns as `fnmatch` reads them on a case-sensitive system. */
module Globs {
  import opened Wrappers

  datatype Token = Star | Any | Literal(c: char) | Class(negated: bool, items: string)

  /** The index of the first `]`. */
  function FindBracket(s: string): (i: Option<nat>)
    ensures i.Some? ==> i.value < |s| && s[i.value] == ']'
  {
    if s == "" then None
    else if s[0] == ']' then Some(0)
    else match FindBracket(s[1..]) case None => None case Some(i) => Some(i + 1)
  }

  /** Where the class that begins in front of `s` ends: a `!` and a `]` at its start belong to it. */
  function ClassEnd(s: string): (i: Option<nat>)
    ensures i.Some? ==> 0 < i.value < |s| && s[i.value] == ']'
  {
    var skipped := if s != "" && s[0] == '!' then 1 else 0;
    if |s| <= skipped + 1 then None
    else match FindBracket(s[skipped + 1..]) case None => None case Some(i) => Some(skipped + 1 + i)
  }

  function ClassOf(stuff: string): Token {
    if stuff != "" && stuff[0] == '!' then Class(true, stuff[1..]) else Class(false, stuff)
  }

  function Tokens(p: string): seq<Token>
    decreases |p|
  {
    if p == "" then []
    else if p[0] == '*' then [Star] + Tokens(p[1..])
    else if p[0] == '?' then [Any] + Tokens(p[1..])
    else if p[0] == '[' then
      match ClassEnd(p[1..])
      case None => [Literal('[')] + Tokens(p[1..])
      case Some(j) => [ClassOf(p[1..j + 1])] + Tokens(p[j + 2..])
    else [Literal(p[0])] + Tokens(p[1..])
  }

  /** Single characters and ranges, read from the left; a range that runs backwards holds nothing. */
  predicate InItems(items: string, c: char) {
    if items == "" then false
    else if |items| > 2 && items[1] == '-' then items[0] <= c <= items[2] || InItems(items[3..], c)
    else items[0] == c || InItems(items[1..], c)
  }

  predicate TakesChar(t: Token, c: char) {
    match t
    case Star => true
    case Any => true
    case Literal(d) => c == d
    case Class(negated, items) => InItems(items, c) != negated
  }

  predicate Accepts(ts: seq<Token>, s: string)
    decreases |ts| + |s|
  {
    if ts == [] then s == ""
    else if ts[0].Star? then Accepts(ts[1..], s) || (s != "" && Accepts(ts, s[1..]))
    else s != "" && TakesChar(ts[0], s[0]) && Accepts(ts[1..], s[1..])
  }

  predicate Fnmatch(name: string, pattern: string) {
    Accepts(Tokens(pattern), name)
  }

  // ---- What a pattern means

  /** Some bracket of the text is closed, so that it begins a class. */
  ghost predicate HasClass(p: string) {
    exists i :: 0 <= i < |p| && p[i] == '[' && ClassEnd(p[i + 1..]).Some?
  }

  lemma {:induction false} ClassFreeTail(p: string)
    requires p != "" && !HasClass(p)
    ensures !HasClass(p[1..]) && (p[0] == '[' ==> ClassEnd(p[1..]).None?)
  {
    forall i | 0 <= i < |p[1..]| && p[1..][i] == '[' ensures ClassEnd(p[1..][i + 1..]).None? {
      assert p[1..][i + 1..] == p[i + 2..] == p[i + 1 + 1..];
      assert p[i + 1] == '[';
    }
    assert p[0] == '[' && ClassEnd(p[0 + 1..]).Some? ==> HasClass(p);
  }

  function Joined(parts: seq<string>): string {
    if parts == [] then "" else parts[0] + Joined(parts[1..])
  }

  /** A star stands for any text, a question mark for any character, another character for itself. */
  ghost predicate StandsFor(c: char, part: string) {
    c == '*' || (c == '?' && |part| == 1) || (c != '?' && part == [c])
  }

  /** The name in parts, one for each character of the pattern. */
  ghost predicate Cuts(pattern: string, parts: seq<string>, name: string) {
    && |parts| == |pattern| && Joined(parts) == name
    && forall i :: 0 <= i < |parts| ==> StandsFor(pattern[i], parts[i])
  }

  lemma CutsCons(pattern: string, part: string, parts: seq<string>, name: string)
    requires pattern != "" && StandsFor(pattern[0], part) && Cuts(pattern[1..], parts, name)
    ensures Cuts(pattern, [part] + parts, part + name)
  {
    assert ([part] + parts)[1..] == parts;
    forall i | 0 < i < |pattern| ensures StandsFor(pattern[i], ([part] + parts)[i]) {
      assert pattern[i] == pattern[1..][i - 1] && ([part] + parts)[i] == parts[i - 1];
    }
  }

  lemma CutsTail(pattern: string, parts: seq<string>, name: string)
    requires pattern != "" && Cuts(pattern, parts, name)
    ensures |parts[0]| <= |name| && name == parts[0] + name[|parts[0]|..]
    ensures Cuts(pattern[1..], parts[1..], name[|parts[0]|..])
  {
    assert name == parts[0] + Joined(parts[1..]);
  }

  /** The first token of a pattern without a class, in front of those of the rest. */
  lemma TokensCons(pattern: string)
    requires pattern != "" && !HasClass(pattern)
    ensures !HasClass(pattern[1..]) && |Tokens(pattern)| > 0 && Tokens(pattern)[1..] == Tokens(pattern[1..])
    ensures Tokens(pattern)[0] ==
      if pattern[0] == '*' then Star else if pattern[0] == '?' then Any else Literal(pattern[0])
  {
    ClassFreeTail(pattern);
  }

  lemma {:induction false} AcceptedIsCut(pattern: string, name: string) returns (parts: seq<string>)
    requires !HasClass(pattern) && Accepts(Tokens(pattern), name)
    ensures Cuts(pattern, parts, name)
    decreases |pattern| + |name|
  {
    if pattern == "" {
      parts := [];
    } else {
      TokensCons(pattern);
      if pattern[0] == '*' && !Accepts(Tokens(pattern[1..]), name) {
        var longer := AcceptedIsCut(pattern, name[1..]);
        CutsTail(pattern, longer, name[1..]);
        CutsCons(pattern, [name[0]] + longer[0], longer[1..], name[1..][|longer[0]|..]);
        parts := [[name[0]] + longer[0]] + longer[1..];
        assert [name[0]] + longer[0] + name[1..][|longer[0]|..] == [name[0]] + name[1..] == name;
      } else {
        var first := if pattern[0] == '*' then "" else [name[0]];
        var rest := AcceptedIsCut(pattern[1..], name[|first|..]);
        CutsCons(pattern, first, rest, name[|first|..]);
        parts := [first] + rest;
        assert first + name[|first|..] == name;
      }
    }
  }

  lemma {:induction false} CutIsAccepted(pattern: string, parts: seq<string>, name: string)
    requires !HasClass(pattern) && Cuts(pattern, parts, name)
    ensures Accepts(Tokens(pattern), name)
    decreases |pattern| + |name|
  {
    if pattern != "" {
      TokensCons(pattern);
      CutsTail(pattern, parts, name);
      if pattern[0] == '*' && parts[0] != "" {
        CutsCons(pattern, parts[0][1..], parts[1..], name[|parts[0]|..]);
        assert parts[0][1..] + name[|parts[0]|..] == name[1..];
        CutIsAccepted(pattern, [parts[0][1..]] + parts[1..], name[1..]);
      } else {
        CutIsAccepted(pattern[1..], parts[1..], name[|parts[0]|..]);
        assert parts[0] == "" ==> name[|parts[0]|..] == name;
      }
    }
  }

  /** A pattern without a class takes exactly the names that can be cut so that each of its characters
      stands for one part, in order. */
  lemma PlainMeansExactly(pattern: string, name: string)
    requires !HasClass(pattern)
    ensures Fnmatch(name, pattern) <==> exists parts :: Cuts(pattern, parts, name)
  {
    if Fnmatch(name, pattern) {
      var parts := AcceptedIsCut(pattern, name);
      assert Cuts(pattern, parts, name);
    }
    forall parts | Cuts(pattern, parts, name) ensures Fnmatch(name, pattern) {
      CutIsAccepted(pattern, parts, name);
    }
  }

  lemma {:induction false} BracketBehind(s: string)
    requires ']' !in s
    ensures FindBracket(s + "]") == Some(|s|)
  {
    if s != "" {
      assert (s + "]")[0] == s[0] && (s + "]")[1..] == s[1..] + "]" && s[0] in s;
      BracketBehind(s[1..]);
    }
  }

  lemma {:induction false} ListedExactly(items: string, c: char)
    requires '-' !in items
    ensures InItems(items, c) <==> c in items
  {
    if items != "" {
      assert |items| > 1 ==> items[1] in items;
      ListedExactly(items[1..], c);
    }
  }

  lemma RangedExactly(low: char, high: char, c: char)
    ensures InItems([low, '-', high], c) <==> low <= c <= high
  {
    var items := [low, '-', high];
    assert items[3..] == "" && !InItems("", c);
    assert items[1] == '-' && items[0] == low && items[2] == high;
  }

  ghost predicate ClassText(stuff: string) {
    ']' !in stuff && stuff != "" && (stuff[0] == '!' ==> |stuff| > 1)
  }

  lemma ClassEndsBehind(stuff: string)
    requires ClassText(stuff)
    ensures ClassEnd(stuff + "]") == Some(|stuff|)
  {
    var skipped := if stuff[0] == '!' then 1 else 0;
    assert (stuff + "]")[skipped + 1..] == stuff[skipped + 1..] + "]";
    BracketBehind(stuff[skipped + 1..]);
  }

  /** One class is one token. */
  lemma ClassIsOneToken(stuff: string)
    requires ClassText(stuff)
    ensures Tokens("[" + stuff + "]") == [ClassOf(stuff)]
  {
    var p, n := "[" + stuff + "]", |stuff|;
    ClassEndsBehind(stuff);
    assert p[1..] == stuff + "]";
    assert p[1..n + 1] == stuff;
    assert p[n + 2..] == "";
    assert Tokens(p) == [ClassOf(p[1..n + 1])] + Tokens(p[n + 2..]);
  }

  lemma OneClass(stuff: string, name: string)
    requires ClassText(stuff)
    ensures Fnmatch(name, "[" + stuff + "]") <==> |name| == 1 && TakesChar(ClassOf(stuff), name[0])
  {
    var ts := [ClassOf(stuff)];
    ClassIsOneToken(stuff);
    assert ts[1..] == [] && !ts[0].Star?;
    assert Accepts(ts, name) <==> name != "" && TakesChar(ts[0], name[0]) && name[1..] == "";
  }

  /** A class takes one character that it lists, or with a `!` one that it does not. */
  lemma ListMeansExactly(listed: string, name: string)
    requires ClassText(listed) && listed[0] != '!' && '-' !in listed
    ensures Fnmatch(name, "[" + listed + "]") <==> |name| == 1 && name[0] in listed
    ensures Fnmatch(name, "[" + ("!" + listed) + "]") <==> |name| == 1 && name[0] !in listed
  {
    OneClass(listed, name);
    OneClass("!" + listed, name);
    assert ("!" + listed)[1..] == listed;
    if |name| == 1 { ListedExactly(listed, name[0]); }
  }

  /** Or one of a range. */
  lemma RangeMeansExactly(low: char, high: char, name: string)
    requires low != '!' && low != ']' && high != ']'
    ensures Fnmatch(name, "[" + [low, '-', high] + "]") <==> |name| == 1 && low <= name[0] <= high
    ensures Fnmatch(name, "[" + ("!" + [low, '-', high]) + "]") <==> |name| == 1 && !(low <= name[0] <= high)
  {
    var range := [low, '-', high];
    OneClass(range, name);
    OneClass("!" + range, name);
    assert ("!" + range)[1..] == range;
    if |name| == 1 { RangedExactly(low, high, name[0]); }
  }

  // ---- When a name matches itself

  /** Without a class every name matches itself: each character of it takes itself. */
  lemma {:induction false} PlainMatchesItself(p: string)
    requires !HasClass(p)
    ensures Fnmatch(p, p)
    decreases |p|
  {
    if p != "" {
      ClassFreeTail(p);
      PlainMatchesItself(p[1..]);
      var ts := Tokens(p);
      assert ts[1..] == Tokens(p[1..]) && TakesChar(ts[0], p[0]);
      if ts[0].Star? {
        assert Accepts(ts[1..], p[1..]);
        assert Accepts(ts, p[1..]);
      }
    }
  }

  ghost predicate StarFree(ts: seq<Token>) {
    forall i :: 0 <= i < |ts| ==> !ts[i].Star?
  }

  lemma {:induction false} StarFreeTakesItsLength(ts: seq<Token>, s: string)
    requires StarFree(ts) && Accepts(ts, s)
    ensures |s| == |ts|
  {
    if ts != [] { StarFreeTakesItsLength(ts[1..], s[1..]); }
  }

  lemma {:induction false} TokensAreFewer(p: string)
    ensures |Tokens(p)| <= |p| && (HasClass(p) ==> |Tokens(p)| < |p|)
    decreases |p|
  {
    if p != "" {
      if p[0] == '[' && ClassEnd(p[1..]).Some? {
        TokensAreFewer(p[ClassEnd(p[1..]).value + 2..]);
      } else {
        TokensAreFewer(p[1..]);
        if HasClass(p) {
          var i :| 0 <= i < |p| && p[i] == '[' && ClassEnd(p[i + 1..]).Some?;
          assert i > 0 && p[1..][i - 1] == '[' && p[1..][i..] == p[i + 1..];
        }
      }
    }
  }

  lemma {:induction false} StarsComeFromStars(p: string)
    requires '*' !in p
    ensures StarFree(Tokens(p))
    decreases |p|
  {
    if p != "" {
      var tail := if p[0] == '[' && ClassEnd(p[1..]).Some? then p[ClassEnd(p[1..]).value + 2..] else p[1..];
      assert '*' !in tail && p[0] in p;
      StarsComeFromStars(tail);
    }
  }

  /** A name without a star matches itself exactly when none of its brackets begins a class. */
  lemma MatchesItselfExactly(p: string)
    requires '*' !in p
    ensures Fnmatch(p, p) <==> !HasClass(p)
  {
    if HasClass(p) {
      TokensAreFewer(p);
      StarsComeFromStars(p);
      if Fnmatch(p, p) { StarFreeTakesItsLength(Tokens(p), p); }
    } else {
      PlainMatchesItself(p);
    }
  }

  /** So `a[1]` does not match itself. */
  lemma BracketExample()
    ensures HasClass("a[1]") && !Fnmatch("a[1]", "a[1]")
  {
    var rest := "a[1]"[2..];
    assert rest == "1]" && rest[1..] == "]";
    assert FindBracket(rest[0 + 1..]) == Some(0);
    assert ClassEnd(rest) == Some(1);
    assert "a[1]"[1] == '[' && ClassEnd("a[1]"[1 + 1..]).Some?;
    MatchesItselfExactly("a[1]");
  }

  /** With a star a name may match itself although it has a class: `*[]]` ends in a bracket. */
  lemma StarExample()
    ensures HasClass("*[]]") && Fnmatch("*[]]", "*[]]")
  {
    var p := "*[]]";
    assert p[1..] == "[]]" && p[2..] == "]]" && p[3..] == "]" && p[1..][1..] == "]]";
    assert FindBracket("]]"[1..]) == Some(0);
    assert ClassEnd("]]") == Some(1);
    assert p[1] == '[' && ClassEnd(p[1 + 1..]).Some?;
    assert p[1..][1..2] == "]" && p[1..][3..] == "";
    var last := [Class(false, "]")];
    assert Tokens("") == [];
    assert Tokens("[]]") == last + [] == last;
    assert Tokens(p) == [Star] + last;
    assert Accepts(last[1..], "") && InItems("]", ']');
    assert "]"[1..] == "";
    assert Accepts(last, "]");
    var ts := [Star] + last;
    assert ts[1..] == last;
    assert Accepts(ts, "]");
    assert "]]"[1..] == "]" && "[]]"[1..] == "]]";
    assert Accepts(ts, "]]");
    assert Accepts(ts, "[]]");
    assert Accepts(ts, p);
  }
}
