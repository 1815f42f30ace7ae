/** Removing dot segments from a path, section 5.2.4 of RFC 3986. */
module DotSegments {
  import Text

  /** The text in front of the first slash, and the rest. */
  function UntilSlash(s: string): (r: (string, string))
    ensures s == r.0 + r.1 && '/' !in r.0 && (r.1 == "" || r.1[0] == '/')
  {
    if s == "" || s[0] == '/' then ("", s)
    else var (a, b) := UntilSlash(s[1..]); ([s[0]] + a, b)
  }

  /** The first segment with the slash before it, and the rest. */
  function FirstSegment(s: string): (r: (string, string))
    requires s != ""
    ensures s == r.0 + r.1 && r.0 != "" && (r.1 == "" || r.1[0] == '/')
  {
    if s[0] == '/' then var (a, b) := UntilSlash(s[1..]); (['/'] + a, b) else UntilSlash(s)
  }

  /** The output without its last segment and the slash before it. */
  function DropLast(output: string): (r: string)
    ensures |r| <= |output|
  {
    if output == "" then ""
    else if output[|output| - 1] == '/' then output[..|output| - 1]
    else DropLast(output[..|output| - 1])
  }

  /** The rules in the order the section gives them. */
  function RemoveDots(input: string, output: string): string
    decreases |input|
  {
    if input == "" then output
    else if "../" <= input then RemoveDots(input[3..], output)
    else if "./" <= input then RemoveDots(input[2..], output)
    else if "/./" <= input then RemoveDots(input[2..], output)
    else if input == "/." then RemoveDots("/", output)
    else if "/../" <= input then RemoveDots(input[3..], DropLast(output))
    else if input == "/.." then RemoveDots("/", DropLast(output))
    else if input == "." || input == ".." then output
    else var (segment, rest) := FirstSegment(input); RemoveDots(rest, output + segment)
  }

  predicate IsDot(segment: string) {
    segment == "." || segment == ".."
  }

  ghost predicate NoDots(parts: seq<string>) {
    forall i :: 0 <= i < |parts| ==> !IsDot(parts[i])
  }

  lemma {:induction false} NeverLonger(input: string, output: string)
    ensures |RemoveDots(input, output)| <= |input| + |output|
    decreases |input|
  {
    if input == "" {
    } else if "../" <= input {
      NeverLonger(input[3..], output);
    } else if "./" <= input || "/./" <= input {
      NeverLonger(input[2..], output);
    } else if input == "/." {
      NeverLonger("/", output);
    } else if "/../" <= input {
      NeverLonger(input[3..], DropLast(output));
    } else if input == "/.." {
      NeverLonger("/", DropLast(output));
    } else if input != "." && input != ".." {
      var (segment, rest) := FirstSegment(input);
      NeverLonger(rest, output + segment);
    }
  }

  /** The rule that moves a segment to the output does not apply. */
  predicate DotFirst(input: string) {
    || "../" <= input || "./" <= input || "/./" <= input || input == "/." || "/../" <= input || input == "/.."
    || input == "." || input == ".."
  }

  /** Every other rule loses text. */
  lemma DotShortens(input: string, output: string)
    requires input != "" && DotFirst(input)
    ensures |RemoveDots(input, output)| < |input| + |output|
  {
    if "../" <= input {
      NeverLonger(input[3..], output);
    } else if "./" <= input || "/./" <= input {
      NeverLonger(input[2..], output);
    } else if input == "/." {
      NeverLonger("/", output);
    } else if "/../" <= input {
      NeverLonger(input[3..], DropLast(output));
    } else if input == "/.." {
      NeverLonger("/", DropLast(output));
    }
  }

  /** The text of the first segment. */
  function Head(input: string): string
    requires input != ""
  {
    if input[0] == '/' then UntilSlash(input[1..]).0 else UntilSlash(input).0
  }

  lemma NoDotsCons(first: string, parts: seq<string>)
    ensures NoDots([first] + parts) <==> !IsDot(first) && NoDots(parts)
  {
    var all := [first] + parts;
    assert all[0] == first && forall i :: 0 <= i < |parts| ==> all[i + 1] == parts[i];
    assert forall i :: 0 < i < |all| ==> all[i] == parts[i - 1];
  }

  lemma HeadIsPart(input: string)
    requires input != ""
    ensures NoDots(Text.Split(input, '/')) <==> !IsDot(Head(input)) && NoDots(Text.Split(FirstSegment(input).1, '/'))
  {
    if input[0] == '/' {
      PartsBehind(input[1..]);
      NoDotsCons("", Text.Split(input[1..], '/'));
    } else {
      PartsBehind(input);
    }
  }

  lemma PartsBehind(text: string)
    ensures var (head, rest) := UntilSlash(text);
      NoDots(Text.Split(text, '/')) <==> !IsDot(head) && NoDots(Text.Split(rest, '/'))
  {
    var (head, rest) := UntilSlash(text);
    if rest == "" {
      assert text == head;
      Text.SplitOfClean(head, '/');
      NoDotsCons(head, []);
      NoDotsCons("", []);
      assert [head] + [] == [head] && [""] + [] == [""];
    } else {
      var later := Text.Split(rest[1..], '/');
      assert text == head + ['/'] + rest[1..];
      Text.SplitAt(head, '/', rest[1..]);
      NoDotsCons(head, later);
      NoDotsCons("", later);
    }
  }

  lemma {:induction false} UntilSlashStops(a: string, b: string)
    requires '/' !in a && (b == "" || b[0] == '/')
    ensures UntilSlash(a + b) == (a, b)
  {
    if a == "" {
      assert a + b == b;
    } else {
      assert a[0] in a && (a + b)[1..] == a[1..] + b && [a[0]] + a[1..] == a;
      UntilSlashStops(a[1..], b);
    }
  }

  lemma BehindSlash(prefix: string, text: string)
    ensures ['/'] + prefix <= ['/'] + text <==> prefix <= text
    ensures ['/'] + prefix == ['/'] + text <==> prefix == text
  {
    var a, b := ['/'] + prefix, ['/'] + text;
    assert a[1..] == prefix && b[1..] == text;
    if prefix <= text { assert b[..|a|] == a; }
    if a <= b { assert b[..|a|][1..] == text[..|prefix|]; }
  }

  lemma SlashDotFirst(text: string)
    ensures DotFirst(['/'] + text) <==> text == "." || text == ".." || "./" <= text || "../" <= text
  {
    var s := ['/'] + text;
    assert s[0] == '/' && "../"[0] == "./"[0] == "."[0] == ".."[0] == '.';
    assert !("../" <= s) && !("./" <= s) && s != "." && s != "..";
    BehindSlash("./", text);
    BehindSlash("../", text);
    BehindSlash(".", text);
    BehindSlash("..", text);
    assert "/./" == ['/'] + "./" && "/../" == ['/'] + "../" && "/." == ['/'] + "." && "/.." == ['/'] + "..";
  }

  /** A dot rule applies exactly when the first segment is a dot segment. */
  lemma DotFirstExactly(input: string)
    requires input != ""
    ensures DotFirst(input) <==> IsDot(Head(input))
  {
    if input[0] == '/' {
      assert input == ['/'] + input[1..];
      SlashDotFirst(input[1..]);
      DotHeadExactly(input[1..]);
    } else {
      DotHeadExactly(input);
    }
  }

  lemma DotHeadExactly(text: string)
    ensures IsDot(UntilSlash(text).0) <==> text == "." || text == ".." || "./" <= text || "../" <= text
  {
    var (head, rest) := UntilSlash(text);
    assert rest == "" ==> text == head;
    if rest != "" {
      assert text == head + "/" + rest[1..];
      assert head + "/" <= text;
    }
    if text == "." || text == ".." {
      UntilSlashStops(text, "");
      assert text + "" == text;
    } else if "./" <= text {
      assert text == "." + text[1..];
      UntilSlashStops(".", text[1..]);
    } else if "../" <= text {
      assert text == ".." + text[2..];
      UntilSlashStops("..", text[2..]);
    }
  }

  lemma MovesSegment(input: string, output: string)
    requires input != "" && !DotFirst(input)
    ensures RemoveDots(input, output) == RemoveDots(FirstSegment(input).1, output + FirstSegment(input).0)
    ensures output + FirstSegment(input).0 + FirstSegment(input).1 == output + input
  {
    var (segment, rest) := FirstSegment(input);
    assert RemoveDots(input, output) == RemoveDots(rest, output + segment);
    Regroup(output, segment, rest);
  }

  lemma Regroup(a: string, b: string, c: string)
    ensures a + b + c == a + (b + c)
  {}

  /** Removing dot segments leaves a path as it is exactly when none of its segments is `.` or `..`. */
  lemma {:induction false} StaysExactly(input: string, output: string)
    ensures RemoveDots(input, output) == output + input <==> NoDots(Text.Split(input, '/'))
    decreases |input|
  {
    if input == "" {
      assert output + "" == output;
    } else {
      HeadIsPart(input);
      DotFirstExactly(input);
      if DotFirst(input) {
        DotShortens(input, output);
      } else {
        MovesSegment(input, output);
        StaysExactly(FirstSegment(input).1, output + FirstSegment(input).0);
      }
    }
  }
}
