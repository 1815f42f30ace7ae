/** What a template keeps of its own in every built path and URL, with placeholders anywhere. */
module PathTheorems {
  import opened Wrappers
  import opened Bindings
  import opened Requests
  import opened RequestTheorems
  import opened UrlTemplate
  import opened DotSegments
  import Text
  import Urls

  // ---- Characters

  lemma {:induction false} SubstituteHas(pieces: seq<Piece>, values: map<string, string>, c: char)
    requires (forall n :: n in Holes(pieces) ==> n in values) && forall n :: n in values ==> Plain(values[n])
    requires !Unreserved(c) && c != '%'
    ensures c in Substitute(pieces, values) <==> Char(c) in pieces
  {
    if pieces != [] {
      SubstituteHas(pieces[1..], values, c);
      assert pieces == [pieces[0]] + pieces[1..];
    }
  }

  lemma EncodedIsPlain(values: map<string, seq<Byte>>)
    ensures forall n :: n in Encoded(values) ==> Plain(Encoded(values)[n]) && '/' !in Encoded(values)[n]
  {
    forall n | n in values ensures Plain(Encode(values[n])) && '/' !in Encode(values[n]) { EncodeIsInert(values[n]); }
  }

  /** A reserved character is in a built path exactly when it is in the template's own text: no
      argument brings in a slash, a question mark or a number sign. */
  lemma OnlyTheTemplate(b: Binding, args: map<string, Value>, credential: Option<Credential>, c: char)
    requires TemplateOk(b) && Parse(b.path).Some? && Build(b, args, credential).Ok?
    requires !Unreserved(c) && c != '%'
    ensures c in Build(b, args, credential).value.path <==> Char(c) in Parse(b.path).value
  {
    PathIsSubstitution(b, args, credential);
    EncodedIsPlain(PathBytes(b.parameters, args));
    SubstituteHas(Parse(b.path).value, Encoded(PathBytes(b.parameters, args)), c);
  }

  /** When the template has no question mark of its own, whoever cuts the request's URL at its
      question mark has the joined address and reads the query that was asked for. */
  lemma BuiltUrlComesBack(b: Binding, baseUrl: string, args: map<string, Value>, credential: Option<Credential>)
    requires TemplateOk(b) && Parse(b.path).Some? && Build(b, args, credential).Ok?
    requires '?' !in baseUrl && Char('?') !in Parse(b.path).value && QueryOf(b.parameters, args) != []
    ensures var request := Build(b, args, credential).value;
      var (address, text) := Text.Partition(Prepare(baseUrl, request).url, '?');
      address == Urls.JoinUrl(baseUrl, request.path) && Urls.ParseQuery(text) == Some(QueryOf(b.parameters, args))
  {
    var request := Build(b, args, credential).value;
    OnlyTheTemplate(b, args, credential, '?');
    QueryAndHeaders(b, args, credential, "");
    Urls.UrlComesBack(baseUrl, request.path, request.query);
  }

  /** Nor does an argument begin a fragment. */
  lemma NoFragment(b: Binding, baseUrl: string, args: map<string, Value>, credential: Option<Credential>)
    requires TemplateOk(b) && Parse(b.path).Some? && Build(b, args, credential).Ok?
    ensures '#' in Prepare(baseUrl, Build(b, args, credential).value).url <==>
      '#' in baseUrl || Char('#') in Parse(b.path).value
  {
    var request := Build(b, args, credential).value;
    OnlyTheTemplate(b, args, credential, '#');
    Urls.JoinHas(baseUrl, request.path, '#');
    Urls.EncodedQueryHasNone(request.query);
  }

  // ---- Segments

  /** The pieces of each segment. */
  function Parts(pieces: seq<Piece>): (parts: seq<seq<Piece>>)
    ensures |parts| > 0
  {
    if pieces == [] then [[]]
    else if pieces[0] == Char('/') then [[]] + Parts(pieces[1..])
    else var rest := Parts(pieces[1..]); [[pieces[0]] + rest[0]] + rest[1..]
  }

  function FilledParts(parts: seq<seq<Piece>>, values: map<string, string>): (filled: seq<string>)
    ensures |filled| == |parts| && forall i :: 0 <= i < |parts| ==> filled[i] == Substitute(parts[i], values)
  {
    seq(|parts|, i requires 0 <= i < |parts| => Substitute(parts[i], values))
  }

  lemma FilledCons(part: seq<Piece>, parts: seq<seq<Piece>>, values: map<string, string>)
    ensures FilledParts([part] + parts, values) == [Substitute(part, values)] + FilledParts(parts, values)
  {}

  lemma SlashSplits(rest: seq<Piece>, values: map<string, string>)
    requires Text.Split(Substitute(rest, values), '/') == FilledParts(Parts(rest), values)
    ensures Text.Split(['/'] + Substitute(rest, values), '/') == FilledParts([[]] + Parts(rest), values)
  {
    Text.SplitAt("", '/', Substitute(rest, values));
    assert "" + ['/'] + Substitute(rest, values) == ['/'] + Substitute(rest, values);
    FilledCons([], Parts(rest), values);
  }

  lemma FrontSplits(first: Piece, rest: seq<Piece>, values: map<string, string>)
    requires '/' !in Substitute([first], values)
    requires Text.Split(Substitute(rest, values), '/') == FilledParts(Parts(rest), values)
    ensures var parts := Parts(rest);
      Text.Split(Substitute([first], values) + Substitute(rest, values), '/') ==
      FilledParts([[first] + parts[0]] + parts[1..], values)
  {
    var parts := Parts(rest);
    Text.SplitBehind(Substitute([first], values), Substitute(rest, values), '/');
    SubstituteCons(first, parts[0], values);
    FilledCons([first] + parts[0], parts[1..], values);
    FilledFirst(parts, values);
  }

  lemma FilledFirst(parts: seq<seq<Piece>>, values: map<string, string>)
    requires parts != []
    ensures FilledParts(parts, values)[0] == Substitute(parts[0], values)
    ensures FilledParts(parts, values)[1..] == FilledParts(parts[1..], values)
  {}

  /** A filled template has the segments of the template, each filled. */
  lemma {:induction false} SplitsIntoParts(pieces: seq<Piece>, values: map<string, string>)
    requires (forall n :: n in Holes(pieces) ==> n in values) && forall n :: n in values ==> '/' !in values[n]
    ensures Text.Split(Substitute(pieces, values), '/') == FilledParts(Parts(pieces), values)
  {
    if pieces == [] {
      assert FilledParts([[]], values) == [""];
    } else {
      SplitsIntoParts(pieces[1..], values);
      SubstituteFirst(pieces, values);
      if pieces[0] == Char('/') {
        SlashSplits(pieces[1..], values);
      } else {
        FrontSplits(pieces[0], pieces[1..], values);
      }
    }
  }

  lemma SubstituteFirst(pieces: seq<Piece>, values: map<string, string>)
    requires pieces != [] && (pieces[0].Hole? ==> pieces[0].name in values && '/' !in values[pieces[0].name])
    ensures Substitute(pieces, values) == Substitute([pieces[0]], values) + Substitute(pieces[1..], values)
    ensures if pieces[0] == Char('/') then Substitute([pieces[0]], values) == ['/']
      else '/' !in Substitute([pieces[0]], values)
  {
    assert [pieces[0]] + pieces[1..] == pieces;
    SubstituteCons(pieces[0], pieces[1..], values);
    assert Substitute([], values) == "";
  }

  lemma {:induction false} PartsHoles(pieces: seq<Piece>)
    ensures forall part, n :: part in Parts(pieces) && n in Holes(part) ==> n in Holes(pieces)
  {
    if pieces != [] {
      var rest := Parts(pieces[1..]);
      PartsHoles(pieces[1..]);
      if pieces[0] == Char('/') {
        assert forall part :: part in Parts(pieces) ==> part == [] || part in rest;
      } else {
        var first := [pieces[0]] + rest[0];
        assert first[1..] == rest[0] && rest[0] in rest;
        assert forall part :: part in Parts(pieces) ==> part == first || part in rest;
      }
    }
  }

  lemma {:induction false} OnePart(pieces: seq<Piece>)
    requires Char('/') !in pieces
    ensures Parts(pieces) == [pieces]
  {
    if pieces != [] {
      assert pieces == [pieces[0]] + pieces[1..];
      OnePart(pieces[1..]);
    }
  }

  // ---- Dot segments

  /** The texts of the path arguments by wire name. */
  function PathTexts(ps: seq<Parameter>, args: map<string, Value>): map<string, string> {
    if ps == [] then map[]
    else
      var p, later := ps[0], PathTexts(ps[1..], args);
      if p.location.Path? && p.arg in args then later[p.wireName := Str(args[p.arg])] else later
  }

  lemma {:induction false} PathTextsAreEncoded(ps: seq<Parameter>, args: map<string, Value>)
    ensures PathTexts(ps, args).Keys == PathBytes(ps, args).Keys
    ensures forall n :: n in PathTexts(ps, args) ==> PathBytes(ps, args)[n] == Utf8(PathTexts(ps, args)[n])
    ensures forall n :: n in PathTexts(ps, args) ==> exists p ::
      p in ps && p.location.Path? && p.wireName == n && p.arg in args && PathTexts(ps, args)[n] == Str(args[p.arg])
  {
    if ps != [] {
      PathTextsAreEncoded(ps[1..], args);
      forall n | n in PathTexts(ps, args)
        ensures exists p :: p in ps && p.location.Path? && p.wireName == n && p.arg in args
                            && PathTexts(ps, args)[n] == Str(args[p.arg])
      {
        if ps[0].location.Path? && ps[0].arg in args && ps[0].wireName == n {
          assert ps[0] in ps;
        } else {
          var p :| p in ps[1..] && p.location.Path? && p.wireName == n && p.arg in args
            && PathTexts(ps[1..], args)[n] == Str(args[p.arg]);
          assert p in ps;
        }
      }
    }
  }

  /** At most two dots, and nothing else. */
  predicate FewDots(s: string) {
    |s| <= 2 && forall c :: c in s ==> c == '.'
  }

  lemma FewDotsIs(s: string)
    ensures FewDots(s) <==> s == "" || IsDot(s)
  {
    if FewDots(s) {
      assert forall i :: 0 <= i < |s| ==> s[i] in s;
      assert |s| == 1 ==> s == ".";
      assert |s| == 2 ==> s == "..";
    }
  }

  lemma FewDotsConcat(a: string, b: string)
    requires FewDots(a + b)
    ensures FewDots(a) && FewDots(b)
  {
    assert forall c :: c in a ==> c in a + b;
    assert forall c :: c in b ==> c in a + b;
  }

  /** An argument that is encoded as a few dots, or is a few dots, is encoded as itself. */
  lemma DotsEncodeThemselves(text: string)
    requires text != "" && (FewDots(Encode(Utf8(text))) || FewDots(text))
    ensures Encode(Utf8(text)) == text
  {
    EncodeIsInert(Utf8(text));
    FewDotsIs(text);
    FewDotsIs(Encode(Utf8(text)));
    DotEncodesExactly(text);
    DotsAreUnreserved();
  }

  /** Filled with encoded arguments, a segment is a dot segment exactly when it is one filled with
      the arguments themselves. */
  lemma {:induction false} FillsAlike(part: seq<Piece>, values: map<string, string>, texts: map<string, string>)
    requires forall n :: n in Holes(part) ==> n in values && n in texts
    requires forall n :: n in Holes(part) ==> texts[n] != "" && values[n] == Encode(Utf8(texts[n]))
    requires FewDots(Substitute(part, values)) || FewDots(Substitute(part, texts))
    ensures Substitute(part, values) == Substitute(part, texts)
  {
    if part != [] {
      var a, b := Substitute([part[0]], values), Substitute([part[0]], texts);
      assert part == [part[0]] + part[1..];
      SubstituteCons(part[0], part[1..], values);
      SubstituteCons(part[0], part[1..], texts);
      if FewDots(Substitute(part, values)) {
        FewDotsConcat(a, Substitute(part[1..], values));
      } else {
        FewDotsConcat(b, Substitute(part[1..], texts));
      }
      if part[0].Hole? {
        var n := part[0].name;
        assert n in Holes(part) && a == values[n] + "" == values[n] && b == texts[n] + "" == texts[n];
        DotsEncodeThemselves(texts[n]);
      }
      FillsAlike(part[1..], values, texts);
    }
  }

  /** Removing dot segments leaves a built path as it is exactly when no segment of the template,
      with the arguments themselves written into it, is `.` or `..`. */
  lemma PathStaysExactly(b: Binding, args: map<string, Value>, credential: Option<Credential>)
    requires TemplateOk(b) && Parse(b.path).Some? && Build(b, args, credential).Ok?
    ensures var path := Build(b, args, credential).value.path;
      RemoveDots(path, "") == path <==>
      NoDots(FilledParts(Parts(Parse(b.path).value), PathTexts(b.parameters, args)))
  {
    var path, pieces := Build(b, args, credential).value.path, Parse(b.path).value;
    var values, texts := Encoded(PathBytes(b.parameters, args)), PathTexts(b.parameters, args);
    PathIsSubstitution(b, args, credential);
    EncodedIsPlain(PathBytes(b.parameters, args));
    SplitsIntoParts(pieces, values);
    StaysExactly(path, "");
    assert "" + path == path;
    TextsFit(b, args, credential);
    PartsFillAlike(pieces, values, texts);
  }

  /** The texts of a built path's arguments: one for each placeholder, none empty. */
  lemma TextsFit(b: Binding, args: map<string, Value>, credential: Option<Credential>)
    requires TemplateOk(b) && Parse(b.path).Some? && Build(b, args, credential).Ok?
    ensures var values, texts := Encoded(PathBytes(b.parameters, args)), PathTexts(b.parameters, args);
      forall n :: n in Holes(Parse(b.path).value) ==>
        n in values && n in texts && texts[n] != "" && values[n] == Encode(Utf8(texts[n]))
  {
    PathIsSubstitution(b, args, credential);
    PathTextsAreEncoded(b.parameters, args);
    BuildsExactly(b, args, credential);
    forall n | n in PathTexts(b.parameters, args) ensures PathTexts(b.parameters, args)[n] != "" {
      var p :| p in b.parameters && p.location.Path? && p.wireName == n && p.arg in args
        && PathTexts(b.parameters, args)[n] == Str(args[p.arg]);
      assert Suits(p, args);
    }
  }

  lemma PartsFillAlike(pieces: seq<Piece>, values: map<string, string>, texts: map<string, string>)
    requires forall n :: n in Holes(pieces) ==>
      n in values && n in texts && texts[n] != "" && values[n] == Encode(Utf8(texts[n]))
    ensures NoDots(FilledParts(Parts(pieces), values)) <==> NoDots(FilledParts(Parts(pieces), texts))
  {
    var parts := Parts(pieces);
    PartsHoles(pieces);
    assert forall i :: 0 <= i < |parts| ==> parts[i] in parts;
    forall i | 0 <= i < |parts|
      ensures IsDot(FilledParts(parts, values)[i]) <==> IsDot(FilledParts(parts, texts)[i])
    {
      FewDotsIs(Substitute(parts[i], values));
      FewDotsIs(Substitute(parts[i], texts));
      if IsDot(Substitute(parts[i], values)) || IsDot(Substitute(parts[i], texts)) {
        FillsAlike(parts[i], values, texts);
      }
    }
  }

  /** So arguments other than `.` and `..` leave every segment in place, wherever in a segment their
      placeholders stand, when the template has no dot segment of its own. */
  lemma PlainArgumentsStay(b: Binding, args: map<string, Value>, credential: Option<Credential>)
    requires TemplateOk(b) && Parse(b.path).Some? && Build(b, args, credential).Ok?
    requires forall part :: part in Parts(Parse(b.path).value) && Holes(part) == [] ==> !IsDot(Render(part))
    requires NoDotArguments(b, args)
    ensures var path := Build(b, args, credential).value.path; RemoveDots(path, "") == path
  {
    var parts, texts := Parts(Parse(b.path).value), PathTexts(b.parameters, args);
    PathStaysExactly(b, args, credential);
    PartsHoles(Parse(b.path).value);
    TextsFit(b, args, credential);
    PathTextsAreEncoded(b.parameters, args);
    forall i | 0 <= i < |parts| ensures !IsDot(Substitute(parts[i], texts)) {
      assert parts[i] in parts;
      assert forall n :: n in Holes(parts[i]) ==> n in texts;
      if Holes(parts[i]) == [] {
        NothingToFill(parts[i], texts);
      } else if IsDot(Substitute(parts[i], texts)) {
        var n := Holes(parts[i])[0];
        FewDotsIs(Substitute(parts[i], texts));
        HoleInDots(parts[i], texts, n);
        FewDotsIs(texts[n]);
      }
    }
  }

  lemma {:induction false} NothingToFill(part: seq<Piece>, values: map<string, string>)
    requires Holes(part) == []
    ensures Substitute(part, values) == Render(part)
  {
    if part != [] { NothingToFill(part[1..], values); }
  }

  lemma {:induction false} HoleInDots(part: seq<Piece>, values: map<string, string>, n: string)
    requires n in Holes(part) && n in values && FewDots(Substitute(part, values))
    ensures FewDots(values[n])
  {
    assert part == [part[0]] + part[1..];
    SubstituteCons(part[0], part[1..], values);
    FewDotsConcat(Substitute([part[0]], values), Substitute(part[1..], values));
    if part[0] == Hole(n) {
      assert Substitute([part[0]], values) == values[n] + "" == values[n];
    } else {
      HoleInDots(part[1..], values, n);
    }
  }

  // ---- One argument in one segment

  function OneArgument(path: string, name: string): Binding {
    Binding("GET", path, [Parameter(name, Path, name, true, "{}", false)], None)
  }

  lemma OneArgumentBuilds(pieces: seq<Piece>, name: string, text: string)
    requires Clean(pieces) && Holes(pieces) == [name] && text != ""
    ensures var b, args := OneArgument(Render(pieces), name), map[name := Scalar(text)];
      && TemplateOk(b) && Parse(b.path) == Some(pieces) && Build(b, args, None).Ok?
      && PathTexts(b.parameters, args) == map[name := text]
      && (NoDotArguments(b, args) <==> !IsDot(text))
  {
    var b, args := OneArgument(Render(pieces), name), map[name := Scalar(text)];
    ParseRender(pieces);
    FindsTheHoles(b.path);
    assert b.parameters[0] in b.parameters && b.parameters[1..] == [];
    assert WireNames(b.parameters) == [name] + [] == [name];
    BuildsExactly(b, args, None);
  }

  lemma SlashThenPart(tail: seq<Piece>, texts: map<string, string>)
    requires Char('/') !in tail
    ensures NoDots(FilledParts(Parts([Char('/')] + tail), texts)) <==> !IsDot(Substitute(tail, texts))
  {
    var pieces, filled := [Char('/')] + tail, Substitute(tail, texts);
    assert pieces[0] == Char('/') && pieces[1..] == tail;
    OnePart(tail);
    assert Parts(pieces) == [[]] + [tail];
    assert FilledParts(Parts(pieces), texts) == [""] + [filled];
    NoDotsCons("", [filled]);
    assert NoDots([filled]) <==> !IsDot(filled) by { assert [filled][0] == filled; }
  }

  lemma SlashThenText(tail: seq<Piece>)
    ensures Render([Char('/')] + tail) == "/" + Render(tail) && Holes([Char('/')] + tail) == Holes(tail)
  {
    assert ([Char('/')] + tail)[1..] == tail;
  }

  /** What becomes of `/` followed by one segment with one placeholder. */
  lemma OneSegment(tail: seq<Piece>, name: string, text: string)
    requires Clean(tail) && Char('/') !in tail && Holes(tail) == [name] && text != ""
    ensures var b, args := OneArgument("/" + Render(tail), name), map[name := Scalar(text)];
      && TemplateOk(b) && Build(b, args, None).Ok?
      && (NoDotArguments(b, args) <==> !IsDot(text))
      && var path := Build(b, args, None).value.path;
         RemoveDots(path, "") == path <==> !IsDot(Substitute(tail, map[name := text]))
  {
    SlashThenText(tail);
    OneArgumentBuilds([Char('/')] + tail, name, text);
    PathStaysExactly(OneArgument("/" + Render(tail), name), map[name := Scalar(text)], None);
    SlashThenPart(tail, map[name := text]);
  }

  lemma HoleAlone(name: string, text: string)
    ensures Render([Hole(name)]) == Placeholder(name) && Substitute([Hole(name)], map[name := text]) == text
    ensures Holes([Hole(name)]) == [name]
  {
    var rest: seq<Piece> := [Hole(name)][1..];
    assert rest == [] && Render(rest) == "" && Substitute(rest, map[name := text]) == "" && Holes(rest) == [];
  }

  /** The value `..` for `/{id}` is lost together with its segment. */
  lemma DotArgumentExample()
    ensures var b, args := OneArgument("/{id}", "id"), map["id" := Scalar("..")];
      && TemplateOk(b) && Build(b, args, None).Ok?
      && var path := Build(b, args, None).value.path; RemoveDots(path, "") != path
  {
    HoleAlone("id", "..");
    assert "/" + Placeholder("id") == "/{id}";
    OneSegment([Hole("id")], "id", "..");
  }

  /** The value `.` for `/a{x}` is a dot argument that leaves its segment in place. */
  lemma PartialSegmentExample()
    ensures var b, args := OneArgument("/a{x}", "x"), map["x" := Scalar(".")];
      && TemplateOk(b) && Build(b, args, None).Ok? && !NoDotArguments(b, args)
      && var path := Build(b, args, None).value.path; RemoveDots(path, "") == path
  {
    var hole, tail := [Hole("x")], [Char('a'), Hole("x")];
    HoleAlone("x", ".");
    assert tail[1..] == hole && tail[0] == Char('a');
    assert Render(tail) == "a" + "{x}" == "a{x}" && "/" + Render(tail) == "/a{x}";
    assert Substitute(tail, map["x" := "."]) == "a" + "." == "a.";
    OneSegment(tail, "x", ".");
  }
}
