/** What every built request satisfies. */
module RequestTheorems {
  import opened Wrappers
  import opened Bindings
  import opened Requests
  import opened UrlTemplate
  import DotSegments
  import Text

  // ---- When a request can be built

  lemma {:induction false} PlacesExactly(ps: seq<Parameter>, args: map<string, Value>, d: Draft)
    ensures PlaceAll(ps, args, d).Ok? <==> forall p :: p in ps ==> Objection(p, args).None?
    ensures PlaceAll(ps, args, d).Err? ==>
      exists p :: p in ps && Objection(p, args) == Some(PlaceAll(ps, args, d).error)
  {
    if ps != [] {
      assert ps == [ps[0]] + ps[1..];
      PlacesExactly(ps[1..], args, Place(ps[0], args, d));
    }
  }

  lemma {:induction false} FirstMissingExactly(names: seq<string>, has: set<string>)
    ensures FirstMissing(names, has).None? <==> forall n :: n in names ==> n in has
    ensures FirstMissing(names, has).Some? ==>
      FirstMissing(names, has).value.Missing? && FirstMissing(names, has).value.arg in names
  {
    if names != [] {
      FirstMissingExactly(names[1..], has);
    }
  }

  ghost predicate BodyReady(body: Option<Body>, args: map<string, Value>) {
    match body
    case None => true
    case Some(body) =>
      if Lifted(body) then forall n :: n in body.required ==> n in args && n in body.properties
      else BODY_ARG in args
  }

  lemma BuildsBodyExactly(body: Body, args: map<string, Value>)
    ensures BuildBody(body, args).Ok? <==> BodyReady(Some(body), args)
    ensures BuildBody(body, args).Err? ==> BuildBody(body, args).error.Missing?
  {
    if Lifted(body) {
      FirstMissingExactly(body.required, (map k | k in args && k in body.properties :: args[k]).Keys);
    }
  }

  /** The parameter is supplied if it must be, and its value fits where it goes. */
  ghost predicate Suits(p: Parameter, args: map<string, Value>) {
    && (p.required ==> p.arg in args)
    && (p.arg in args && p.location.Path? ==> Str(args[p.arg]) != "")
    && (p.arg in args && p.location.Header? ==> forall c :: c in Str(args[p.arg]) ==> c != '\r' && c != '\n')
  }

  /** A request is built exactly when every parameter suits and the body has what it requires. */
  lemma BuildsExactly(b: Binding, args: map<string, Value>, credential: Option<Credential>)
    ensures Build(b, args, credential).Ok? <==>
      (forall p :: p in b.parameters ==> Suits(p, args)) && BodyReady(b.body, args)
  {
    PlacesExactly(b.parameters, args, Draft(b.path, [], map[]));
    forall p | p in b.parameters ensures Objection(p, args).None? <==> Suits(p, args) {}
    if b.body.Some? { BuildsBodyExactly(b.body.value, args); }
  }

  /** An error names its cause: an argument that is absent and required, an empty path value, or a
      header value with a line break. */
  lemma ErrorsTellWhy(b: Binding, args: map<string, Value>, credential: Option<Credential>)
    requires Build(b, args, credential).Err?
    ensures match Build(b, args, credential).error
      case EmptyPath(arg) =>
        arg in args && Str(args[arg]) == "" && exists p :: p in b.parameters && p.arg == arg && p.location.Path?
      case BadHeader(name) =>
        exists p :: p in b.parameters && p.wireName == name && p.location.Header? && !Suits(p, args)
      case Missing(arg) => (arg !in args && arg in RequiredArgs(b.parameters)) ||
                           (b.body.Some? && arg in BodyRequired(b.body) && (arg !in args || arg !in BodyNames(b)))
  {
    var placed := PlaceAll(b.parameters, args, Draft(b.path, [], map[]));
    PlacesExactly(b.parameters, args, Draft(b.path, [], map[]));
    RequiredArgsAre(b.parameters);
    if placed.Ok? {
      MissingFromBody(b.body.value, args);
    }
  }

  lemma MissingFromBody(body: Body, args: map<string, Value>)
    requires BuildBody(body, args).Err?
    ensures var e := BuildBody(body, args).error;
      e.Missing? && e.arg in BodyRequired(Some(body)) && (e.arg !in args || (Lifted(body) && e.arg !in body.properties))
  {
    if Lifted(body) {
      FirstMissingIs(body.required, (map k | k in args && k in body.properties :: args[k]).Keys);
    }
  }

  lemma {:induction false} FirstMissingIs(names: seq<string>, has: set<string>)
    requires FirstMissing(names, has).Some?
    ensures FirstMissing(names, has).value.Missing? && FirstMissing(names, has).value.arg in names
    ensures FirstMissing(names, has).value.arg !in has
  {
    if names[0] in has { FirstMissingIs(names[1..], has); }
  }

  // ---- Arguments that satisfy the tool schema

  ghost predicate Satisfies(args: map<string, Value>, s: InputSchema) {
    forall n :: n in s.required ==> n in args
  }

  ghost predicate NeverMissing(r: Binding) {
    forall args, credential | Satisfies(args, SchemaOf(r)) ::
      Build(r, args, credential).Ok? || !Build(r, args, credential).error.Missing?
  }

  ghost predicate RequiredAreDeclared(body: Option<Body>) {
    body.Some? && Lifted(body.value) ==> forall n :: n in body.value.required ==> n in body.value.properties
  }

  /** Arguments that hold all the tool schema requires are never reported missing, exactly when
      every name the body requires is one of its properties. */
  lemma NeverMissingExactly(b: Binding)
    requires Resolve(b).Some?
    ensures NeverMissing(Resolve(b).value) <==> RequiredAreDeclared(b.body)
  {
    var r := Resolve(b).value;
    SchemaCarriesEverything(b);
    if RequiredAreDeclared(r.body) {
      forall args, credential | Satisfies(args, SchemaOf(r))
        ensures Build(r, args, credential).Ok? || !Build(r, args, credential).error.Missing?
      {
        SatisfiedIsPresent(r, args, credential);
      }
    } else {
      var args := map n | n in SchemaOf(r).required :: Scalar("x");
      PlainArgumentsFit(r.parameters, args, Draft(r.path, [], map[]));
      BuildsBodyExactly(r.body.value, args);
      assert Satisfies(args, SchemaOf(r));
      assert Build(r, args, None).Err? && Build(r, args, None).error.Missing?;
    }
  }

  lemma SatisfiedIsPresent(r: Binding, args: map<string, Value>, credential: Option<Credential>)
    requires RequiredAreDeclared(r.body) && Satisfies(args, SchemaOf(r))
    ensures Build(r, args, credential).Ok? || !Build(r, args, credential).error.Missing?
  {
    RequiredArgsAre(r.parameters);
    PlacesExactly(r.parameters, args, Draft(r.path, [], map[]));
    if r.body.Some? {
      assert forall n :: n in BodyRequired(r.body) ==> n in SchemaOf(r).required;
      BuildsBodyExactly(r.body.value, args);
    }
  }

  lemma PlainArgumentsFit(ps: seq<Parameter>, args: map<string, Value>, d: Draft)
    requires forall n :: n in args ==> args[n] == Scalar("x")
    requires forall p :: p in ps && p.required ==> p.arg in args
    ensures PlaceAll(ps, args, d).Ok?
  {
    PlacesExactly(ps, args, d);
  }

  // ---- Where each argument goes

  /** No argument reaches both a parameter and the body, and the body gets just its own. */
  lemma RoutedOnce(b: Binding, args: map<string, Value>, credential: Option<Credential>)
    requires Resolve(b).Some? && Build(Resolve(b).value, args, credential).Ok?
    ensures var r := Resolve(b).value; var content := Build(r, args, credential).value.body;
      match content
      case None => r.body.None?
      case Some(Single(v)) =>
        BODY_ARG in args && v == args[BODY_ARG] && forall p :: p in r.parameters ==> p.arg != BODY_ARG
      case Some(Fields(fields)) =>
        && (forall k :: k in fields <==> k in args && k in BodyNames(r))
        && (forall k :: k in fields ==> fields[k] == args[k])
        && (forall p :: p in r.parameters ==> p.arg !in fields)
  {}

  /** What a parameter adds to the query. */
  function QueryPart(p: Parameter, args: map<string, Value>): seq<(string, string)> {
    if p.location.Query? && p.arg in args then QueryPairs(p.wireName, args[p.arg], p.explode) else []
  }

  function QueryOf(ps: seq<Parameter>, args: map<string, Value>): seq<(string, string)> {
    if ps == [] then [] else QueryPart(ps[0], args) + QueryOf(ps[1..], args)
  }

  /** Exploded, a list is one pair per item; otherwise it is one pair whose text splits back into
      the items exactly when there are items and none holds a comma. */
  lemma QueryListExactly(name: string, items: seq<string>, shown: string)
    ensures var pairs := QueryPairs(name, Items(items, shown), true);
      |pairs| == |items| && forall i :: 0 <= i < |items| ==> pairs[i] == (name, items[i])
    ensures var pairs := QueryPairs(name, Items(items, shown), false);
      |pairs| == 1 && pairs[0].0 == name &&
      (Text.Split(pairs[0].1, ',') == items <==> items != [] && forall i :: 0 <= i < |items| ==> ',' !in items[i])
  {
    var text := QueryPairs(name, Items(items, shown), false)[0].1;
    if items != [] && forall i :: 0 <= i < |items| ==> ',' !in items[i] {
      Text.SplitJoin(items, ',');
    }
    Text.PartsHaveNoSeparator(text, ',');
  }

  /** The last supplied header parameter of that wire name. */
  function HeaderOf(ps: seq<Parameter>, args: map<string, Value>, name: string): Option<string> {
    if ps == [] then None
    else
      var p, later := ps[0], HeaderOf(ps[1..], args, name);
      if later.None? && p.location.Header? && p.arg in args && p.wireName == name then Some(Str(args[p.arg])) else later
  }

  function Lookup(m: map<string, string>, name: string): Option<string> {
    if name in m then Some(m[name]) else None
  }

  lemma PlaceAddsQuery(p: Parameter, args: map<string, Value>, d: Draft)
    ensures Place(p, args, d).query == d.query + QueryPart(p, args)
  {}

  lemma Regroup(a: seq<(string, string)>, b: seq<(string, string)>, c: seq<(string, string)>)
    ensures a + b + c == a + (b + c) && a + [] == a
  {}

  lemma {:induction false} DraftQuery(ps: seq<Parameter>, args: map<string, Value>, d: Draft)
    requires PlaceAll(ps, args, d).Ok?
    ensures PlaceAll(ps, args, d).value.query == d.query + QueryOf(ps, args)
  {
    if ps == [] {
      Regroup(d.query, [], []);
    } else {
      var p, rest := ps[0], ps[1..];
      PlaceAddsQuery(p, args, d);
      DraftQuery(rest, args, Place(p, args, d));
      Regroup(d.query, QueryPart(p, args), QueryOf(rest, args));
    }
  }

  lemma {:induction false} DraftHeader(ps: seq<Parameter>, args: map<string, Value>, d: Draft, name: string)
    requires PlaceAll(ps, args, d).Ok?
    ensures Lookup(PlaceAll(ps, args, d).value.headers, name) ==
            if HeaderOf(ps, args, name).Some? then HeaderOf(ps, args, name) else Lookup(d.headers, name)
  {
    if ps != [] {
      DraftHeader(ps[1..], args, Place(ps[0], args, d), name);
    }
  }

  /** The query holds the supplied query parameters in order; a header is the credential's, else the
      content type, else the last parameter of its name. */
  lemma QueryAndHeaders(b: Binding, args: map<string, Value>, credential: Option<Credential>, name: string)
    requires Build(b, args, credential).Ok?
    ensures var request := Build(b, args, credential).value;
      && request.query == QueryOf(b.parameters, args)
      && Lookup(request.headers, name) ==
           if credential.Some? && name == credential.value.header then Some(credential.value.value)
           else if b.body.Some? && name == "Content-Type" then Some(b.body.value.contentType)
           else HeaderOf(b.parameters, args, name)
  {
    DraftQuery(b.parameters, args, Draft(b.path, [], map[]));
    DraftHeader(b.parameters, args, Draft(b.path, [], map[]), name);
  }

  // ---- The path

  function PathBytes(ps: seq<Parameter>, args: map<string, Value>): map<string, seq<Byte>> {
    if ps == [] then map[]
    else
      var p, later := ps[0], PathBytes(ps[1..], args);
      if p.location.Path? && p.arg in args then later[p.wireName := Utf8(Str(args[p.arg]))] else later
  }

  lemma {:induction false} PathBytesKeys(ps: seq<Parameter>, args: map<string, Value>)
    ensures forall w :: w in PathBytes(ps, args) ==> w in WireNames(ps)
    ensures (forall p :: p in ps && p.location.Path? ==> p.arg in args) ==>
      forall w :: w in WireNames(ps) ==> w in PathBytes(ps, args)
  {
    if ps != [] {
      PathBytesKeys(ps[1..], args);
    }
  }

  lemma {:induction false} PathBytesAt(ps: seq<Parameter>, args: map<string, Value>, p: Parameter)
    requires NoDup(WireNames(ps)) && p in ps && p.location.Path? && p.arg in args
    ensures p.wireName in WireNames(ps) && p.wireName in PathBytes(ps, args)
    ensures PathBytes(ps, args)[p.wireName] == Utf8(Str(args[p.arg]))
  {
    var head := if ps[0].location.Path? then [ps[0].wireName] else [];
    NoDupTail(head, WireNames(ps[1..]));
    if ps[0] != p {
      PathBytesAt(ps[1..], args, p);
      if ps[0].location.Path? { NoDupApart(head, WireNames(ps[1..]), p.wireName); }
    }
  }

  lemma NoDupTail(a: seq<string>, b: seq<string>)
    requires NoDup(a + b)
    ensures NoDup(b)
  {
    forall i, j | 0 <= i < j < |b| ensures b[i] != b[j] {
      assert (a + b)[|a| + i] != (a + b)[|a| + j];
    }
  }

  lemma NoDupApart(a: seq<string>, b: seq<string>, x: string)
    requires NoDup(a + b) && x in b
    ensures x !in a
  {
    var j :| 0 <= j < |b| && b[j] == x;
    forall i | 0 <= i < |a| ensures a[i] != x {
      assert (a + b)[i] != (a + b)[|a| + j];
    }
  }

  lemma EncodedUpdate(values: map<string, seq<Byte>>, w: string, bytes: seq<Byte>)
    ensures Encoded(values[w := bytes]) == Encoded(values)[w := Encode(bytes)]
  {}

  /** One replacement after another comes to one substitution. */
  lemma {:induction false} LoopSubstitutes(ps: seq<Parameter>, args: map<string, Value>, d: Draft, pieces: seq<Piece>)
    requires PlaceAll(ps, args, d).Ok? && d.path == Render(pieces) && Clean(pieces)
    requires NoDup(WireNames(ps)) && forall w :: w in WireNames(ps) ==> Inert(w)
    ensures PlaceAll(ps, args, d).value.path == Substitute(pieces, Encoded(PathBytes(ps, args)))
    decreases |ps|, 0
  {
    if ps == [] {
      assert Encoded(PathBytes(ps, args)) == map[];
      SubstituteNothing(pieces);
    } else {
      var p, rest := ps[0], ps[1..];
      var head := if p.location.Path? then [p.wireName] else [];
      assert WireNames(ps) == head + WireNames(rest);
      NoDupTail(head, WireNames(rest));
      if p.location.Path? && p.arg in args {
        var w, bytes := p.wireName, Utf8(Str(args[p.arg]));
        assert w in WireNames(ps) by { assert (head + WireNames(rest))[0] == w; }
        FillStep(rest, args, Place(p, args, d), pieces, d.path, w, bytes);
        EncodedUpdate(PathBytes(rest, args), w, bytes);
      } else {
        LoopSubstitutes(rest, args, Place(p, args, d), pieces);
      }
    }
  }

  lemma {:induction false} FillStep(rest: seq<Parameter>, args: map<string, Value>, d: Draft, pieces: seq<Piece>,
                 path: string, w: string, bytes: seq<Byte>)
    requires PlaceAll(rest, args, d).Ok? && path == Render(pieces) && Clean(pieces)
    requires d.path == Text.Replace(path, Placeholder(w), Encode(bytes))
    requires NoDup([w] + WireNames(rest)) && Inert(w) && forall n :: n in WireNames(rest) ==> Inert(n)
    ensures PlaceAll(rest, args, d).value.path == Substitute(pieces, Encoded(PathBytes(rest, args))[w := Encode(bytes)])
    decreases |rest|, 1
  {
    var filled := Fill(pieces, w, Encode(bytes));
    EncodeIsInert(bytes);
    FillClean(pieces, w, Encode(bytes));
    ReplaceFills(pieces, w, Encode(bytes));
    NoDupTail([w], WireNames(rest));
    LoopSubstitutes(rest, args, d, filled);
    PathBytesKeys(rest, args);
    if w in WireNames(rest) { NoDupApart([w], WireNames(rest), w); }
    FillThenSubstitute(pieces, w, Encode(bytes), Encoded(PathBytes(rest, args)));
  }

  lemma {:induction false} HolesAreClean(pieces: seq<Piece>)
    requires Clean(pieces)
    ensures forall n :: n in Holes(pieces) ==> Inert(n)
  {
    if pieces != [] {
      assert CleanPiece(pieces[0]) && Clean(pieces[1..]);
      HolesAreClean(pieces[1..]);
    }
  }

  /** For a checked template without stray braces the path is the template with every placeholder
      filled at once by its own parameter's encoded value, and no brace is left. */
  lemma PathIsSubstitution(b: Binding, args: map<string, Value>, credential: Option<Credential>)
    requires TemplateOk(b) && Parse(b.path).Some? && Build(b, args, credential).Ok?
    ensures var path := Build(b, args, credential).value.path; var values := PathBytes(b.parameters, args);
      && path == Substitute(Parse(b.path).value, Encoded(values)) && Inert(path)
      && (forall w :: w in Holes(Parse(b.path).value) <==> w in values)
      && (forall p :: p in b.parameters && p.location.Path? ==>
            p.arg in args && p.wireName in values && values[p.wireName] == Utf8(Str(args[p.arg])))
  {
    var pieces, ps := Parse(b.path).value, b.parameters;
    FindsTheHoles(b.path);
    HolesAreClean(pieces);
    BuildsExactly(b, args, credential);
    LoopSubstitutes(ps, args, Draft(b.path, [], map[]), pieces);
    forall p | p in ps && p.location.Path? ensures p.arg in args { assert Suits(p, args); }
    PathBytesKeys(ps, args);
    forall p | p in ps && p.location.Path?
      ensures p.wireName in PathBytes(ps, args) && PathBytes(ps, args)[p.wireName] == Utf8(Str(args[p.arg]))
    {
      PathBytesAt(ps, args, p);
    }
    var values := Encoded(PathBytes(ps, args));
    forall n | n in values ensures Inert(values[n]) { EncodeIsInert(PathBytes(ps, args)[n]); }
    SubstituteInert(pieces, values);
  }

  lemma PathBytesWithin(b: Binding, c: Binding, args: map<string, Value>, w: string)
    requires NoDup(WireNames(b.parameters)) && NoDup(WireNames(c.parameters))
    requires forall p :: p in b.parameters && p.location.Path? ==> p in c.parameters && p.arg in args
    requires w in PathBytes(b.parameters, args)
    ensures w in PathBytes(c.parameters, args) && PathBytes(c.parameters, args)[w] == PathBytes(b.parameters, args)[w]
  {
    PathBytesKeys(b.parameters, args);
    WireNameHasParameter(b.parameters, w);
    var p :| p in b.parameters && p.location.Path? && p.wireName == w;
    PathBytesAt(b.parameters, args, p);
    PathBytesAt(c.parameters, args, p);
  }

  lemma PathBytesSame(b: Binding, c: Binding, args: map<string, Value>)
    requires NoDup(WireNames(b.parameters)) && NoDup(WireNames(c.parameters))
    requires forall p :: p in b.parameters <==> p in c.parameters
    requires forall p :: p in b.parameters && p.location.Path? ==> p.arg in args
    ensures PathBytes(b.parameters, args) == PathBytes(c.parameters, args)
  {
    var here, there := PathBytes(b.parameters, args), PathBytes(c.parameters, args);
    forall w | w in here ensures w in there && there[w] == here[w] { PathBytesWithin(b, c, args, w); }
    forall w | w in there ensures w in here { PathBytesWithin(c, b, args, w); }
  }

  /** The order in which the parameters are listed does not reach the path. */
  lemma OrderDoesNotMatter(b: Binding, c: Binding, args: map<string, Value>, credential: Option<Credential>)
    requires TemplateOk(b) && TemplateOk(c) && Parse(b.path).Some? && Build(b, args, credential).Ok?
    requires b.path == c.path && b.body == c.body && multiset(b.parameters) == multiset(c.parameters)
    ensures Build(c, args, credential).Ok?
      && Build(c, args, credential).value.path == Build(b, args, credential).value.path
  {
    forall p ensures p in b.parameters <==> p in c.parameters {
      assert p in multiset(b.parameters) <==> p in multiset(c.parameters);
    }
    assert Build(c, args, credential).Ok? by {
      BuildsExactly(b, args, credential);
      BuildsExactly(c, args, credential);
    }
    PathIsSubstitution(b, args, credential);
    PathIsSubstitution(c, args, credential);
    PathBytesSame(b, c, args);
  }

  lemma {:induction false} WireNameHasParameter(ps: seq<Parameter>, w: string)
    requires w in WireNames(ps)
    ensures exists p :: p in ps && p.location.Path? && p.wireName == w
  {
    if ps[0].location.Path? && ps[0].wireName == w {
      assert ps[0] in ps;
    } else {
      WireNameHasParameter(ps[1..], w);
      var p :| p in ps[1..] && p.location.Path? && p.wireName == w;
      assert p in ps;
    }
  }

  lemma {:induction false} PathPiecesClean(segments: seq<Segment>)
    requires |segments| > 0 && forall i :: 0 <= i < |segments| ==> SegmentOk(segments[i])
    ensures Clean(PathPieces(segments))
    ensures forall i :: 0 <= i < |segments| && segments[i].Param? ==> segments[i].name in Holes(PathPieces(segments))
  {
    assert SegmentOk(segments[0]);
    if segments[0].Literal? { CharsClean(segments[0].text); }
    if |segments| > 1 {
      var rest := [Char('/')] + PathPieces(segments[1..]);
      PathPiecesClean(segments[1..]);
      HolesConcat(SegmentPieces(segments[0]), rest);
      HolesConcat([Char('/')], PathPieces(segments[1..]));
      forall i | 0 <= i < |segments| && segments[i].Param? ensures segments[i].name in Holes(PathPieces(segments)) {
        if i > 0 { assert segments[1..][i - 1] == segments[i]; }
      }
    }
  }

  lemma {:induction false} HolesConcat(a: seq<Piece>, b: seq<Piece>)
    ensures Holes(a + b) == Holes(a) + Holes(b)
  {
    if a == [] {
      assert a + b == b;
    } else {
      assert (a + b)[1..] == a[1..] + b;
      HolesConcat(a[1..], b);
    }
  }

  /** The text a path segment stands for. */
  function SegmentText(part: string): Option<string> {
    match Decode(part) case Some(bytes) => FromUtf8(bytes) case None => None
  }

  /** When placeholders are whole segments, the server that splits the path at slashes and
      percent-decodes each part reads every literal and every caller's argument as it was given. */
  lemma ArgumentsComeBack(b: Binding, segments: seq<Segment>, args: map<string, Value>, credential: Option<Credential>)
    requires |segments| > 0 && forall i :: 0 <= i < |segments| ==> SegmentOk(segments[i])
    requires b.path == Render(PathPieces(segments)) && TemplateOk(b) && Build(b, args, credential).Ok?
    ensures var parts := Text.Split(Build(b, args, credential).value.path, '/');
      |parts| == |segments| && forall i :: 0 <= i < |segments| ==>
        match segments[i]
        case Literal(t) => parts[i] == t
        case Param(n) => exists p :: p in b.parameters && p.location.Path? && p.wireName == n && p.arg in args
                                     && SegmentText(parts[i]) == Some(Str(args[p.arg]))
  {
    var values := PathBytes(b.parameters, args);
    PathPiecesClean(segments);
    ParseRender(PathPieces(segments));
    PathIsSubstitution(b, args, credential);
    SegmentsComeBack(segments, values);
    forall i | 0 <= i < |segments| && segments[i].Param?
      ensures exists p :: p in b.parameters && p.location.Path? && p.wireName == segments[i].name && p.arg in args
                          && FromUtf8(values[segments[i].name]) == Some(Str(args[p.arg]))
    {
      PathBytesKeys(b.parameters, args);
      WireNameHasParameter(b.parameters, segments[i].name);
      var p :| p in b.parameters && p.location.Path? && p.wireName == segments[i].name;
      Utf8ComesBack(Str(args[p.arg]));
    }
  }

  // ---- Dot segments

  /** Only the texts `.` and `..` are encoded as dot segments. */
  lemma DotEncodesExactly(text: string)
    ensures DotSegments.IsDot(Encode(Utf8(text))) <==> DotSegments.IsDot(text)
  {
    if DotSegments.IsDot(text) {
      DotsAreUnreserved();
    } else if DotSegments.IsDot(Encode(Utf8(text))) {
      DotsAreUnreserved();
      EncodeDecodes(Utf8(text));
      Utf8ComesBack(text);
      var dots := Encode(Utf8(text));
      EncodeDecodes(Utf8(dots));
      Utf8ComesBack(dots);
    }
  }

  lemma DotsAreUnreserved()
    ensures Encode(Utf8(".")) == "." && Encode(Utf8("..")) == ".."
  {
    var dot := '.' as int as Byte;
    assert Utf8Char('.' as int) == [dot] && EncodeByte(dot) == ".";
    assert "."[1..] == "" && ".."[1..] == ".";
    assert Utf8(".") == [dot] + [] == [dot];
    assert Utf8("..") == [dot] + [dot];
    assert ([dot] + [dot])[1..] == [dot] && [dot][1..] == [];
    assert Encode([dot]) == "." + "" == ".";
  }

  lemma {:induction false} HolesAreSegments(segments: seq<Segment>)
    requires |segments| > 0
    ensures forall n :: n in Holes(PathPieces(segments)) ==> Param(n) in segments
  {
    SegmentHoles(segments[0]);
    if |segments| > 1 {
      HolesAreSegments(segments[1..]);
      HolesConcat(SegmentPieces(segments[0]), [Char('/')] + PathPieces(segments[1..]));
      HolesConcat([Char('/')], PathPieces(segments[1..]));
      assert Holes([Char('/')]) == [];
      assert forall s :: s in segments[1..] ==> s in segments;
    }
  }

  lemma SegmentHoles(s: Segment)
    ensures forall n :: n in Holes(SegmentPieces(s)) ==> s == Param(n)
  {
    match s
    case Literal(t) => CharsHaveNoHoles(t);
    case Param(n) => assert Holes([Hole(n)]) == [n];
  }

  lemma {:induction false} CharsHaveNoHoles(s: string)
    ensures Holes(Chars(s)) == []
  {
    if s != "" { CharsHaveNoHoles(s[1..]); }
  }

  /** The filled segments hold no dot segment exactly when no path argument is one. */
  lemma DotArgumentsExactly(b: Binding, segments: seq<Segment>, args: map<string, Value>)
    requires |segments| > 0 && Parse(b.path) == Some(PathPieces(segments)) && TemplateOk(b)
    requires forall i :: 0 <= i < |segments| && segments[i].Literal? ==> !DotSegments.IsDot(segments[i].text)
    requires forall p :: p in b.parameters && p.location.Path? ==>
      p.arg in args && p.wireName in PathBytes(b.parameters, args)
      && PathBytes(b.parameters, args)[p.wireName] == Utf8(Str(args[p.arg]))
    requires forall i :: 0 <= i < |segments| && segments[i].Param? ==> segments[i].name in PathBytes(b.parameters, args)
    ensures DotSegments.NoDots(Filled(segments, PathBytes(b.parameters, args))) <==> NoDotArguments(b, args)
  {
    var filled := Filled(segments, PathBytes(b.parameters, args));
    forall p | p in b.parameters && p.location.Path?
      ensures exists i :: 0 <= i < |segments| && segments[i] == Param(p.wireName)
      ensures DotSegments.IsDot(Encode(Utf8(Str(args[p.arg])))) <==> DotSegments.IsDot(Str(args[p.arg]))
    {
      ParameterSegment(b, segments, p);
      DotEncodesExactly(Str(args[p.arg]));
    }
    if NoDotArguments(b, args) {
      forall i | 0 <= i < |segments| ensures !DotSegments.IsDot(filled[i]) {
        if segments[i].Param? {
          PathBytesKeys(b.parameters, args);
          WireNameHasParameter(b.parameters, segments[i].name);
        }
      }
    } else {
      var p :| p in b.parameters && p.location.Path? && p.arg in args && DotSegments.IsDot(Str(args[p.arg]));
      var i :| 0 <= i < |segments| && segments[i] == Param(p.wireName);
      assert DotSegments.IsDot(filled[i]);
    }
  }

  ghost predicate NoDotArguments(b: Binding, args: map<string, Value>) {
    forall p :: p in b.parameters && p.location.Path? && p.arg in args ==> !DotSegments.IsDot(Str(args[p.arg]))
  }

  /** Removing dot segments from a built path leaves every segment in place exactly when no path argument
      is `.` or `..`: those two pass the encoding unchanged. */
  lemma SegmentsStayExactly(b: Binding, segments: seq<Segment>, args: map<string, Value>,
          credential: Option<Credential>)
    requires |segments| > 0 && forall i :: 0 <= i < |segments| ==> SegmentOk(segments[i])
    requires forall i :: 0 <= i < |segments| && segments[i].Literal? ==> !DotSegments.IsDot(segments[i].text)
    requires b.path == Render(PathPieces(segments)) && TemplateOk(b) && Build(b, args, credential).Ok?
    ensures var path := Build(b, args, credential).value.path;
      DotSegments.RemoveDots(path, "") == path <==> NoDotArguments(b, args)
  {
    var path, values := Build(b, args, credential).value.path, PathBytes(b.parameters, args);
    PathPiecesClean(segments);
    ParseRender(PathPieces(segments));
    PathIsSubstitution(b, args, credential);
    assert DotSegments.RemoveDots(path, "") == path <==> DotSegments.NoDots(Filled(segments, values)) by {
      PathIsJoined(segments, values);
      DotSegments.StaysExactly(path, "");
      assert "" + path == path;
    }
    DotArgumentsExactly(b, segments, args);
  }

  lemma ParameterSegment(b: Binding, segments: seq<Segment>, p: Parameter)
    requires |segments| > 0 && Parse(b.path) == Some(PathPieces(segments)) && TemplateOk(b)
    requires p in b.parameters && p.location.Path?
    ensures Param(p.wireName) in segments
  {
    FindsTheHoles(b.path);
    HolesAreSegments(segments);
    ParameterHasWireName(b.parameters, p);
  }

  lemma {:induction false} ParameterHasWireName(ps: seq<Parameter>, p: Parameter)
    requires p in ps && p.location.Path?
    ensures p.wireName in WireNames(ps)
  {
    if ps[0] != p { ParameterHasWireName(ps[1..], p); }
  }
}
