/** What the server is given of each argument, read off the request itself. */
module RequestValues {
  import opened Wrappers
  import opened Bindings
  import opened Requests
  import opened RequestTheorems
  import PathTheorems
  import Text
  import UrlTemplate
  import Urls

  /** The values a query has under a name, in order. */
  function ReadUnder(pairs: seq<(string, string)>, name: string): seq<string> {
    if pairs == [] then []
    else (if pairs[0].0 == name then [pairs[0].1] else []) + ReadUnder(pairs[1..], name)
  }

  lemma {:induction false} ReadConcat(a: seq<(string, string)>, b: seq<(string, string)>, name: string)
    ensures ReadUnder(a + b, name) == ReadUnder(a, name) + ReadUnder(b, name)
  {
    if a == [] {
      assert a + b == b;
    } else {
      var first, rest := if a[0].0 == name then [a[0].1] else [], a[1..];
      assert (a + b)[0] == a[0] && (a + b)[1..] == rest + b;
      ReadConcat(rest, b, name);
      assert first + (ReadUnder(rest, name) + ReadUnder(b, name)) == first + ReadUnder(rest, name) + ReadUnder(b, name);
    }
  }

  lemma {:induction false} ReadAllNamed(pairs: seq<(string, string)>, name: string, items: seq<string>, under: string)
    requires |pairs| == |items| && forall i :: 0 <= i < |items| ==> pairs[i] == (name, items[i])
    ensures ReadUnder(pairs, under) == if under == name then items else []
  {
    if items != [] {
      ReadAllNamed(pairs[1..], name, items[1..], under);
      assert [items[0]] + items[1..] == items;
    }
  }

  /** The argument is given and goes to the query under that name. */
  ghost predicate AskedUnder(p: Parameter, args: map<string, Value>, name: string) {
    p.location.Query? && p.arg in args && p.wireName == name
  }

  lemma {:induction false} ReadNone(ps: seq<Parameter>, args: map<string, Value>, name: string)
    requires forall p :: p in ps ==> !AskedUnder(p, args, name)
    ensures ReadUnder(QueryOf(ps, args), name) == []
  {
    if ps != [] {
      var p := ps[0];
      assert !AskedUnder(p, args, name);
      ReadNone(ps[1..], args, name);
      ReadConcat(QueryPart(p, args), QueryOf(ps[1..], args), name);
      ReadPart(p, args, name);
    }
  }

  /** What one parameter adds under a name. */
  lemma ReadPart(p: Parameter, args: map<string, Value>, name: string)
    ensures !AskedUnder(p, args, name) ==> ReadUnder(QueryPart(p, args), name) == []
    ensures AskedUnder(p, args, name) ==> Holds(args[p.arg], p.explode, ReadUnder(QueryPart(p, args), name))
  {
    if p.location.Query? && p.arg in args {
      var pairs := QueryPart(p, args);
      match args[p.arg]
      case Items(items, shown) =>
        QueryListExactly(p.wireName, items, shown);
        ReadAllNamed(pairs, p.wireName, if p.explode then items else [pairs[0].1], name);
      case _ => ReadAllNamed(pairs, p.wireName, [pairs[0].1], name);
    }
  }

  /** The values are those of the argument: a text or a truth value once, an exploded list item by item,
      any other list as one text that splits into the items when none holds a comma. */
  ghost predicate Holds(v: Value, explode: bool, values: seq<string>) {
    match v
    case Scalar(text) => values == [text]
    case Truth(b) => values == [if b then "true" else "false"]
    case Items(items, _) =>
      if explode then values == items else |values| == 1 && (Splittable(items) ==> Text.Split(values[0], ',') == items)
  }

  ghost predicate Splittable(items: seq<string>) {
    items != [] && forall i :: 0 <= i < |items| ==> ',' !in items[i]
  }

  lemma {:induction false} ReadOne(ps: seq<Parameter>, args: map<string, Value>, k: nat)
    requires k < |ps| && AskedUnder(ps[k], args, ps[k].wireName)
    requires forall i :: 0 <= i < |ps| && i != k ==> !AskedUnder(ps[i], args, ps[k].wireName)
    ensures Holds(args[ps[k].arg], ps[k].explode, ReadUnder(QueryOf(ps, args), ps[k].wireName))
  {
    var name := ps[k].wireName;
    ReadConcat(QueryPart(ps[0], args), QueryOf(ps[1..], args), name);
    ReadPart(ps[0], args, name);
    if k == 0 {
      forall p | p in ps[1..] ensures !AskedUnder(p, args, name) {
        var i :| 0 <= i < |ps[1..]| && ps[1..][i] == p;
        assert ps[i + 1] == p;
      }
      ReadNone(ps[1..], args, name);
      assert ReadUnder(QueryPart(ps[0], args), name) + [] == ReadUnder(QueryPart(ps[0], args), name);
    } else {
      assert !AskedUnder(ps[0], args, name);
      assert [] + ReadUnder(QueryOf(ps[1..], args), name) == ReadUnder(QueryOf(ps[1..], args), name);
      ReadOne(ps[1..], args, k - 1);
    }
  }

  /** The only supplied query argument of its name. */
  ghost predicate Alone(ps: seq<Parameter>, args: map<string, Value>, k: nat)
    requires k < |ps|
  {
    && AskedUnder(ps[k], args, ps[k].wireName)
    && forall i :: 0 <= i < |ps| && i != k ==> !AskedUnder(ps[i], args, ps[k].wireName)
  }

  /** A supplied query argument is read back under its wire name and no other name is read, when no two
      supplied ones share a name. */
  lemma QueryValues(b: Binding, args: map<string, Value>, credential: Option<Credential>, k: nat, other: string)
    requires Build(b, args, credential).Ok? && k < |b.parameters| && Alone(b.parameters, args, k)
    ensures var query, p := Build(b, args, credential).value.query, b.parameters[k];
      && Holds(args[p.arg], p.explode, ReadUnder(query, p.wireName))
      && ((forall q :: q in b.parameters ==> !AskedUnder(q, args, other)) ==> ReadUnder(query, other) == [])
  {
    QueryAndHeaders(b, args, credential, "");
    ReadOne(b.parameters, args, k);
    if forall q :: q in b.parameters ==> !AskedUnder(q, args, other) { ReadNone(b.parameters, args, other); }
  }

  /** No parameter behind the `k`-th puts another value under its header name. */
  ghost predicate LastHeader(ps: seq<Parameter>, args: map<string, Value>, k: nat)
    requires k < |ps|
  {
    && ps[k].location.Header? && ps[k].arg in args
    && forall i :: k < i < |ps| && ps[i].location.Header? && ps[i].arg in args ==> ps[i].wireName != ps[k].wireName
  }

  lemma {:induction false} HeaderNone(ps: seq<Parameter>, args: map<string, Value>, name: string)
    requires forall i :: 0 <= i < |ps| && ps[i].location.Header? && ps[i].arg in args ==> ps[i].wireName != name
    ensures HeaderOf(ps, args, name).None?
  {
    if ps != [] { HeaderNone(ps[1..], args, name); }
  }

  lemma {:induction false} HeaderLast(ps: seq<Parameter>, args: map<string, Value>, k: nat)
    requires k < |ps| && LastHeader(ps, args, k)
    ensures HeaderOf(ps, args, ps[k].wireName) == Some(Str(args[ps[k].arg]))
  {
    if k == 0 {
      HeaderNone(ps[1..], args, ps[0].wireName);
    } else {
      HeaderLast(ps[1..], args, k - 1);
    }
  }

  /** The text of an argument outside the query. */
  ghost predicate Reads(v: Value, text: string) {
    match v
    case Scalar(t) => text == t
    case Truth(b) => text == if b then "True" else "False"
    case Items(_, shown) => text == shown
  }

  /** A header argument is sent as its text, unless the credential or the content type has its name. */
  lemma HeaderValues(b: Binding, args: map<string, Value>, credential: Option<Credential>, k: nat)
    requires Build(b, args, credential).Ok? && k < |b.parameters| && LastHeader(b.parameters, args, k)
    requires credential.Some? ==> credential.value.header != b.parameters[k].wireName
    requires b.body.Some? ==> b.parameters[k].wireName != "Content-Type"
    ensures var headers, p := Build(b, args, credential).value.headers, b.parameters[k];
      p.wireName in headers && Reads(args[p.arg], headers[p.wireName])
  {
    QueryAndHeaders(b, args, credential, b.parameters[k].wireName);
    HeaderLast(b.parameters, args, k);
  }

  /** The segment holds the argument of a path parameter of that name. */
  ghost predicate SegmentHolds(b: Binding, args: map<string, Value>, name: string, part: string) {
    exists p :: p in b.parameters && p.location.Path? && p.wireName == name && p.arg in args
                && SegmentText(part).Some? && Reads(args[p.arg], SegmentText(part).value)
  }

  /** A path argument is read from its segment as its text. */
  lemma PathValues(b: Binding, segments: seq<UrlTemplate.Segment>, args: map<string, Value>,
          credential: Option<Credential>, i: nat)
    requires |segments| > 0 && forall i :: 0 <= i < |segments| ==> UrlTemplate.SegmentOk(segments[i])
    requires b.path == UrlTemplate.Render(UrlTemplate.PathPieces(segments)) && TemplateOk(b)
    requires Build(b, args, credential).Ok? && i < |segments| && segments[i].Param?
    ensures var parts := Text.Split(Build(b, args, credential).value.path, '/');
      |parts| == |segments| && SegmentHolds(b, args, segments[i].name, parts[i])
  {
    ArgumentsComeBack(b, segments, args, credential);
    var part := Text.Split(Build(b, args, credential).value.path, '/')[i];
    var p :| p in b.parameters && p.location.Path? && p.wireName == segments[i].name && p.arg in args
      && SegmentText(part) == Some(Str(args[p.arg]));
    StrReads(args[p.arg]);
  }

  lemma StrReads(v: Value)
    ensures Reads(v, Str(v))
  {}

  /** From that query text each supplied query argument is read under its wire name. */
  ghost predicate ReadsAll(b: Binding, args: map<string, Value>, text: string) {
    Urls.ParseQuery(text).Some? && HoldAll(b, args, Urls.ParseQuery(text).value)
  }

  ghost predicate HoldAll(b: Binding, args: map<string, Value>, pairs: seq<(string, string)>) {
    forall k :: 0 <= k < |b.parameters| && Alone(b.parameters, args, k) ==>
      Holds(args[b.parameters[k].arg], b.parameters[k].explode, ReadUnder(pairs, b.parameters[k].wireName))
  }

  lemma PairsHoldAll(b: Binding, args: map<string, Value>, credential: Option<Credential>)
    requires Build(b, args, credential).Ok?
    ensures HoldAll(b, args, Build(b, args, credential).value.query)
  {
    forall k | 0 <= k < |b.parameters| && Alone(b.parameters, args, k)
      ensures Holds(args[b.parameters[k].arg], b.parameters[k].explode,
                    ReadUnder(Build(b, args, credential).value.query, b.parameters[k].wireName))
    {
      QueryValues(b, args, credential, k, "");
    }
  }

  /** What is sent: the binding's method, the headers and the body that were built and, when template and
      base address have no question mark, a URL from which the server reads each query argument. */
  lemma SentAsAsked(b: Binding, baseUrl: string, args: map<string, Value>, credential: Option<Credential>)
    requires TemplateOk(b) && UrlTemplate.Parse(b.path).Some? && Build(b, args, credential).Ok?
    requires '?' !in baseUrl && UrlTemplate.Char('?') !in UrlTemplate.Parse(b.path).value
    ensures var request := Build(b, args, credential).value; var sent := Prepare(baseUrl, request);
      && sent.httpMethod == b.httpMethod && sent.headers == request.headers && sent.body == request.body
      && (request.query == [] ==> sent.url == Urls.JoinUrl(baseUrl, request.path))
      && (request.query != [] ==> ReadsAll(b, args, Text.Partition(sent.url, '?').1))
  {
    var request := Build(b, args, credential).value;
    QueryAndHeaders(b, args, credential, "");
    if request.query != [] {
      PathTheorems.BuiltUrlComesBack(b, baseUrl, args, credential);
      PairsHoldAll(b, args, credential);
    }
  }
}
