/** Building one HTTP request from a binding and a caller's arguments. */
module Requests {
  import opened Wrappers
  import opened Bindings
  import Text
  import UrlTemplate
  import Urls

  /** An argument as `str` shows it: a scalar's text, a truth value, or a list with its items' texts. */
  datatype Value = Scalar(text: string) | Truth(b: bool) | Items(items: seq<string>, shown: string)

  function Str(v: Value): string {
    match v
    case Scalar(text) => text
    case Truth(b) => if b then "True" else "False"
    case Items(_, shown) => shown
  }

  datatype BuildError = Missing(arg: string) | EmptyPath(arg: string) | BadHeader(name: string)

  datatype Content = Single(value: Value) | Fields(fields: map<string, Value>)

  datatype Credential = Credential(header: string, value: string)

  datatype Request =
    Request(httpMethod: string, path: string, query: seq<(string, string)>,
      headers: map<string, string>, body: Option<Content>)

  /** The part of the request that the parameter loop builds. */
  datatype Draft = Draft(path: string, query: seq<(string, string)>, headers: map<string, string>)

  function EncodePathValue(v: Value): string {
    UrlTemplate.Encode(UrlTemplate.Utf8(Str(v)))
  }

  function QueryPairs(name: string, v: Value, explode: bool): seq<(string, string)> {
    match v
    case Items(items, _) =>
      if explode then seq(|items|, i requires 0 <= i < |items| => (name, items[i]))
      else [(name, if items == [] then "" else Text.Join(items, ','))]
    case Truth(b) => [(name, if b then "true" else "false")]
    case Scalar(text) => [(name, text)]
  }

  predicate HasLineBreak(s: string) {
    '\r' in s || '\n' in s
  }

  /** Why one supplied argument cannot be placed. */
  function Objection(p: Parameter, args: map<string, Value>): Option<BuildError> {
    if p.arg !in args then if p.required then Some(Missing(p.arg)) else None
    else if p.location.Path? && Str(args[p.arg]) == "" then Some(EmptyPath(p.arg))
    else if p.location.Header? && HasLineBreak(Str(args[p.arg])) then Some(BadHeader(p.wireName))
    else None
  }

  function Place(p: Parameter, args: map<string, Value>, d: Draft): Draft {
    if p.arg !in args then d
    else match p.location
      case Path => d.(path := Text.Replace(d.path, UrlTemplate.Placeholder(p.wireName), EncodePathValue(args[p.arg])))
      case Query => d.(query := d.query + QueryPairs(p.wireName, args[p.arg], p.explode))
      case Header => d.(headers := d.headers[p.wireName := Str(args[p.arg])])
  }

  function PlaceAll(ps: seq<Parameter>, args: map<string, Value>, d: Draft): Result<Draft, BuildError> {
    if ps == [] then Ok(d)
    else match Objection(ps[0], args)
      case Some(e) => Err(e)
      case None => PlaceAll(ps[1..], args, Place(ps[0], args, d))
  }

  function FirstMissing(names: seq<string>, has: set<string>): Option<BuildError> {
    if names == [] then None
    else if names[0] !in has then Some(Missing(names[0]))
    else FirstMissing(names[1..], has)
  }

  function BuildBody(body: Body, args: map<string, Value>): Result<Content, BuildError> {
    if !Lifted(body) then
      if BODY_ARG in args then Ok(Single(args[BODY_ARG])) else Err(Missing(BODY_ARG))
    else
      var fields := map k | k in args && k in body.properties :: args[k];
      match FirstMissing(body.required, fields.Keys)
      case Some(e) => Err(e)
      case None => Ok(Fields(fields))
  }

  function Build(b: Binding, args: map<string, Value>, credential: Option<Credential>): Result<Request, BuildError> {
    match PlaceAll(b.parameters, args, Draft(b.path, [], map[]))
    case Err(e) => Err(e)
    case Ok(d) =>
      match b.body
      case None => Ok(Request(b.httpMethod, d.path, d.query, Attach(d.headers, credential), None))
      case Some(body) =>
        match BuildBody(body, args)
        case Err(e) => Err(e)
        case Ok(content) =>
          var headers := d.headers["Content-Type" := body.contentType];
          Ok(Request(b.httpMethod, d.path, d.query, Attach(headers, credential), Some(content)))
  }

  function Attach(headers: map<string, string>, credential: Option<Credential>): map<string, string> {
    match credential case None => headers case Some(c) => headers[c.header := c.value]
  }

  method FillDraft(ps: seq<Parameter>, template: string, args: map<string, Value>)
    returns (r: Result<Draft, BuildError>)
    ensures r == PlaceAll(ps, args, Draft(template, [], map[]))
  {
    var path, query, headers := template, [], map[];
    for i := 0 to |ps|
      invariant PlaceAll(ps, args, Draft(template, [], map[])) == PlaceAll(ps[i..], args, Draft(path, query, headers))
    {
      var p := ps[i];
      assert ps[i..][0] == p && ps[i..][1..] == ps[i + 1..];
      if p.arg !in args {
        if p.required { return Err(Missing(p.arg)); }
        continue;
      }
      var value := args[p.arg];
      match p.location {
        case Path =>
          if Str(value) == "" { return Err(EmptyPath(p.arg)); }
          path := Text.Replace(path, "{" + p.wireName + "}", EncodePathValue(value));
        case Query =>
          query := query + QueryPairs(p.wireName, value, p.explode);
        case Header =>
          if HasLineBreak(Str(value)) { return Err(BadHeader(p.wireName)); }
          headers := headers[p.wireName := Str(value)];
      }
    }
    return Ok(Draft(path, query, headers));
  }

  method CheckRequired(names: seq<string>, has: set<string>) returns (e: Option<BuildError>)
    ensures e == FirstMissing(names, has)
  {
    for i := 0 to |names|
      invariant FirstMissing(names, has) == FirstMissing(names[i..], has)
    {
      assert names[i..][1..] == names[i + 1..];
      if names[i] !in has { return Some(Missing(names[i])); }
    }
    return None;
  }

  datatype Prepared = Prepared(httpMethod: string, url: string, headers: map<string, string>, body: Option<Content>)

  /** The request as it is sent. */
  function Prepare(baseUrl: string, r: Request): Prepared {
    Prepared(r.httpMethod, Urls.Url(baseUrl, r.path, r.query), r.headers, r.body)
  }

  method BuildRequest(b: Binding, baseUrl: string, args: map<string, Value>, credential: Option<Credential>)
    returns (r: Result<Prepared, BuildError>)
    ensures match Build(b, args, credential)
      case Ok(request) => r == Ok(Prepare(baseUrl, request))
      case Err(e) => r == Err(e)
  {
    var draft := FillDraft(b.parameters, b.path, args);
    if draft.Err? { return Err(draft.error); }
    var headers, content := draft.value.headers, None;
    if b.body.Some? {
      var body := b.body.value;
      if body.singleArg || !body.isObject {
        if "body" !in args { return Err(Missing("body")); }
        content := Some(Single(args["body"]));
      } else {
        var fields := map k | k in args && k in body.properties :: args[k];
        var missing := CheckRequired(body.required, fields.Keys);
        if missing.Some? { return Err(missing.value); }
        content := Some(Fields(fields));
      }
      headers := headers["Content-Type" := body.contentType];
    }
    var url := Urls.JoinUrl(baseUrl, draft.value.path);
    if draft.value.query != [] { url := url + "?" + Urls.UrlEncode(draft.value.query); }
    if credential.Some? {
      headers := headers[credential.value.header := credential.value.value];
    }
    return Ok(Prepared(b.httpMethod, url, headers, content));
  }
}
