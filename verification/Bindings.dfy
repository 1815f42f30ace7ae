/** Argument names and the tool schema of an HTTP binding. */
module Bindings {
  import opened Wrappers
  import UrlTemplate

  datatype Location = Path | Query | Header

  function LocationText(l: Location): string {
    match l case Path => "path" case Query => "query" case Header => "header"
  }

  /** A JSON schema that is handed on unread. */
  type Schema = string

  datatype Parameter =
    Parameter(arg: string, location: Location, wireName: string, required: bool, schema: Schema, explode: bool)

  datatype Body =
    Body(contentType: string, singleArg: bool, isObject: bool,
         properties: map<string, Schema>, required: seq<string>, schema: Schema)

  datatype Binding = Binding(httpMethod: string, path: string, parameters: seq<Parameter>, body: Option<Body>)

  datatype FlattenError =
    | ContentType
    | RepeatedPlaceholder
    | OptionalPath(arg: string)
    | SharedWireName(wireName: string)
    | Unfilled
    | Unplaced
    | ArgCollision(arg: string)
    | BodyCollision

  const BODY_ARG := "body"

  /** The body's properties are lifted to the top level instead of staying one argument. */
  predicate Lifted(body: Body) {
    !body.singleArg && body.isObject
  }

  function BodyNames(b: Binding): set<string> {
    match b.body
    case None => {}
    case Some(body) => if Lifted(body) then body.properties.Keys else {BODY_ARG}
  }

  predicate ContentOk(b: Binding) {
    b.body.Some? ==> b.body.value.contentType == "application/json"
  }

  function Args(ps: seq<Parameter>): (args: seq<string>)
    ensures |args| == |ps| && forall i :: 0 <= i < |ps| ==> args[i] == ps[i].arg
  {
    seq(|ps|, i requires 0 <= i < |ps| => ps[i].arg)
  }

  // ---- The path template

  /** Wire names of the path parameters, in order. */
  function WireNames(ps: seq<Parameter>): seq<string> {
    if ps == [] then []
    else (if ps[0].location.Path? then [ps[0].wireName] else []) + WireNames(ps[1..])
  }

  /** Placeholders and path parameters correspond one to one and none may be omitted. */
  ghost predicate TemplateOk(b: Binding) {
    var holes := UrlTemplate.FindAll(b.path);
    && NoDup(holes) && NoDup(WireNames(b.parameters))
    && (forall p :: p in b.parameters && p.location.Path? ==> p.required)
    && (forall w :: w in holes <==> w in WireNames(b.parameters))
  }

  lemma {:induction false} WireNamesSnoc(ps: seq<Parameter>, p: Parameter)
    ensures WireNames(ps + [p]) == WireNames(ps) + if p.location.Path? then [p.wireName] else []
  {
    if ps == [] {
      assert ps + [p] == [p];
    } else {
      assert (ps + [p])[1..] == ps[1..] + [p];
      WireNamesSnoc(ps[1..], p);
    }
  }

  lemma {:induction false} WireNamesPrefix(ps: seq<Parameter>, n: nat)
    requires n <= |ps|
    ensures WireNames(ps[..n]) <= WireNames(ps)
    decreases |ps| - n
  {
    if n == |ps| {
      assert ps[..n] == ps;
    } else {
      assert ps[..n + 1] == ps[..n] + [ps[n]];
      WireNamesSnoc(ps[..n], ps[n]);
      WireNamesPrefix(ps, n + 1);
    }
  }

  lemma DupInPrefix(short: seq<string>, long: seq<string>)
    requires short <= long && !NoDup(short)
    ensures !NoDup(long)
  {
    var i, j :| 0 <= i < j < |short| && short[i] == short[j];
    assert long[i] == short[i] && long[j] == short[j];
  }

  method HasRepeat(names: seq<string>) returns (repeated: bool)
    ensures repeated <==> !NoDup(names)
  {
    var seen: set<string> := {};
    for i := 0 to |names|
      invariant NoDup(names[..i]) && forall n :: n in seen <==> n in names[..i]
    {
      if names[i] in seen {
        var k :| 0 <= k < i && names[k] == names[i];
        return true;
      }
      seen := seen + {names[i]};
    }
    assert names[..|names|] == names;
    return false;
  }

  /** The first loop of the check: every path parameter required, no wire name shared. */
  method DeclaredWireNames(ps: seq<Parameter>) returns (r: Result<set<string>, FlattenError>)
    ensures r.Ok? <==> NoDup(WireNames(ps)) && forall p :: p in ps && p.location.Path? ==> p.required
    ensures r.Ok? ==> forall w :: w in r.value <==> w in WireNames(ps)
    ensures r.Err? ==>
      (r.error.OptionalPath? && exists p :: p in ps && p.location.Path? && !p.required && p.arg == r.error.arg) ||
      (r.error.SharedWireName? && !NoDup(WireNames(ps)))
  {
    var declared: set<string> := {};
    for i := 0 to |ps|
      invariant NoDup(WireNames(ps[..i]))
      invariant forall w :: w in declared <==> w in WireNames(ps[..i])
      invariant forall k :: 0 <= k < i && ps[k].location.Path? ==> ps[k].required
    {
      var p := ps[i];
      ghost var before := WireNames(ps[..i]);
      assert WireNames(ps[..i + 1]) == before + if p.location.Path? then [p.wireName] else [] by {
        assert ps[..i + 1] == ps[..i] + [p];
        WireNamesSnoc(ps[..i], p);
      }
      if p.location.Path? {
        if !p.required { return Err(OptionalPath(p.arg)); }
        if p.wireName in declared {
          ghost var k :| 0 <= k < |before| && before[k] == p.wireName;
          assert (before + [p.wireName])[k] == (before + [p.wireName])[|before|];
          WireNamesPrefix(ps, i + 1);
          DupInPrefix(WireNames(ps[..i + 1]), WireNames(ps));
          return Err(SharedWireName(p.wireName));
        }
        declared := declared + {p.wireName};
      }
    }
    assert ps[..|ps|] == ps;
    return Ok(declared);
  }

  /** Accepts exactly the bindings whose placeholders and path parameters correspond. */
  method CheckPathTemplate(b: Binding) returns (r: Option<FlattenError>)
    ensures r.None? <==> TemplateOk(b)
    ensures r == Some(RepeatedPlaceholder) ==> !NoDup(UrlTemplate.FindAll(b.path))
    ensures r == Some(Unfilled) ==> exists w :: w in UrlTemplate.FindAll(b.path) && w !in WireNames(b.parameters)
    ensures r == Some(Unplaced) ==> exists w :: w in WireNames(b.parameters) && w !in UrlTemplate.FindAll(b.path)
    ensures r.Some? && r.value.OptionalPath? ==>
      exists p :: p in b.parameters && p.location.Path? && !p.required && p.arg == r.value.arg
    ensures r.Some? && r.value.SharedWireName? ==> !NoDup(WireNames(b.parameters))
  {
    var placeholders := UrlTemplate.FindAll(b.path);
    var repeated := HasRepeat(placeholders);
    if repeated { return Some(RepeatedPlaceholder); }
    var declared := DeclaredWireNames(b.parameters);
    if declared.Err? { return Some(declared.error); }
    if exists w :: w in placeholders && w !in declared.value { return Some(Unfilled); }
    if exists w :: w in declared.value && w !in placeholders { return Some(Unplaced); }
    return None;
  }

  // ---- Argument names

  function Uses(b: Binding, name: string): nat {
    multiset(Args(b.parameters))[name] + if name in BodyNames(b) then 1 else 0
  }

  function Prefixed(p: Parameter): string {
    LocationText(p.location) + "_" + p.arg
  }

  function NewArg(b: Binding, p: Parameter): string {
    if Uses(b, p.arg) > 1 then Prefixed(p) else p.arg
  }

  function Renamed(b: Binding): (ps: seq<Parameter>)
    ensures |ps| == |b.parameters|
  {
    seq(|b.parameters|, i requires 0 <= i < |b.parameters| => b.parameters[i].(arg := NewArg(b, b.parameters[i])))
  }

  ghost predicate Distinct(b: Binding) {
    NoDup(Args(b.parameters)) && forall p :: p in b.parameters ==> p.arg !in BodyNames(b)
  }

  /** The binding after renaming, if that leaves every name distinct. */
  ghost function Resolve(b: Binding): Option<Binding> {
    var r := b.(parameters := Renamed(b));
    if ContentOk(b) && Distinct(r) then Some(r) else None
  }

  method CountArgs(ps: seq<Parameter>) returns (counts: map<string, nat>)
    ensures forall n :: n in counts <==> n in multiset(Args(ps))
    ensures forall n :: n in counts ==> counts[n] == multiset(Args(ps))[n]
  {
    ghost var args := Args(ps);
    counts := map[];
    for i := 0 to |ps|
      invariant forall n :: n in counts <==> n in multiset(args[..i])
      invariant forall n :: n in counts ==> counts[n] == multiset(args[..i])[n]
    {
      assert args[..i + 1] == args[..i] + [ps[i].arg];
      counts := counts[ps[i].arg := (if ps[i].arg in counts then counts[ps[i].arg] else 0) + 1];
    }
    assert args[..|ps|] == args;
  }

  method CountUses(b: Binding) returns (counts: map<string, nat>)
    ensures forall n :: n in counts <==> Uses(b, n) > 0
    ensures forall n :: n in counts ==> counts[n] == Uses(b, n)
  {
    var ofArgs := CountArgs(b.parameters);
    ghost var args := multiset(Args(b.parameters));
    counts := ofArgs;
    var names := BodyNames(b);
    var left := names;
    while left != {}
      invariant left <= names
      invariant forall n :: n in left ==> (n in counts <==> n in ofArgs) && (n in counts ==> counts[n] == ofArgs[n])
      invariant forall n :: n !in left ==> (n in counts <==> n in args || n in names)
      invariant forall n :: n in counts && n !in left ==> counts[n] == args[n] + if n in names then 1 else 0
    {
      var name :| name in left;
      counts := counts[name := (if name in counts then counts[name] else 0) + 1];
      left := left - {name};
    }
  }

  method Rename(b: Binding, counts: map<string, nat>) returns (renamed: seq<Parameter>)
    requires forall p :: p in b.parameters ==> p.arg in counts && counts[p.arg] == Uses(b, p.arg)
    ensures renamed == Renamed(b)
  {
    renamed := [];
    for i := 0 to |b.parameters|
      invariant renamed == Renamed(b)[..i]
    {
      var p := b.parameters[i];
      var arg := if counts[p.arg] > 1 then LocationText(p.location) + "_" + p.arg else p.arg;
      renamed := renamed + [p.(arg := arg)];
    }
  }

  /** The first name that two parameters share after renaming, or a name shared with the body. */
  method FindCollision(r: Binding) returns (e: Option<FlattenError>)
    ensures e.None? <==> Distinct(r)
    ensures e.Some? ==> e.value.ArgCollision? || e.value.BodyCollision?
    ensures e.Some? && e.value.ArgCollision? ==> multiset(Args(r.parameters))[e.value.arg] > 1
    ensures e == Some(BodyCollision) ==> NoDup(Args(r.parameters))
  {
    var ps, args := r.parameters, Args(r.parameters);
    var seen: set<string> := {};
    for i := 0 to |ps|
      invariant NoDup(args[..i]) && forall n :: n in seen <==> n in args[..i]
    {
      if ps[i].arg in seen {
        ghost var k :| 0 <= k < i && args[k] == args[i];
        TwiceMeansRepeated(args, ps[i].arg);
        return Some(ArgCollision(ps[i].arg));
      }
      seen := seen + {ps[i].arg};
    }
    assert args[..|ps|] == args;
    if name :| name in BodyNames(r) && name in seen {
      ghost var k :| 0 <= k < |ps| && args[k] == name;
      assert ps[k] in ps;
      return Some(BodyCollision);
    }
    forall p | p in ps ensures p.arg !in BodyNames(r) {
      ghost var k :| 0 <= k < |ps| && ps[k] == p;
      assert args[k] in seen;
    }
    return None;
  }

  method ResolveArgNames(b: Binding) returns (r: Result<Binding, FlattenError>)
    ensures (if r.Ok? then Some(r.value) else None) == Resolve(b)
    ensures r == Err(ContentType) <==> !ContentOk(b)
  {
    if b.body.Some? && b.body.value.contentType != "application/json" { return Err(ContentType); }
    var counts := CountUses(b);
    forall p | p in b.parameters ensures Uses(b, p.arg) > 0 {
      var k :| 0 <= k < |b.parameters| && b.parameters[k] == p;
      assert Args(b.parameters)[k] == p.arg;
    }
    var renamed := Rename(b, counts);
    var collision := FindCollision(b.(parameters := renamed));
    if collision.Some? { return Err(collision.value); }
    return Ok(b.(parameters := renamed));
  }

  // ---- What renaming achieves

  lemma ResolveKeeps(b: Binding)
    requires Resolve(b).Some?
    ensures var r := Resolve(b).value;
      && r == b.(parameters := r.parameters) && Distinct(r) && |r.parameters| == |b.parameters|
      && forall i :: 0 <= i < |b.parameters| ==>
           && r.parameters[i] == b.parameters[i].(arg := r.parameters[i].arg)
           && (r.parameters[i].arg == b.parameters[i].arg || r.parameters[i].arg == Prefixed(b.parameters[i]))
  {}

  lemma DistinctUses(b: Binding, p: Parameter)
    requires Distinct(b) && p in b.parameters
    ensures Uses(b, p.arg) == 1
  {
    TwiceMeansRepeated(Args(b.parameters), p.arg);
    var i :| 0 <= i < |b.parameters| && b.parameters[i] == p;
    assert Args(b.parameters)[i] == p.arg;
  }

  /** The bindings that renaming leaves alone are exactly those with distinct names. */
  lemma ResolveFixpoints(b: Binding)
    ensures Resolve(b) == Some(b) <==> ContentOk(b) && Distinct(b)
  {
    if Distinct(b) {
      forall i | 0 <= i < |b.parameters| ensures Renamed(b)[i] == b.parameters[i] {
        DistinctUses(b, b.parameters[i]);
      }
      assert b.(parameters := Renamed(b)) == b by { assert Renamed(b) == b.parameters; }
    }
  }

  lemma ResolveIdempotent(b: Binding)
    requires Resolve(b).Some?
    ensures Resolve(Resolve(b).value) == Resolve(b)
  {
    ResolveFixpoints(Resolve(b).value);
  }

  lemma PrefixesDiffer(p: Parameter, q: Parameter)
    requires Prefixed(p) == Prefixed(q)
    ensures p.location == q.location && p.arg == q.arg
  {
    assert Prefixed(p)[0] == LocationText(p.location)[0] && Prefixed(q)[0] == LocationText(q.location)[0];
    var n := |LocationText(p.location)| + 1;
    assert Prefixed(p)[n..] == p.arg && Prefixed(q)[n..] == q.arg;
  }

  ghost predicate Contested(b: Binding, p: Parameter) {
    || p.arg in BodyNames(b)
    || exists i, j :: 0 <= i < j < |b.parameters| && b.parameters[i].arg == p.arg == b.parameters[j].arg
  }

  /** No name is used twice at one location, and no prefixed name meets a name that kept its own. */
  ghost predicate Resolvable(b: Binding) {
    var ps := b.parameters;
    && (forall i, j :: 0 <= i < j < |ps| && ps[i].arg == ps[j].arg ==> ps[i].location != ps[j].location)
    && (forall p, q :: p in ps && q in ps && Contested(b, p) && !Contested(b, q) ==> Prefixed(p) != q.arg)
    && (forall p :: p in ps && Contested(b, p) ==> Prefixed(p) !in BodyNames(b))
  }

  lemma ContestedMeansTwice(b: Binding, p: Parameter)
    requires p in b.parameters
    ensures Contested(b, p) <==> Uses(b, p.arg) > 1
  {
    var args := Args(b.parameters);
    TwiceMeansRepeated(args, p.arg);
    var k :| 0 <= k < |b.parameters| && b.parameters[k] == p;
    assert args[k] == p.arg;
    if i, j :| 0 <= i < j < |args| && args[i] == p.arg == args[j] {
      assert b.parameters[i].arg == p.arg == b.parameters[j].arg;
    }
    if i, j :| 0 <= i < j < |b.parameters| && b.parameters[i].arg == p.arg == b.parameters[j].arg {
      assert args[i] == p.arg == args[j];
    }
  }

  /** Another parameter has the name, or the body takes it: as one of the properties of an object body
      whose properties are lifted, or as the name `body` of any other. */
  ghost predicate Taken(b: Binding, i: nat)
    requires i < |b.parameters|
  {
    var name := b.parameters[i].arg;
    || (exists j :: 0 <= j < |b.parameters| && j != i && b.parameters[j].arg == name)
    || (b.body.Some? && if !b.body.value.singleArg && b.body.value.isObject then name in b.body.value.properties
                        else name == "body")
  }

  lemma TakenMeansTwice(b: Binding, i: nat)
    requires i < |b.parameters|
    ensures Taken(b, i) <==> Uses(b, b.parameters[i].arg) > 1
  {
    var args, name := Args(b.parameters), b.parameters[i].arg;
    TwiceMeansRepeated(args, name);
    assert args[i] == name;
    if j :| 0 <= j < |args| && j != i && args[j] == name {
      assert if i < j then args[i] == name == args[j] else args[j] == name == args[i];
    }
    if j, k :| 0 <= j < k < |args| && args[j] == name == args[k] {
      assert (j != i && b.parameters[j].arg == name) || (k != i && b.parameters[k].arg == name);
    }
  }

  /** A name is changed exactly when it is taken, into itself behind its location; and only a JSON body
      passes. */
  lemma RenamesExactly(b: Binding, i: nat)
    requires Resolve(b).Some? && i < |b.parameters|
    ensures var p := b.parameters[i]; var place := if p.location.Path? then "path_" else
        if p.location.Query? then "query_" else "header_";
      Resolve(b).value.parameters[i].arg == if Taken(b, i) then place + p.arg else p.arg
    ensures b.body.Some? ==> b.body.value.contentType == "application/json"
  {
    TakenMeansTwice(b, i);
    var p := b.parameters[i];
    assert "path" + "_" == "path_" && "query" + "_" == "query_" && "header" + "_" == "header_";
  }

  /** Two parameters get one name exactly when they shared name and location, or one that was
      prefixed runs into one that was not. */
  lemma NewArgsMeet(b: Binding, p: Parameter, q: Parameter)
    requires p in b.parameters && q in b.parameters
    ensures NewArg(b, p) == NewArg(b, q) <==>
      || (p.arg == q.arg && (Contested(b, p) ==> p.location == q.location))
      || (Contested(b, p) && !Contested(b, q) && Prefixed(p) == q.arg)
      || (Contested(b, q) && !Contested(b, p) && Prefixed(q) == p.arg)
  {
    ContestedMeansTwice(b, p);
    ContestedMeansTwice(b, q);
    if Contested(b, p) && Contested(b, q) && NewArg(b, p) == NewArg(b, q) { PrefixesDiffer(p, q); }
    if p.arg == q.arg { assert Contested(b, p) <==> Contested(b, q); }
  }

  /** Renaming succeeds exactly on the resolvable bindings. */
  lemma ResolvesExactly(b: Binding)
    ensures Resolve(b).Some? <==>
      (b.body.Some? ==> b.body.value.contentType == "application/json") && Resolvable(b)
  {
    if Resolvable(b) { ResolvableIsDistinct(b); }
    if Distinct(b.(parameters := Renamed(b))) { DistinctIsResolvable(b); }
  }

  lemma ResolvableIsDistinct(b: Binding)
    requires Resolvable(b)
    ensures Distinct(b.(parameters := Renamed(b)))
  {
    var r, ps := b.(parameters := Renamed(b)), b.parameters;
    forall i, j | 0 <= i < j < |ps| ensures Args(r.parameters)[i] != Args(r.parameters)[j] {
      NewArgsMeet(b, ps[i], ps[j]);
      if ps[i].arg == ps[j].arg { assert Contested(b, ps[i]); }
    }
    forall i | 0 <= i < |ps| ensures r.parameters[i].arg !in BodyNames(b) {
      ContestedMeansTwice(b, ps[i]);
    }
  }

  lemma DistinctIsResolvable(b: Binding)
    requires Distinct(b.(parameters := Renamed(b)))
    ensures Resolvable(b)
  {
    var r, ps := b.(parameters := Renamed(b)), b.parameters;
    var args := Args(r.parameters);
    forall i, j | 0 <= i < j < |ps| && ps[i].arg == ps[j].arg ensures ps[i].location != ps[j].location {
      assert args[i] != args[j];
      NewArgsMeet(b, ps[i], ps[j]);
    }
    forall p, q | p in ps && q in ps && Contested(b, p) && !Contested(b, q) ensures Prefixed(p) != q.arg {
      var i :| 0 <= i < |ps| && ps[i] == p;
      var j :| 0 <= j < |ps| && ps[j] == q;
      assert i != j && args[i] == NewArg(b, p) && args[j] == NewArg(b, q);
      NewArgsMeet(b, p, q);
    }
    forall p | p in ps && Contested(b, p) ensures Prefixed(p) !in BodyNames(b) {
      var i :| 0 <= i < |ps| && ps[i] == p;
      ContestedMeansTwice(b, p);
      assert r.parameters[i] in r.parameters && r.parameters[i].arg == Prefixed(p);
    }
  }

  // ---- The tool's input schema

  datatype InputSchema = InputSchema(properties: map<string, Schema>, required: seq<string>)

  function ParameterSchemas(ps: seq<Parameter>): map<string, Schema> {
    if ps == [] then map[]
    else ParameterSchemas(ps[..|ps| - 1])[ps[|ps| - 1].arg := ps[|ps| - 1].schema]
  }

  function RequiredArgs(ps: seq<Parameter>): seq<string> {
    if ps == [] then []
    else RequiredArgs(ps[..|ps| - 1]) + if ps[|ps| - 1].required then [ps[|ps| - 1].arg] else []
  }

  function BodySchemas(body: Option<Body>): map<string, Schema> {
    match body
    case None => map[]
    case Some(body) => if Lifted(body) then body.properties else map[BODY_ARG := body.schema]
  }

  function BodyRequired(body: Option<Body>): seq<string> {
    match body
    case None => []
    case Some(body) => if Lifted(body) then body.required else [BODY_ARG]
  }

  /** The schema of a binding whose names are resolved. */
  function SchemaOf(r: Binding): InputSchema {
    InputSchema(ParameterSchemas(r.parameters) + BodySchemas(r.body), RequiredArgs(r.parameters) + BodyRequired(r.body))
  }

  method CollectParameters(ps: seq<Parameter>) returns (properties: map<string, Schema>, required: seq<string>)
    ensures properties == ParameterSchemas(ps) && required == RequiredArgs(ps)
  {
    properties, required := map[], [];
    for i := 0 to |ps|
      invariant properties == ParameterSchemas(ps[..i]) && required == RequiredArgs(ps[..i])
    {
      assert ps[..i + 1][..i] == ps[..i];
      properties := properties[ps[i].arg := ps[i].schema];
      if ps[i].required { required := required + [ps[i].arg]; }
    }
    assert ps[..|ps|] == ps;
  }

  method MergeBody(body: Option<Body>, ps: map<string, Schema>, rs: seq<string>)
    returns (properties: map<string, Schema>, required: seq<string>)
    ensures properties == ps + BodySchemas(body) && required == rs + BodyRequired(body)
  {
    properties, required := ps, rs;
    if body.Some? {
      if Lifted(body.value) {
        properties, required := ps + body.value.properties, rs + body.value.required;
      } else {
        properties, required := ps[BODY_ARG := body.value.schema], rs + [BODY_ARG];
      }
    }
  }

  method BuildInputSchema(b: Binding) returns (s: Result<InputSchema, FlattenError>)
    ensures s.Ok? <==> Resolve(b).Some?
    ensures s.Ok? ==> s.value == SchemaOf(Resolve(b).value)
  {
    var resolved := ResolveArgNames(b);
    if resolved.Err? { return Err(resolved.error); }
    var properties, required := CollectParameters(resolved.value.parameters);
    properties, required := MergeBody(resolved.value.body, properties, required);
    return Ok(InputSchema(properties, required));
  }

  lemma {:induction false} ParameterSchemasAt(ps: seq<Parameter>, k: nat)
    requires NoDup(Args(ps)) && k < |ps|
    ensures ps[k].arg in ParameterSchemas(ps) && ParameterSchemas(ps)[ps[k].arg] == ps[k].schema
  {
    var n := |ps| - 1;
    if k < n {
      assert Args(ps[..n]) == Args(ps)[..n];
      assert Args(ps)[k] != Args(ps)[n];
      ParameterSchemasAt(ps[..n], k);
    }
  }

  lemma {:induction false} ParameterSchemasKeys(ps: seq<Parameter>)
    ensures forall n :: n in ParameterSchemas(ps) <==> n in Args(ps)
  {
    if ps != [] {
      ParameterSchemasKeys(ps[..|ps| - 1]);
      assert Args(ps) == Args(ps[..|ps| - 1]) + [ps[|ps| - 1].arg];
    }
  }

  lemma {:induction false} RequiredArgsAre(ps: seq<Parameter>)
    ensures forall n :: n in RequiredArgs(ps) <==> exists p :: p in ps && p.required && p.arg == n
  {
    if ps != [] {
      var front, last := ps[..|ps| - 1], ps[|ps| - 1];
      RequiredArgsAre(front);
      assert ps == front + [last];
      forall n ensures n in RequiredArgs(ps) <==> exists p :: p in ps && p.required && p.arg == n {
        if n in RequiredArgs(front) {
          var p :| p in front && p.required && p.arg == n;
          assert p in ps;
        } else if n in RequiredArgs(ps) {
          assert last in ps;
        }
      }
    }
  }

  /** Nothing is lost or overwritten: the schema's names are the parameters' and the body's, which
      do not meet, and each keeps its own schema. */
  lemma SchemaCarriesEverything(b: Binding)
    requires Resolve(b).Some?
    ensures var r := Resolve(b).value; var s := SchemaOf(r);
      && (forall n :: n in s.properties <==> n in Args(r.parameters) || n in BodyNames(r))
      && (forall p :: p in r.parameters ==> p.arg in s.properties && s.properties[p.arg] == p.schema)
      && (forall n :: n in BodySchemas(r.body) ==> s.properties[n] == BodySchemas(r.body)[n])
      && (forall n :: n in s.required <==>
        (exists p :: p in r.parameters && p.required && p.arg == n) || n in BodyRequired(r.body))
  {
    var r := Resolve(b).value;
    ParameterSchemasKeys(r.parameters);
    RequiredArgsAre(r.parameters);
    forall p | p in r.parameters ensures ParameterSchemas(r.parameters)[p.arg] == p.schema {
      var k :| 0 <= k < |r.parameters| && r.parameters[k] == p;
      ParameterSchemasAt(r.parameters, k);
    }
    forall p | p in r.parameters ensures p.arg in Args(r.parameters) && p.arg !in BodySchemas(r.body) {
      var k :| 0 <= k < |r.parameters| && r.parameters[k] == p;
      assert Args(r.parameters)[k] == p.arg;
    }
  }

  /** An object body whose properties are lifted gives the tool its own properties and requires its own
      required names; any other is the one required property `body`. */
  lemma BodyInSchema(b: Binding)
    requires Resolve(b).Some? && b.body.Some?
    ensures var s, body, ps := SchemaOf(Resolve(b).value), b.body.value, Resolve(b).value.parameters;
      if !body.singleArg && body.isObject then
        && (forall n :: n in body.properties ==> n in s.properties && s.properties[n] == body.properties[n])
        && (forall n :: n in s.properties ==> n in body.properties || exists p :: p in ps && p.arg == n)
        && (forall n :: n in body.required ==> n in s.required)
        && (forall n :: n in s.required ==> n in body.required || exists p :: p in ps && p.required && p.arg == n)
      else
        "body" in s.properties && s.properties["body"] == body.schema && "body" in s.required
  {
    SchemaCarriesEverything(b);
    var ps := Resolve(b).value.parameters;
    forall n | n in Args(ps) ensures exists p :: p in ps && p.arg == n {
      var k :| 0 <= k < |ps| && Args(ps)[k] == n;
      assert ps[k] in ps;
    }
  }
}
