/** Conversion of OpenAPI 3.0 schemas to JSON Schema 2020-12, and the two validators it relates. */
module Dialect {
  import opened Ordering

  /** JSON with objects as finite maps: no rule below depends on the order of members. */
  datatype Json =
    | Null
    | Bool(b: bool)
    | Num(n: real)
    | Str(s: string)
    | Arr(items: seq<Json>)
    | Obj(members: map<string, Json>)

  predicate IsFlag(key: string) {
    key == "nullable" || key == "exclusiveMinimum" || key == "exclusiveMaximum"
  }

  predicate Keeps(key: string, value: Json) {
    key != "example" && !(IsFlag(key) && value.Bool?)
  }

  predicate Set(m: map<string, Json>, flag: string) {
    flag in m && m[flag] == Bool(true)
  }

  // ---- `sorted({*types, "null"})`

  function Itself(name: string): string {
    name
  }

  function SortedNames(types: seq<Json>): seq<string> {
    if types == [] then ["null"]
    else
      var rest := SortedNames(types[1..]);
      if types[0].Str? && types[0].s !in rest then InsertBy(Itself, types[0].s, rest) else rest
  }

  function Named(names: seq<string>): Json {
    Arr(seq(|names|, i requires 0 <= i < |names| => Str(names[i])))
  }

  function Types(base: Json): seq<Json> {
    if base.Arr? then base.items else [base]
  }

  // ---- `convert_30_schema`

  const NullSchema := Obj(map["type" := Str("null")])

  /** Adds null to a converted schema that was nullable. */
  function Widen(m: map<string, Json>, out: map<string, Json>): map<string, Json> {
    if !Set(m, "nullable") then out
    else if "type" in out then out["type" := Named(SortedNames(Types(out["type"])))]
    else map["anyOf" := Arr([Obj(out), NullSchema])]
  }

  function MoveBound(m: map<string, Json>, out: map<string, Json>, bound: string, exclusive: string)
    : map<string, Json>
  {
    if Set(m, exclusive) && bound in out then (out - {bound})[exclusive := out[bound]] else out
  }

  /** The members of a converted schema before null is added and bounds are moved. */
  function Base(s: Json): map<string, Json>
    requires s.Obj?
    decreases s, 0
  {
    var m := s.members;
    var kept := map k | k in m && Keeps(k, m[k]) :: Convert(m[k]);
    if "example" in m then kept["examples" := Arr([Convert(m["example"])])] else kept
  }

  function Convert(s: Json): Json
    decreases s, 1
  {
    match s
    case Arr(items) => Arr(seq(|items|, i requires 0 <= i < |items| => Convert(items[i])))
    case Obj(m) =>
      Obj(MoveBound(m, MoveBound(m, Widen(m, Base(s)), "minimum", "exclusiveMinimum"), "maximum", "exclusiveMaximum"))
    case _ => s
  }

  /** The source's loop over the members, then its edits of the finished dictionary. A dictionary
      is read with `example` last, so that its value wins over an `examples` beside it. */
  method ConvertSchema(schema: Json) returns (r: Json)
    ensures r == Convert(schema)
    decreases schema, 1
  {
    match schema {
      case Arr(items) =>
        var list: seq<Json> := [];
        for i := 0 to |items|
          invariant |list| == i && forall j :: 0 <= j < i ==> list[j] == Convert(items[j])
        {
          var item := ConvertSchema(items[i]);
          list := list + [item];
        }
        assert list == Convert(schema).items;
        r := Arr(list);
      case Obj(m) =>
        var out := ConvertMembers(schema);
        if Set(m, "nullable") {
          if "type" in out {
            out := out["type" := Named(SortedNames(Types(out["type"])))];
          } else {
            out := map["anyOf" := Arr([Obj(out), NullSchema])];
          }
        }
        if Set(m, "exclusiveMinimum") && "minimum" in out {
          var bound := out["minimum"];
          out := (out - {"minimum"})["exclusiveMinimum" := bound];
        }
        if Set(m, "exclusiveMaximum") && "maximum" in out {
          var bound := out["maximum"];
          out := (out - {"maximum"})["exclusiveMaximum" := bound];
        }
        r := Obj(out);
      case _ =>
        r := schema;
    }
  }

  method ConvertMembers(schema: Json) returns (out: map<string, Json>)
    requires schema.Obj?
    ensures out == Base(schema)
    decreases schema, 0
  {
    var m := schema.members;
    out := map[];
    var todo := m.Keys - {"example"};
    while todo != {}
      invariant todo <= m.Keys - {"example"}
      invariant out == map k | k in m && k !in todo && Keeps(k, m[k]) :: Convert(m[k])
      decreases todo
    {
      var key :| key in todo;
      todo := todo - {key};
      if !(IsFlag(key) && m[key].Bool?) {
        var value := ConvertSchema(m[key]);
        out := out[key := value];
      }
    }
    if "example" in m {
      var example := ConvertSchema(m["example"]);
      out := out["examples" := Arr([example])];
    }
  }

  // ---- What a schema accepts, in either dialect.

  datatype Dialect = OpenApi30 | Draft2020

  predicate HasType(t: string, v: Json) {
    match t
    case "null" => v.Null?
    case "boolean" => v.Bool?
    case "number" => v.Num?
    case "integer" => v.Num? && v.n.Floor as real == v.n
    case "string" => v.Str?
    case "array" => v.Arr?
    case "object" => v.Obj?
    case _ => false
  }

  ghost predicate TypeOk(t: Json, v: Json) {
    match t
    case Str(name) => HasType(name, v)
    case Arr(names) => exists i :: 0 <= i < |names| && names[i].Str? && HasType(names[i].s, v)
    case _ => true
  }

  /** In 3.0, `nullable` widens the type beside it. */
  ghost predicate TypeClause(d: Dialect, m: map<string, Json>, v: Json) {
    "type" in m ==> TypeOk(m["type"], v) || (d.OpenApi30? && Set(m, "nullable") && v.Null?)
  }

  predicate Above(m: map<string, Json>, key: string, n: real, strictly: bool) {
    key in m && m[key].Num? ==> m[key].n < n || (!strictly && m[key].n == n)
  }

  predicate Under(m: map<string, Json>, key: string, n: real, strictly: bool) {
    key in m && m[key].Num? ==> n < m[key].n || (!strictly && m[key].n == n)
  }

  /** In 3.0 the exclusive keywords are flags on the bounds; in 2020-12 they are bounds. */
  predicate Bounds(d: Dialect, m: map<string, Json>, v: Json) {
    v.Num? ==>
      match d
      case OpenApi30 =>
        Above(m, "minimum", v.n, Set(m, "exclusiveMinimum")) && Under(m, "maximum", v.n, Set(m, "exclusiveMaximum"))
      case Draft2020 =>
        && Above(m, "minimum", v.n, false) && Above(m, "exclusiveMinimum", v.n, true)
        && Under(m, "maximum", v.n, false) && Under(m, "exclusiveMaximum", v.n, true)
  }

  predicate EnumOk(m: map<string, Json>, v: Json) {
    "enum" in m && m["enum"].Arr? ==> v in m["enum"].items
  }

  predicate RequiredOk(m: map<string, Json>, v: Json) {
    "required" in m && m["required"].Arr? && v.Obj? ==>
      forall name :: name in m["required"].items && name.Str? ==> name.s in v.members
  }

  ghost predicate PropertiesOk(d: Dialect, s: Json, v: Json)
    requires s.Obj?
    decreases s, 0
  {
    var m := s.members;
    "properties" in m && m["properties"].Obj? && v.Obj? ==>
      forall k :: k in m["properties"].members && k in v.members ==>
        Accepts(d, m["properties"].members[k], v.members[k])
  }

  ghost predicate ItemsOk(d: Dialect, s: Json, v: Json)
    requires s.Obj?
    decreases s, 0
  {
    var m := s.members;
    "items" in m && v.Arr? ==> forall i :: 0 <= i < |v.items| ==> Accepts(d, m["items"], v.items[i])
  }

  ghost predicate AllAccept(d: Dialect, schemas: seq<Json>, v: Json)
    decreases schemas, 0
  {
    forall i :: 0 <= i < |schemas| ==> Accepts(d, schemas[i], v)
  }

  ghost predicate SomeAccepts(d: Dialect, schemas: seq<Json>, v: Json)
    decreases schemas, 0
  {
    exists i :: 0 <= i < |schemas| && Accepts(d, schemas[i], v)
  }

  ghost predicate OneAccepts(d: Dialect, schemas: seq<Json>, v: Json)
    decreases schemas, 0
  {
    exists i :: 0 <= i < |schemas| && Accepts(d, schemas[i], v) &&
      forall j :: 0 <= j < |schemas| && j != i ==> !Accepts(d, schemas[j], v)
  }

  ghost predicate CombinatorsOk(d: Dialect, s: Json, v: Json)
    requires s.Obj?
    decreases s, 0
  {
    var m := s.members;
    && ("allOf" in m && m["allOf"].Arr? ==> AllAccept(d, m["allOf"].items, v))
    && ("anyOf" in m && m["anyOf"].Arr? ==> SomeAccepts(d, m["anyOf"].items, v))
    && ("oneOf" in m && m["oneOf"].Arr? ==> OneAccepts(d, m["oneOf"].items, v))
  }

  ghost predicate NotOk(d: Dialect, s: Json, v: Json)
    requires s.Obj?
    decreases s, 0
  {
    var m := s.members;
    "not" in m ==> !Accepts(d, m["not"], v)
  }

  ghost predicate Keywords(d: Dialect, s: Json, v: Json)
    requires s.Obj?
    decreases s, 1
  {
    var m := s.members;
    && TypeClause(d, m, v) && Bounds(d, m, v) && EnumOk(m, v) && RequiredOk(m, v)
    && PropertiesOk(d, s, v) && ItemsOk(d, s, v)
    && CombinatorsOk(d, s, v) && NotOk(d, s, v)
  }

  /** A 3.0 schema that is nullable but has no type is read as "null or the schema". */
  ghost predicate Accepts(d: Dialect, s: Json, v: Json)
    decreases s, 2
  {
    match s
    case Bool(b) => b
    case Obj(m) => (d.OpenApi30? && Set(m, "nullable") && "type" !in m && v.Null?) || Keywords(d, s, v)
    case _ => true
  }
}
