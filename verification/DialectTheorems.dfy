/** Conversion keeps the meaning of a schema, apart from one lost flag; and when it is idempotent. */
module DialectTheorems {
  import opened Dialect
  import opened Ordering

  predicate Scalar(v: Json) { !v.Arr? && !v.Obj? }

  predicate AllScalars(j: Json) { j.Arr? && forall x :: x in j.items ==> Scalar(x) }

  predicate AllStrings(j: Json) { j.Arr? && forall x :: x in j.items ==> x.Str? }

  /** A nullable schema without a type beside which an exclusive flag has a bound to act on. */
  predicate Lossy(m: map<string, Json>) {
    && Set(m, "nullable") && "type" !in m
    && ((Set(m, "exclusiveMinimum") && "minimum" in m) || (Set(m, "exclusiveMaximum") && "maximum" in m))
  }

  /** The keyword values are of the kinds OpenAPI 3.0 gives them, here and in subschemas; no property
      is named `example`; enum values are such as conversion leaves alone; and unless `lossy`, no
      subschema is lossy. */
  predicate Formed(s: Json, lossy: bool)
    decreases s, 1
  {
    s.Bool? || (s.Obj? && FormedMembers(s, lossy) && (lossy || !Lossy(s.members)))
  }

  predicate FormedMembers(s: Json, lossy: bool)
    requires s.Obj?
    decreases s, 0
  {
    var m := s.members;
    && ("type" in m ==> m["type"].Str? || AllStrings(m["type"]))
    && (forall k :: k in m && IsFlag(k) ==> m[k].Bool?)
    && ("minimum" in m ==> m["minimum"].Num?) && ("maximum" in m ==> m["maximum"].Num?)
    && ("enum" in m ==> m["enum"].Arr? && Settled(m["enum"]))
    && ("required" in m ==> AllStrings(m["required"]))
    && ("properties" in m ==> m["properties"].Obj? && "example" !in m["properties"].members)
    && ("properties" in m ==>
          forall k :: k in m["properties"].members ==>
            m["properties"].members[k].Obj? && Formed(m["properties"].members[k], lossy))
    && ("items" in m ==> Formed(m["items"], lossy))
    && ("allOf" in m ==> m["allOf"].Arr?)
    && ("allOf" in m ==> forall i :: 0 <= i < |m["allOf"].items| ==> Formed(m["allOf"].items[i], lossy))
    && ("anyOf" in m ==> m["anyOf"].Arr?)
    && ("anyOf" in m ==> forall i :: 0 <= i < |m["anyOf"].items| ==> Formed(m["anyOf"].items[i], lossy))
    && ("oneOf" in m ==> m["oneOf"].Arr?)
    && ("oneOf" in m ==> forall i :: 0 <= i < |m["oneOf"].items| ==> Formed(m["oneOf"].items[i], lossy))
    && ("not" in m ==> Formed(m["not"], lossy))
  }

  predicate Fragment(s: Json) {
    Formed(s, false)
  }

  predicate Shaped(s: Json)
    requires s.Obj?
  {
    FormedMembers(s, false)
  }

  // ---- Types

  lemma InsertMembers(x: string, names: seq<string>)
    ensures forall y :: y in InsertBy(Itself, x, names) <==> y == x || y in names
  {
    InsertAdds(Itself, x, names);
    forall y ensures y in InsertBy(Itself, x, names) <==> y == x || y in names {
      assert y in multiset(InsertBy(Itself, x, names)) <==> y in multiset(names) + multiset{x};
    }
  }

  lemma {:induction false} SortedMembers(types: seq<Json>)
    ensures forall y :: y in SortedNames(types) <==> y == "null" || Str(y) in types
    ensures Sorted(Itself, SortedNames(types))
  {
    if types != [] {
      var rest := SortedNames(types[1..]);
      SortedMembers(types[1..]);
      if types[0].Str? && types[0].s !in rest {
        InsertMembers(types[0].s, rest);
        InsertSorts(Itself, types[0].s, rest);
      }
    }
  }

  lemma WidenedType(t: Json, v: Json)
    requires t.Str? || AllStrings(t)
    ensures Sorted(Itself, SortedNames(Types(t)))
    ensures TypeOk(Named(SortedNames(Types(t))), v) <==> TypeOk(t, v) || v.Null?
  {
    var names := SortedNames(Types(t));
    var list := Named(names);
    SortedMembers(Types(t));
    if TypeOk(list, v) {
      var i :| 0 <= i < |list.items| && HasType(list.items[i].s, v);
      assert names[i] in names;
      assert names[i] != "null" ==> Str(names[i]) in Types(t);
    }
    if v.Null? {
      assert "null" in names;
      var i :| 0 <= i < |names| && names[i] == "null";
      assert list.items[i] == Str("null") && HasType("null", v);
    }
    if TypeOk(t, v) && !v.Null? {
      var name: string :| Str(name) in Types(t) && HasType(name, v);
      assert name in names;
      var i :| 0 <= i < |names| && names[i] == name;
      assert list.items[i] == Str(name);
    }
  }

  // ---- Keywords that are converted member by member

  predicate Structural(k: string) {
    k in {"enum", "required", "properties", "items", "allOf", "anyOf", "oneOf", "not"}
  }

  /** `out` has the structural keywords of `s`, converted. */
  ghost predicate Mirrors(s: Json, out: map<string, Json>)
    requires s.Obj?
  {
    forall k :: Structural(k) ==> (k in out <==> k in s.members) && (k in out ==> out[k] == Convert(s.members[k]))
  }

  lemma BaseMirrors(s: Json)
    requires s.Obj?
    ensures Mirrors(s, Base(s))
  {}

  lemma PlainConvert(j: Json)
    requires Scalar(j) || AllScalars(j)
    ensures Convert(j) == j
  {
    if j.Arr? {
      assert forall i :: 0 <= i < |j.items| ==> j.items[i] in j.items && Convert(j.items[i]) == j.items[i];
      assert Convert(j).items == j.items;
    }
  }

  lemma FlaglessConvert(s: Json)
    requires s.Obj? && !Set(s.members, "nullable")
    requires !Set(s.members, "exclusiveMinimum") && !Set(s.members, "exclusiveMaximum")
    ensures Convert(s) == Obj(Base(s))
  {}

  lemma PropertiesBase(s: Json)
    requires s.Obj? && "example" !in s.members && forall k :: k in s.members ==> s.members[k].Obj?
    ensures Base(s) == map k | k in s.members :: Convert(s.members[k])
  {}

  lemma ConvertProperties(s: Json)
    requires s.Obj? && "example" !in s.members && forall k :: k in s.members ==> s.members[k].Obj?
    ensures Convert(s) == Obj(map k | k in s.members :: Convert(s.members[k]))
  {
    PropertiesBase(s);
    FlaglessConvert(s);
  }

  /** Properties whose schemas agree one by one agree as a whole. */
  lemma PropertiesFollow(s: Json, out: map<string, Json>, v: Json)
    requires s.Obj? && Mirrors(s, out) && "properties" in s.members && s.members["properties"].Obj? && v.Obj?
    requires "properties" in out && out["properties"].Obj?
      && out["properties"].members.Keys == s.members["properties"].members.Keys
    requires forall k :: k in out["properties"].members && k in v.members ==>
      (Accepts(OpenApi30, s.members["properties"].members[k], v.members[k]) <==>
         Accepts(Draft2020, out["properties"].members[k], v.members[k]))
    ensures PropertiesOk(Draft2020, Obj(out), v) <==> PropertiesOk(OpenApi30, s, v)
  {}

  lemma {:induction false} PropertiesPreserved(s: Json, out: map<string, Json>, v: Json)
    requires s.Obj? && Shaped(s) && Mirrors(s, out)
    ensures PropertiesOk(Draft2020, Obj(out), v) <==> PropertiesOk(OpenApi30, s, v)
    decreases s, 0
  {
    assert Structural("properties");
    if "properties" in s.members && v.Obj? {
      var p := s.members["properties"];
      assert "properties" in out && out["properties"] == Obj(map k | k in p.members :: Convert(p.members[k])) by {
        ConvertProperties(p);
      }
      forall k | k in p.members && k in v.members
        ensures Accepts(OpenApi30, p.members[k], v.members[k]) <==>
          Accepts(Draft2020, out["properties"].members[k], v.members[k])
      {
        Preserved(p.members[k], v.members[k]);
      }
      PropertiesFollow(s, out, v);
    }
  }

  lemma {:induction false} ItemsPreserved(s: Json, out: map<string, Json>, v: Json)
    requires s.Obj? && Shaped(s) && Mirrors(s, out)
    ensures ItemsOk(Draft2020, Obj(out), v) <==> ItemsOk(OpenApi30, s, v)
    decreases s, 0
  {
    assert Structural("items");
    if "items" in s.members && v.Arr? {
      forall i | 0 <= i < |v.items|
        ensures Accepts(OpenApi30, s.members["items"], v.items[i]) <==>
          Accepts(Draft2020, Convert(s.members["items"]), v.items[i])
      {
        Preserved(s.members["items"], v.items[i]);
      }
    }
  }

  /** Two lists whose members agree one by one, each in its own dialect. */
  ghost predicate Agree(a: seq<Json>, b: seq<Json>, v: Json) {
    |a| == |b| && forall i :: 0 <= i < |a| ==> (Accepts(OpenApi30, a[i], v) <==> Accepts(Draft2020, b[i], v))
  }

  lemma AgreeAll(a: seq<Json>, b: seq<Json>, v: Json)
    requires Agree(a, b, v)
    ensures AllAccept(Draft2020, b, v) <==> AllAccept(OpenApi30, a, v)
    ensures SomeAccepts(Draft2020, b, v) <==> SomeAccepts(OpenApi30, a, v)
  {
    if SomeAccepts(OpenApi30, a, v) {
      var i :| 0 <= i < |a| && Accepts(OpenApi30, a[i], v);
      assert Accepts(Draft2020, b[i], v);
    }
    if SomeAccepts(Draft2020, b, v) {
      var i :| 0 <= i < |b| && Accepts(Draft2020, b[i], v);
      assert Accepts(OpenApi30, a[i], v);
    }
    if AllAccept(OpenApi30, a, v) {
      forall i | 0 <= i < |b| ensures Accepts(Draft2020, b[i], v) {
        assert Accepts(OpenApi30, a[i], v);
      }
    }
    if AllAccept(Draft2020, b, v) {
      forall i | 0 <= i < |a| ensures Accepts(OpenApi30, a[i], v) {
        assert Accepts(Draft2020, b[i], v);
      }
    }
  }

  lemma AgreeOne(a: seq<Json>, b: seq<Json>, v: Json)
    requires Agree(a, b, v)
    ensures OneAccepts(Draft2020, b, v) <==> OneAccepts(OpenApi30, a, v)
  {
    if OneAccepts(OpenApi30, a, v) { OneTransfers(OpenApi30, Draft2020, a, b, v); }
    if OneAccepts(Draft2020, b, v) { OneTransfers(Draft2020, OpenApi30, b, a, v); }
  }

  lemma OneTransfers(d: Dialect, e: Dialect, a: seq<Json>, b: seq<Json>, v: Json)
    requires |a| == |b| && forall i :: 0 <= i < |a| ==> (Accepts(d, a[i], v) <==> Accepts(e, b[i], v))
    requires OneAccepts(d, a, v)
    ensures OneAccepts(e, b, v)
  {
    var i :| 0 <= i < |a| && Accepts(d, a[i], v) && forall j :: 0 <= j < |a| && j != i ==> !Accepts(d, a[j], v);
    assert Accepts(e, b[i], v);
    forall j | 0 <= j < |b| && j != i ensures !Accepts(e, b[j], v) { assert !Accepts(d, a[j], v); }
  }

  lemma {:induction false} ListPreserved(schemas: seq<Json>, v: Json)
    requires forall i :: 0 <= i < |schemas| ==> Fragment(schemas[i])
    ensures var converted := Convert(Arr(schemas)).items;
      && (AllAccept(Draft2020, converted, v) <==> AllAccept(OpenApi30, schemas, v))
      && (SomeAccepts(Draft2020, converted, v) <==> SomeAccepts(OpenApi30, schemas, v))
      && (OneAccepts(Draft2020, converted, v) <==> OneAccepts(OpenApi30, schemas, v))
    decreases schemas, 0
  {
    var converted := Convert(Arr(schemas)).items;
    assert Agree(schemas, converted, v) by {
      forall i | 0 <= i < |schemas|
        ensures Accepts(OpenApi30, schemas[i], v) <==> Accepts(Draft2020, converted[i], v)
      {
        Preserved(schemas[i], v);
      }
    }
    AgreeAll(schemas, converted, v);
    AgreeOne(schemas, converted, v);
  }

  /** Each combinator keeps its list, whose schemas are preserved. */
  lemma {:induction false} CombinatorPreserved(s: Json, out: map<string, Json>, k: string, v: Json)
    requires s.Obj? && Shaped(s) && Mirrors(s, out) && k in {"allOf", "anyOf", "oneOf"} && k in s.members
    ensures s.members[k].Arr? && k in out && out[k].Arr?
    ensures var was, now := s.members[k].items, out[k].items;
      && (AllAccept(Draft2020, now, v) <==> AllAccept(OpenApi30, was, v))
      && (SomeAccepts(Draft2020, now, v) <==> SomeAccepts(OpenApi30, was, v))
      && (OneAccepts(Draft2020, now, v) <==> OneAccepts(OpenApi30, was, v))
    decreases s, 0
  {
    assert Structural(k);
    ListPreserved(s.members[k].items, v);
  }

  lemma {:induction false} CombinatorsPreserved(s: Json, out: map<string, Json>, v: Json)
    requires s.Obj? && Shaped(s) && Mirrors(s, out)
    ensures CombinatorsOk(Draft2020, Obj(out), v) <==> CombinatorsOk(OpenApi30, s, v)
    decreases s, 1
  {
    var m := s.members;
    assert ("allOf" in out && out["allOf"].Arr? ==> AllAccept(Draft2020, out["allOf"].items, v)) <==>
           ("allOf" in m && m["allOf"].Arr? ==> AllAccept(OpenApi30, m["allOf"].items, v)) by {
      assert Structural("allOf");
      if "allOf" in m { CombinatorPreserved(s, out, "allOf", v); }
    }
    assert ("anyOf" in out && out["anyOf"].Arr? ==> SomeAccepts(Draft2020, out["anyOf"].items, v)) <==>
           ("anyOf" in m && m["anyOf"].Arr? ==> SomeAccepts(OpenApi30, m["anyOf"].items, v)) by {
      assert Structural("anyOf");
      if "anyOf" in m { CombinatorPreserved(s, out, "anyOf", v); }
    }
    assert ("oneOf" in out && out["oneOf"].Arr? ==> OneAccepts(Draft2020, out["oneOf"].items, v)) <==>
           ("oneOf" in m && m["oneOf"].Arr? ==> OneAccepts(OpenApi30, m["oneOf"].items, v)) by {
      assert Structural("oneOf");
      if "oneOf" in m { CombinatorPreserved(s, out, "oneOf", v); }
    }
  }

  lemma {:induction false} RestPreserved(s: Json, out: map<string, Json>, v: Json)
    requires s.Obj? && Shaped(s) && Mirrors(s, out)
    ensures EnumOk(out, v) <==> EnumOk(s.members, v)
    ensures RequiredOk(out, v) <==> RequiredOk(s.members, v)
    ensures NotOk(Draft2020, Obj(out), v) <==> NotOk(OpenApi30, s, v)
    decreases s, 0
  {
    var m := s.members;
    assert Structural("enum") && Structural("required") && Structural("not");
    if "enum" in m { SettledIsFixed(m["enum"]); }
    if "required" in m { PlainConvert(m["required"]); }
    if "not" in m { Preserved(m["not"], v); }
  }

  /** When type and bounds are preserved as well, so is the whole schema. */
  lemma {:induction false} KeywordsPreserved(s: Json, out: map<string, Json>, v: Json)
    requires s.Obj? && Shaped(s) && Mirrors(s, out)
    requires TypeClause(Draft2020, out, v) <==> TypeClause(OpenApi30, s.members, v)
    requires Bounds(Draft2020, out, v) <==> Bounds(OpenApi30, s.members, v)
    ensures Keywords(Draft2020, Obj(out), v) <==> Keywords(OpenApi30, s, v)
    decreases s, 2
  {
    PropertiesPreserved(s, out, v);
    ItemsPreserved(s, out, v);
    CombinatorsPreserved(s, out, v);
    RestPreserved(s, out, v);
  }

  // ---- The two shapes of a converted schema

  /** A nullable schema without a type is wrapped, and its bounds stay as they are. */
  predicate Wraps(s: Json)
    requires s.Obj?
  {
    Set(s.members, "nullable") && "type" !in s.members
  }

  lemma BaseMembers(s: Json, k: string)
    requires s.Obj? && k != "example" && k != "examples"
    ensures k in Base(s) <==> k in s.members && Keeps(k, s.members[k])
    ensures k in Base(s) ==> Base(s)[k] == Convert(s.members[k])
  {}

  lemma WrappedForm(s: Json)
    requires s.Obj? && Wraps(s)
    ensures Convert(s) == Obj(map["anyOf" := Arr([Obj(Base(s)), NullSchema])])
  {
    BaseMembers(s, "type");
  }

  lemma TypedMember(s: Json, k: string)
    requires s.Obj? && !Wraps(s) && k !in {"type", "minimum", "maximum", "exclusiveMinimum", "exclusiveMaximum"}
    ensures var out := Convert(s).members; (k in out <==> k in Base(s)) && (k in out ==> out[k] == Base(s)[k])
  {
    BaseMembers(s, "type");
  }

  lemma TypedMirrors(s: Json)
    requires s.Obj? && !Wraps(s)
    ensures Mirrors(s, Convert(s).members)
  {
    forall k | Structural(k)
      ensures var out := Convert(s).members;
        (k in out <==> k in s.members) && (k in out ==> out[k] == Convert(s.members[k]))
    {
      TypedMember(s, k);
      BaseMembers(s, k);
    }
  }

  function WithNull(nullable: bool, t: Json): Json {
    if nullable then Named(SortedNames(Types(t))) else t
  }

  lemma TypedType(s: Json)
    requires s.Obj? && !Wraps(s)
    ensures var out := Convert(s).members;
      && ("type" in out <==> "type" in s.members)
      && ("type" in out ==> out["type"] == WithNull(Set(s.members, "nullable"), Convert(s.members["type"])))
  {
    BaseMembers(s, "type");
  }

  lemma TypedTypes(s: Json, v: Json)
    requires s.Obj? && !Wraps(s) && Shaped(s)
    ensures TypeClause(Draft2020, Convert(s).members, v) <==> TypeClause(OpenApi30, s.members, v)
  {
    TypedType(s);
    if "type" in s.members {
      PlainConvert(s.members["type"]);
      WidenedType(s.members["type"], v);
    }
  }

  lemma TypedBounds(s: Json, v: Json)
    requires s.Obj? && !Wraps(s) && Shaped(s)
    ensures Bounds(Draft2020, Convert(s).members, v) <==> Bounds(OpenApi30, s.members, v)
  {
    BaseMembers(s, "type");
    BaseMembers(s, "minimum");
    BaseMembers(s, "maximum");
    BaseMembers(s, "exclusiveMinimum");
    BaseMembers(s, "exclusiveMaximum");
    assert IsFlag("exclusiveMinimum") && IsFlag("exclusiveMaximum");
  }

  lemma WrappedBounds(s: Json, v: Json)
    requires s.Obj? && Wraps(s) && Shaped(s) && !Lossy(s.members)
    ensures Bounds(Draft2020, Base(s), v) <==> Bounds(OpenApi30, s.members, v)
  {
    BaseMembers(s, "minimum");
    BaseMembers(s, "maximum");
    BaseMembers(s, "exclusiveMinimum");
    BaseMembers(s, "exclusiveMaximum");
    assert IsFlag("exclusiveMinimum") && IsFlag("exclusiveMaximum");
  }

  lemma WrappedAccepts(s: Json, v: Json)
    requires s.Obj? && Wraps(s)
    ensures Accepts(Draft2020, Convert(s), v) <==> Keywords(Draft2020, Obj(Base(s)), v) || v.Null?
  {
    WrappedForm(s);
    AcceptsNull(v);
    var options := [Obj(Base(s)), NullSchema];
    OnlyAnyOf(options, v);
    assert SomeAccepts(Draft2020, options, v) <==>
      Accepts(Draft2020, options[0], v) || Accepts(Draft2020, options[1], v);
  }

  lemma OnlyAnyOf(options: seq<Json>, v: Json)
    ensures Keywords(Draft2020, Obj(map["anyOf" := Arr(options)]), v) <==> SomeAccepts(Draft2020, options, v)
  {}

  lemma AcceptsNull(v: Json)
    ensures Accepts(Draft2020, NullSchema, v) <==> v.Null?
  {}

  /** Conversion preserves meaning: a value is accepted by the schema under the 3.0 rules exactly
      when it is accepted by the converted schema under the 2020-12 rules. */
  lemma {:induction false} Preserved(s: Json, v: Json)
    requires Fragment(s)
    ensures Accepts(OpenApi30, s, v) <==> Accepts(Draft2020, Convert(s), v)
    decreases s, 3
  {
    if s.Obj? {
      if Wraps(s) {
        WrappedPreserved(s, v);
      } else {
        TypedMirrors(s);
        TypedTypes(s, v);
        TypedBounds(s, v);
        KeywordsPreserved(s, Convert(s).members, v);
      }
    }
  }

  lemma {:induction false} WrappedPreserved(s: Json, v: Json)
    requires s.Obj? && Wraps(s) && Shaped(s) && !Lossy(s.members)
    ensures Accepts(OpenApi30, s, v) <==> Accepts(Draft2020, Convert(s), v)
    decreases s, 3, 0
  {
    BaseMirrors(s);
    WrappedBounds(s, v);
    BaseMembers(s, "type");
    KeywordsPreserved(s, Base(s), v);
    WrappedAccepts(s, v);
  }

  // ---- The flag that is lost

  function WithoutFlags(s: Json): Json
    requires s.Obj?
  {
    Obj(s.members - {"exclusiveMinimum", "exclusiveMaximum"})
  }

  /** `v` is a bound the schema excludes. */
  predicate AtExcludedBound(m: map<string, Json>, v: Json) {
    v.Num? &&
    ((Set(m, "exclusiveMinimum") && "minimum" in m && m["minimum"] == v) ||
     (Set(m, "exclusiveMaximum") && "maximum" in m && m["maximum"] == v))
  }

  lemma WithoutFlagsShaped(s: Json)
    requires s.Obj? && Shaped(s)
    ensures Fragment(WithoutFlags(s))
  {
    var m, plain := s.members, WithoutFlags(s).members;
    assert forall k :: k in plain ==> k in m && plain[k] == m[k];
    assert !Lossy(plain);
    assert Shaped(WithoutFlags(s));
  }

  lemma FlagsAreLost(s: Json)
    requires s.Obj? && Shaped(s) && Wraps(s)
    ensures Convert(s) == Convert(WithoutFlags(s))
  {
    SameBase(s);
    WrappedForm(s);
    WrappedForm(WithoutFlags(s));
  }

  lemma SameBase(s: Json)
    requires s.Obj? && Shaped(s)
    ensures Base(WithoutFlags(s)) == Base(s) && (Wraps(s) ==> Wraps(WithoutFlags(s)))
  {
    assert IsFlag("exclusiveMinimum") && IsFlag("exclusiveMaximum");
  }

  /** A lossy schema is converted as if its exclusive flags were not there: the two validators
      disagree exactly on a bound that only the flag excludes. */
  lemma LossyExactly(s: Json, v: Json)
    requires s.Obj? && Shaped(s) && Lossy(s.members)
    ensures (Accepts(OpenApi30, s, v) <==> Accepts(Draft2020, Convert(s), v)) <==>
      !(AtExcludedBound(s.members, v) && Accepts(OpenApi30, WithoutFlags(s), v))
  {
    FlagsAreLost(s);
    WithoutFlagsShaped(s);
    Preserved(WithoutFlags(s), v);
    SameApartFromBounds(s, v);
  }

  lemma BoundsWithoutFlags(s: Json, v: Json)
    requires s.Obj? && Shaped(s)
    ensures Bounds(OpenApi30, s.members, v) <==>
      Bounds(OpenApi30, WithoutFlags(s).members, v) && !AtExcludedBound(s.members, v)
  {}

  lemma StructureWithoutFlags(s: Json, v: Json)
    requires s.Obj?
    ensures var plain := WithoutFlags(s);
      && (PropertiesOk(OpenApi30, s, v) <==> PropertiesOk(OpenApi30, plain, v))
      && (ItemsOk(OpenApi30, s, v) <==> ItemsOk(OpenApi30, plain, v))
      && (CombinatorsOk(OpenApi30, s, v) <==> CombinatorsOk(OpenApi30, plain, v))
      && (NotOk(OpenApi30, s, v) <==> NotOk(OpenApi30, plain, v))
  {}

  lemma SameApartFromBounds(s: Json, v: Json)
    requires s.Obj? && Shaped(s)
    ensures Accepts(OpenApi30, s, v) <==> Accepts(OpenApi30, WithoutFlags(s), v) && !AtExcludedBound(s.members, v)
  {
    BoundsWithoutFlags(s, v);
    StructureWithoutFlags(s, v);
  }

  const LossySchema := map["nullable" := Bool(true), "minimum" := Num(5.0), "exclusiveMinimum" := Bool(true)]

  lemma FiveAccepted()
    ensures Keywords(OpenApi30, WithoutFlags(Obj(LossySchema)), Num(5.0))
  {
    assert forall k :: k in WithoutFlags(Obj(LossySchema)).members ==> k == "nullable" || k == "minimum";
  }

  /** `nullable: true, minimum: 5, exclusiveMinimum: true` rejects 5 before conversion only. */
  lemma LossyExample()
    ensures !Accepts(OpenApi30, Obj(LossySchema), Num(5.0)) && Accepts(Draft2020, Convert(Obj(LossySchema)), Num(5.0))
  {
    var s := Obj(LossySchema);
    assert Shaped(s) && Lossy(s.members) && AtExcludedBound(s.members, Num(5.0));
    FiveAccepted();
    assert Accepts(OpenApi30, WithoutFlags(s), Num(5.0));
    LossyExactly(s, Num(5.0));
    SameApartFromBounds(s, Num(5.0));
  }

  // ---- Idempotence

  /** Where `nullable` widens a type, the type is a name or a list of names; the source raises
      a TypeError on others. */
  predicate Readable(s: Json)
    decreases s
  {
    match s
    case Arr(items) => forall i :: 0 <= i < |items| ==> Readable(items[i])
    case Obj(m) =>
      && (Set(m, "nullable") && "type" in m ==> m["type"].Str? || AllStrings(m["type"]))
      && forall k :: k in m ==> Readable(m[k])
    case _ => true
  }

  /** Nothing left for a conversion to do. */
  predicate Settled(j: Json)
    decreases j
  {
    match j
    case Arr(items) => forall i :: 0 <= i < |items| ==> Settled(items[i])
    case Obj(m) =>
      && "example" !in m && (forall k :: k in m && IsFlag(k) ==> !m[k].Bool?)
      && forall k :: k in m ==> Settled(m[k])
    case _ => true
  }

  /** The members whose converted value is in the output. */
  predicate Survives(m: map<string, Json>, k: string)
    requires k in m
  {
    k == "example" || (Keeps(k, m[k]) && !(k == "examples" && "example" in m))
  }

  predicate MovesBoolHere(s: Json)
    requires s.Obj?
  {
    var m := s.members;
    !Wraps(s) &&
    ((Set(m, "exclusiveMinimum") && "minimum" in m && m["minimum"].Bool?) ||
     (Set(m, "exclusiveMaximum") && "maximum" in m && m["maximum"].Bool?))
  }

  /** Somewhere a flag turns a boolean bound into an exclusive keyword, which reads as a flag again. */
  predicate MovesBool(s: Json)
    decreases s
  {
    match s
    case Arr(items) => exists i :: 0 <= i < |items| && MovesBool(items[i])
    case Obj(m) => MovesBoolHere(s) || exists k :: k in m && Survives(m, k) && MovesBool(m[k])
    case _ => false
  }

  lemma {:induction false} SettledIsFixed(j: Json)
    requires Settled(j)
    ensures Convert(j) == j
    decreases j
  {
    match j
    case Arr(items) =>
      forall i | 0 <= i < |items| ensures Convert(items[i]) == items[i] { SettledIsFixed(items[i]); }
      assert Convert(j).items == items;
    case Obj(m) =>
      assert IsFlag("nullable") && IsFlag("exclusiveMinimum") && IsFlag("exclusiveMaximum");
      forall k | k in m ensures Convert(m[k]) == m[k] { SettledIsFixed(m[k]); }
      assert Base(j) == m;
    case _ =>
  }

  lemma {:induction false} FixedIsSettled(j: Json)
    requires Convert(j) == j
    ensures Settled(j)
    decreases j
  {
    match j
    case Arr(items) =>
      forall i | 0 <= i < |items| ensures Settled(items[i]) {
        assert Convert(j).items[i] == Convert(items[i]);
        FixedIsSettled(items[i]);
      }
    case Obj(m) =>
      FixedHasNoFlags(j);
      assert IsFlag("nullable") && IsFlag("exclusiveMinimum") && IsFlag("exclusiveMaximum");
      forall k | k in m ensures Settled(m[k]) {
        assert Convert(j) == Obj(Base(j)) && Base(j)[k] == Convert(m[k]);
        FixedIsSettled(m[k]);
      }
    case _ =>
  }

  /** A boolean flag is in the output only in place of its bound. */
  lemma FlagTakesBound(s: Json, bound: string, exclusive: string)
    requires s.Obj? && !Wraps(s)
    requires (bound, exclusive) in {("minimum", "exclusiveMinimum"), ("maximum", "exclusiveMaximum")}
    ensures var out := Convert(s).members;
      exclusive in s.members && s.members[exclusive].Bool? && exclusive in out ==> bound in s.members && bound !in out
  {
    BaseMembers(s, "type");
    BaseMembers(s, bound);
    BaseMembers(s, exclusive);
    assert IsFlag(exclusive);
  }

  lemma FixedIsUnwrapped(j: Json)
    requires j.Obj? && Convert(j) == j
    ensures !Wraps(j)
  {
    if Wraps(j) {
      WrappedForm(j);
      assert false;
    }
  }

  lemma FixedKeepsNoFlag(j: Json, bound: string, exclusive: string)
    requires j.Obj? && Convert(j) == j && !Wraps(j)
    requires (bound, exclusive) in {("minimum", "exclusiveMinimum"), ("maximum", "exclusiveMaximum")}
    ensures exclusive in j.members ==> !j.members[exclusive].Bool?
  {
    FlagTakesBound(j, bound, exclusive);
  }

  lemma FixedHasNoFlags(j: Json)
    requires j.Obj? && Convert(j) == j
    ensures "example" !in j.members && (forall k :: k in j.members && IsFlag(k) ==> !j.members[k].Bool?)
  {
    FixedIsUnwrapped(j);
    assert "example" !in j.members by { TypedMember(j, "example"); }
    assert "nullable" in j.members ==> !j.members["nullable"].Bool? by {
      TypedMember(j, "nullable");
      BaseMembers(j, "nullable");
      assert IsFlag("nullable");
    }
    FixedKeepsNoFlag(j, "minimum", "exclusiveMinimum");
    FixedKeepsNoFlag(j, "maximum", "exclusiveMaximum");
  }

  ghost predicate StableExactly(s: Json) {
    Settled(Convert(s)) <==> !MovesBool(s)
  }

  /** Where a member that survives ends up. */
  function PlaceOf(k: string): string {
    if k == "example" then "examples" else k
  }

  lemma SurvivorSettles(s: Json, k: string)
    requires s.Obj? && k in s.members && Survives(s.members, k) && StableExactly(s.members[k])
    ensures PlaceOf(k) in Base(s) && (Settled(Base(s)[PlaceOf(k)]) <==> !MovesBool(s.members[k]))
  {
    if k == "example" {
      var examples := Base(s)["examples"];
      assert Settled(examples) <==> Settled(examples.items[0]);
    }
  }

  lemma OnlySurvivors(s: Json, k: string)
    requires s.Obj? && k in Base(s)
    ensures exists j :: j in s.members && Survives(s.members, j) && PlaceOf(j) == k
    ensures IsFlag(k) ==> !Base(s)[k].Bool?
  {
    var m := s.members;
    if k == "examples" && "example" in m {
      assert Survives(m, "example") && PlaceOf("example") == k;
    } else {
      assert k in m && Survives(m, k) && PlaceOf(k) == k;
    }
  }

  lemma BaseStable(s: Json)
    requires s.Obj? && forall k :: k in s.members ==> StableExactly(s.members[k])
    ensures Settled(Obj(Base(s))) <==> forall k :: k in s.members && Survives(s.members, k) ==> !MovesBool(s.members[k])
  {
    forall k | k in s.members && Survives(s.members, k)
      ensures PlaceOf(k) in Base(s) && (Settled(Base(s)[PlaceOf(k)]) <==> !MovesBool(s.members[k]))
    {
      assert StableExactly(s.members[k]);
      SurvivorSettles(s, k);
    }
    forall k | k in Base(s)
      ensures exists j :: j in s.members && Survives(s.members, j) && PlaceOf(j) == k
      ensures IsFlag(k) ==> !Base(s)[k].Bool?
    {
      OnlySurvivors(s, k);
    }
  }

  lemma WrappedStable(s: Json)
    requires s.Obj? && Wraps(s)
    ensures Settled(Convert(s)) <==> Settled(Obj(Base(s)))
  {
    WrappedForm(s);
    var options := [Obj(Base(s)), NullSchema];
    assert Settled(Arr(options)) <==> Settled(options[0]) && Settled(options[1]);
    OneMember("anyOf", Arr(options));
    OneMember("type", Str("null"));
  }

  lemma OneMember(k: string, j: Json)
    requires k != "example" && !IsFlag(k)
    ensures Settled(Obj(map[k := j])) <==> Settled(j)
  {
    var m := map[k := j];
    assert k in m && m[k] == j;
    assert forall i :: i in m ==> i == k;
  }

  lemma MoveStable(m: map<string, Json>, out: map<string, Json>, bound: string, exclusive: string)
    requires (bound, exclusive) in {("minimum", "exclusiveMinimum"), ("maximum", "exclusiveMaximum")}
    requires Set(m, exclusive) ==> exclusive !in out
    ensures Settled(Obj(MoveBound(m, out, bound, exclusive))) <==>
      Settled(Obj(out)) && !(Set(m, exclusive) && bound in out && out[bound].Bool?)
  {
    if Set(m, exclusive) && bound in out {
      var moved := MoveBound(m, out, bound, exclusive);
      assert IsFlag(exclusive) && !IsFlag(bound) && moved[exclusive] == out[bound];
      assert forall k :: k in out && k != bound ==> k in moved && moved[k] == out[k];
      assert forall k :: k in moved && k != exclusive ==> k in out && k != bound;
    }
  }

  lemma ReplaceStable(out: map<string, Json>, k: string, j: Json)
    requires k in out && !IsFlag(k) && Settled(out[k]) && Settled(j)
    ensures Settled(Obj(out[k := j])) <==> Settled(Obj(out))
  {
    var out' := out[k := j];
    assert forall i :: i in out && i != k ==> i in out' && out'[i] == out[i];
    assert forall i :: i in out' && i != k ==> i in out;
  }

  lemma StringsSettled(j: Json)
    requires j.Str? || AllStrings(j)
    ensures Settled(j)
  {
    if j.Arr? {
      assert forall i :: 0 <= i < |j.items| ==> j.items[i] in j.items;
    }
  }

  lemma WidenStable(s: Json)
    requires s.Obj? && !Wraps(s) && Readable(s)
    ensures Settled(Obj(Widen(s.members, Base(s)))) <==> Settled(Obj(Base(s)))
  {
    BaseMembers(s, "type");
    if Set(s.members, "nullable") {
      var t := s.members["type"];
      PlainConvert(t);
      StringsSettled(t);
      StringsSettled(Named(SortedNames(Types(t))));
      ReplaceStable(Base(s), "type", Named(SortedNames(Types(t))));
    }
  }

  lemma WideMember(s: Json, k: string)
    requires s.Obj? && !Wraps(s) && k in {"minimum", "maximum", "exclusiveMinimum", "exclusiveMaximum"}
    ensures var wide := Widen(s.members, Base(s));
      && (k in wide <==> k in s.members && !(IsFlag(k) && s.members[k].Bool?))
      && (k in wide ==> (wide[k].Bool? <==> s.members[k].Bool?))
  {
    BaseMembers(s, "type");
    BaseMembers(s, k);
  }

  lemma TypedStable(s: Json)
    requires s.Obj? && !Wraps(s) && Readable(s)
    ensures Settled(Convert(s)) <==> Settled(Obj(Base(s))) && !MovesBoolHere(s)
  {
    var m := s.members;
    WideMember(s, "minimum");
    WideMember(s, "maximum");
    WideMember(s, "exclusiveMinimum");
    WideMember(s, "exclusiveMaximum");
    var wide := Widen(m, Base(s));
    WidenStable(s);
    MoveStable(m, wide, "minimum", "exclusiveMinimum");
    MoveStable(m, MoveBound(m, wide, "minimum", "exclusiveMinimum"), "maximum", "exclusiveMaximum");
  }

  /** A second conversion changes nothing exactly when no boolean bound is moved. */
  lemma {:induction false} SettlesExactly(s: Json)
    requires Readable(s)
    ensures StableExactly(s)
    decreases s
  {
    match s
    case Arr(items) =>
      forall i | 0 <= i < |items|
        ensures Settled(Convert(s).items[i]) <==> !MovesBool(items[i])
      {
        SettlesExactly(items[i]);
      }
      assert Settled(Convert(s)) <==> forall i :: 0 <= i < |items| ==> Settled(Convert(s).items[i]);
    case Obj(m) =>
      forall k | k in m ensures StableExactly(m[k]) { SettlesExactly(m[k]); }
      BaseStable(s);
      if Wraps(s) { WrappedStable(s); } else { TypedStable(s); }
    case _ =>
  }

  lemma IdempotentExactly(s: Json)
    requires Readable(s)
    ensures Convert(Convert(s)) == Convert(s) <==> !MovesBool(s)
  {
    SettlesExactly(s);
    if Settled(Convert(s)) {
      SettledIsFixed(Convert(s));
    }
    if Convert(Convert(s)) == Convert(s) {
      FixedIsSettled(Convert(s));
    }
  }
}
