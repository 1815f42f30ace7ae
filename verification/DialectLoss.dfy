/** What conversion does to a schema whose nullable parts carry exclusive flags, at any depth. */
module DialectLoss {
  import opened Dialect
  import opened DialectTheorems

  predicate IsExclusive(k: string) {
    k == "exclusiveMinimum" || k == "exclusiveMaximum"
  }

  /** The members of a lossy schema that count: its exclusive flags do not. */
  predicate Counts(m: map<string, Json>, k: string)
    requires k in m
  {
    !(Lossy(m) && IsExclusive(k) && m[k].Bool?)
  }

  /** The schema without the exclusive flags of its lossy parts. */
  function DropLost(s: Json): Json
    decreases s
  {
    match s
    case Arr(items) => Arr(seq(|items|, i requires 0 <= i < |items| => DropLost(items[i])))
    case Obj(m) => Obj(map k | k in m && Counts(m, k) :: DropLost(m[k]))
    case _ => s
  }

  lemma DropLostKinds(s: Json)
    ensures s.Obj? <==> DropLost(s).Obj?
    ensures s.Arr? <==> DropLost(s).Arr?
    ensures !s.Obj? && !s.Arr? ==> DropLost(s) == s
    ensures DropLost(s).Bool? ==> s.Bool?
    ensures DropLost(s).Num? ==> s.Num?
  {}

  lemma DroppedMember(m: map<string, Json>, k: string)
    ensures var d := DropLost(Obj(m)).members;
      && (k in d <==> k in m && Counts(m, k)) && (k in d ==> d[k] == DropLost(m[k]))
      && (k in d && !IsExclusive(k) ==> (Set(d, k) <==> Set(m, k)))
  {
    if k in m { DropLostKinds(m[k]); }
  }

  // ---- The conversion cannot tell the difference

  lemma BaseDropped(m: map<string, Json>)
    requires forall k :: k in m ==> Convert(DropLost(m[k])) == Convert(m[k])
    ensures Base(DropLost(Obj(m))) == Base(Obj(m))
  {
    var d := DropLost(Obj(m)).members;
    assert IsFlag("exclusiveMinimum") && IsFlag("exclusiveMaximum");
    forall k | k in m ensures DropLost(m[k]).Bool? <==> m[k].Bool? { DropLostKinds(m[k]); }
    assert "example" in d <==> "example" in m;
    assert forall k :: (k in d && Keeps(k, d[k])) <==> (k in m && Keeps(k, m[k]));
    var kept := map k | k in d && Keeps(k, d[k]) :: Convert(d[k]);
    var was := map k | k in m && Keeps(k, m[k]) :: Convert(m[k]);
    assert kept == was;
  }

  lemma NullableDropped(m: map<string, Json>)
    ensures Set(DropLost(Obj(m)).members, "nullable") <==> Set(m, "nullable")
    ensures !Lossy(m) ==> forall k :: IsExclusive(k) ==> (Set(DropLost(Obj(m)).members, k) <==> Set(m, k))
  {
    DroppedMember(m, "nullable");
    if !Lossy(m) {
      forall k | IsExclusive(k) ensures Set(DropLost(Obj(m)).members, k) <==> Set(m, k) {
        DroppedMember(m, k);
        if k in m { DropLostKinds(m[k]); }
      }
    }
  }

  /** Conversion gives the same with and without the lost flags. */
  lemma {:induction false} ConvertDropped(s: Json)
    ensures Convert(DropLost(s)) == Convert(s)
    decreases s
  {
    match s
    case Arr(items) =>
      forall i | 0 <= i < |items| ensures Convert(DropLost(items[i])) == Convert(items[i]) { ConvertDropped(items[i]); }
      assert Convert(DropLost(s)).items == Convert(s).items;
    case Obj(m) =>
      forall k | k in m ensures Convert(DropLost(m[k])) == Convert(m[k]) { ConvertDropped(m[k]); }
      BaseDropped(m);
      NullableDropped(m);
      ConvertFromParts(s);
      ConvertFromParts(DropLost(s));
      if Lossy(m) { LossyWraps(m); }
    case _ =>
  }

  function Moved(m: map<string, Json>, wide: map<string, Json>): Json {
    Obj(MoveBound(m, MoveBound(m, wide, "minimum", "exclusiveMinimum"), "maximum", "exclusiveMaximum"))
  }

  lemma ConvertFromParts(s: Json)
    requires s.Obj?
    ensures Convert(s) == Moved(s.members, Widen(s.members, Base(s)))
  {}

  /** In a wrapped schema no bound is in reach of a flag. */
  lemma LossyWraps(m: map<string, Json>)
    requires Lossy(m)
    ensures forall n: map<string, Json> :: Moved(n, Widen(m, Base(Obj(m)))) == Obj(Widen(m, Base(Obj(m))))
    ensures Widen(DropLost(Obj(m)).members, Base(Obj(m))) == Widen(m, Base(Obj(m)))
  {
    NullableDropped(m);
    BaseMembers(Obj(m), "type");
  }

  // ---- Without the lost flags the schema is in the fragment

  lemma {:induction false} SettledKeeps(j: Json)
    requires Settled(j)
    ensures DropLost(j) == j
    decreases j
  {
    match j
    case Arr(items) =>
      forall i | 0 <= i < |items| ensures DropLost(items[i]) == items[i] { SettledKeeps(items[i]); }
      assert DropLost(j).items == items;
    case Obj(m) =>
      assert IsFlag("exclusiveMinimum") && IsFlag("exclusiveMaximum");
      forall k | k in m ensures DropLost(m[k]) == m[k] { SettledKeeps(m[k]); }
      assert DropLost(j).members == m;
    case _ =>
  }

  lemma NoLongerLossy(m: map<string, Json>)
    ensures !Lossy(DropLost(Obj(m)).members)
  {
    var d := DropLost(Obj(m)).members;
    NullableDropped(m);
    DroppedMember(m, "type");
    DroppedMember(m, "minimum");
    DroppedMember(m, "maximum");
    assert IsExclusive("exclusiveMinimum") && IsExclusive("exclusiveMaximum");
    DroppedMember(m, "exclusiveMinimum");
    DroppedMember(m, "exclusiveMaximum");
    if Lossy(m) {
      if "exclusiveMinimum" in d { DropLostKinds(m["exclusiveMinimum"]); }
      if "exclusiveMaximum" in d { DropLostKinds(m["exclusiveMaximum"]); }
    }
  }

  /** A member whose value the conversion leaves alone is kept as it is. */
  lemma PlainMember(m: map<string, Json>, k: string)
    requires k in m && !IsExclusive(k) && Settled(m[k])
    ensures k in DropLost(Obj(m)).members && DropLost(Obj(m)).members[k] == m[k]
  {
    SettledKeeps(m[k]);
  }

  lemma {:induction false} SubschemasFormed(s: Json)
    requires s.Arr? && forall i :: 0 <= i < |s.items| ==> Formed(s.items[i], true)
    ensures DropLost(s).Arr? && forall i :: 0 <= i < |DropLost(s).items| ==> Formed(DropLost(s).items[i], false)
    decreases s, 0
  {
    forall i | 0 <= i < |s.items| ensures Formed(DropLost(s.items[i]), false) { FormedDropped(s.items[i]); }
  }

  lemma {:induction false} PropertiesFormed(s: Json)
    requires s.Obj? && "example" !in s.members
    requires forall k :: k in s.members ==> s.members[k].Obj? && Formed(s.members[k], true)
    ensures DropLost(s).Obj? && "example" !in DropLost(s).members
    ensures forall k :: k in DropLost(s).members ==>
      DropLost(s).members[k].Obj? && Formed(DropLost(s).members[k], false)
    decreases s, 0
  {
    forall k | k in s.members ensures DropLost(s.members[k]).Obj? && Formed(DropLost(s.members[k]), false) {
      FormedDropped(s.members[k]);
    }
  }

  /** The keywords that hold no schemas. */
  ghost predicate ValuesOk(d: map<string, Json>) {
    && ("type" in d ==> d["type"].Str? || AllStrings(d["type"])) && (forall k :: k in d && IsFlag(k) ==> d[k].Bool?)
    && ("minimum" in d ==> d["minimum"].Num?) && ("maximum" in d ==> d["maximum"].Num?)
    && ("enum" in d ==> d["enum"].Arr? && Settled(d["enum"])) && ("required" in d ==> AllStrings(d["required"]))
  }

  /** The keywords that hold one schema, or one for each property. */
  ghost predicate SchemasOk(d: map<string, Json>) {
    && ("properties" in d ==> d["properties"].Obj? && "example" !in d["properties"].members)
    && ("properties" in d ==>
          forall k :: k in d["properties"].members ==>
            d["properties"].members[k].Obj? && Formed(d["properties"].members[k], false))
    && ("items" in d ==> Formed(d["items"], false)) && ("not" in d ==> Formed(d["not"], false))
  }

  /** A combinator. */
  ghost predicate ListOk(d: map<string, Json>, k: string) {
    k in d ==> d[k].Arr? && forall i :: 0 <= i < |d[k].items| ==> Formed(d[k].items[i], false)
  }

  lemma FormedFromParts(d: map<string, Json>)
    requires ValuesOk(d) && SchemasOk(d) && ListOk(d, "allOf") && ListOk(d, "anyOf") && ListOk(d, "oneOf") && !Lossy(d)
    ensures Formed(Obj(d), false)
  {}

  lemma ValuesFormed(m: map<string, Json>)
    requires FormedMembers(Obj(m), true)
    ensures ValuesOk(DropLost(Obj(m)).members)
  {
    if "type" in m { StringsSettled(m["type"]); PlainMember(m, "type"); }
    if "required" in m { StringsSettled(m["required"]); PlainMember(m, "required"); }
    if "enum" in m { PlainMember(m, "enum"); }
    if "minimum" in m { PlainMember(m, "minimum"); }
    if "maximum" in m { PlainMember(m, "maximum"); }
    forall k | k in DropLost(Obj(m)).members && IsFlag(k) ensures DropLost(Obj(m)).members[k].Bool? {
      DroppedMember(m, k);
      DropLostKinds(m[k]);
    }
  }

  lemma {:induction false} SchemasFormed(m: map<string, Json>)
    requires FormedMembers(Obj(m), true)
    ensures SchemasOk(DropLost(Obj(m)).members)
    decreases Obj(m), 0
  {
    if "properties" in m { PropertiesFormed(m["properties"]); }
    if "items" in m { FormedDropped(m["items"]); }
    if "not" in m { FormedDropped(m["not"]); }
  }

  lemma {:induction false} ListsFormed(m: map<string, Json>, k: string)
    requires FormedMembers(Obj(m), true) && k in {"allOf", "anyOf", "oneOf"}
    ensures ListOk(DropLost(Obj(m)).members, k)
    decreases Obj(m), 0
  {
    if k in m { SubschemasFormed(m[k]); }
  }

  lemma {:induction false} FormedDropped(s: Json)
    requires Formed(s, true)
    ensures Formed(DropLost(s), false)
    decreases s, 1
  {
    match s
    case Obj(m) =>
      ValuesFormed(m);
      SchemasFormed(m);
      ListsFormed(m, "allOf");
      ListsFormed(m, "anyOf");
      ListsFormed(m, "oneOf");
      NoLongerLossy(m);
      FormedFromParts(DropLost(s).members);
    case _ =>
  }

  // ---- What a converted schema means

  /** For every formed schema, lossy at any depth or not: the converted schema accepts exactly what the
      schema without its lost flags accepts under the 3.0 rules. */
  lemma ConvertedMeansDropped(s: Json, v: Json)
    requires Formed(s, true)
    ensures Accepts(Draft2020, Convert(s), v) <==> Accepts(OpenApi30, DropLost(s), v)
  {
    FormedDropped(s);
    ConvertDropped(s);
    Preserved(DropLost(s), v);
  }

  const NestedSchema := map["properties" := Obj(map["x" := Obj(LossySchema)])]
  const FiveAtX := map["x" := Num(5.0)]

  lemma LossyIsFormed()
    ensures Formed(Obj(LossySchema), true)
  {
    assert FormedMembers(Obj(LossySchema), true);
  }

  lemma NestedIsFormed()
    ensures Formed(Obj(NestedSchema), true)
  {
    var p := Obj(map["x" := Obj(LossySchema)]);
    LossyIsFormed();
    assert NestedSchema["properties"] == p && forall k :: k in p.members ==> k == "x";
    assert FormedMembers(Obj(NestedSchema), true);
  }

  /** Only the property's schema decides. */
  lemma OneProperty(d: Dialect, inner: Json, v: map<string, Json>)
    requires "x" in v
    ensures Accepts(d, Obj(map["properties" := Obj(map["x" := inner])]), Obj(v)) <==> Accepts(d, inner, v["x"])
  {
    var s := Obj(map["properties" := Obj(map["x" := inner])]);
    var p := s.members["properties"].members;
    assert p["x"] == inner && forall k :: k in p ==> k == "x";
    assert PropertiesOk(d, s, Obj(v)) <==> Accepts(d, inner, v["x"]);
    assert Keywords(d, s, Obj(v)) <==> PropertiesOk(d, s, Obj(v));
  }

  lemma ConvertUnderProperties(p: Json)
    ensures Convert(Obj(map["properties" := p])) == Obj(map["properties" := Convert(p)])
  {
    FlaglessConvert(Obj(map["properties" := p]));
    assert Base(Obj(map["properties" := p])) == map["properties" := Convert(p)];
  }

  lemma ConvertProperty(j: Json)
    ensures Convert(Obj(map["x" := j])) == Obj(map["x" := Convert(j)])
  {
    FlaglessConvert(Obj(map["x" := j]));
    assert Base(Obj(map["x" := j])) == map["x" := Convert(j)];
  }

  lemma NestedConverted()
    ensures Convert(Obj(NestedSchema)) == Obj(map["properties" := Obj(map["x" := Convert(Obj(LossySchema))])])
  {
    ConvertProperty(Obj(LossySchema));
    ConvertUnderProperties(Obj(map["x" := Obj(LossySchema)]));
  }

  /** The usual place of a lossy schema is a property; an object whose property is the excluded bound is
      rejected before conversion only. */
  lemma NestedLossyExample()
    ensures Formed(Obj(NestedSchema), true)
    ensures !Accepts(OpenApi30, Obj(NestedSchema), Obj(FiveAtX))
      && Accepts(Draft2020, Convert(Obj(NestedSchema)), Obj(FiveAtX))
  {
    NestedIsFormed();
    NestedConverted();
    LossyExample();
    OneProperty(OpenApi30, Obj(LossySchema), FiveAtX);
    OneProperty(Draft2020, Convert(Obj(LossySchema)), FiveAtX);
  }

  // ---- Enum values

  /** Conversion keeps an enum's values exactly when they hold nothing it rewrites. */
  lemma EnumKeptExactly(values: seq<Json>)
    ensures Convert(Arr(values)) == Arr(values) <==> Settled(Arr(values))
  {
    if Settled(Arr(values)) {
      SettledIsFixed(Arr(values));
    } else if Convert(Arr(values)) == Arr(values) {
      FixedIsSettled(Arr(values));
    }
  }

  /** The value `{"nullable": true}` is one that is rewritten, as if it were a schema. */
  lemma EnumValueExample()
    ensures Convert(Obj(map["nullable" := Bool(true)])) == Obj(map["anyOf" := Arr([Obj(map[]), NullSchema])])
  {
    var s := Obj(map["nullable" := Bool(true)]);
    assert IsFlag("nullable");
    assert Base(s) == map[];
    WrappedForm(s);
  }
}
