/** What becomes of each member of a converted schema, whether a validator looks at it or not. */
module DialectMembers {
  import opened Wrappers
  import opened Ordering
  import opened Dialect
  import opened DialectTheorems

  /** Nullable without a type to widen. */
  predicate NullableUntyped(m: map<string, Json>) {
    "nullable" in m && m["nullable"] == Bool(true) && "type" !in m
  }

  /** The schema itself or, when it had to be wrapped, the first alternative of the wrapping. */
  function Inner(s: Json): map<string, Json>
    requires s.Obj?
  {
    var out := Convert(s).members;
    if NullableUntyped(s.members) && "anyOf" in out && out["anyOf"].Arr? && |out["anyOf"].items| > 0
         && out["anyOf"].items[0].Obj?
    then out["anyOf"].items[0].members
    else out
  }

  lemma InnerIs(s: Json)
    requires s.Obj?
    ensures NullableUntyped(s.members) ==>
      Inner(s) == Base(s) &&
      Convert(s) == Obj(map["anyOf" := Arr([Obj(Inner(s)), Obj(map["type" := Str("null")])])])
    ensures !NullableUntyped(s.members) ==> Convert(s) == Obj(Inner(s))
  {
    if NullableUntyped(s.members) {
      WrappedForm(s);
      assert Convert(s).members["anyOf"].items[0] == Obj(Base(s));
    }
  }

  /** Keywords that conversion does not know are kept, converted; an `example` becomes the one item of
      `examples`; flags that are truth values are gone. */
  lemma MembersAreCarried(s: Json, k: string)
    requires s.Obj?
    requires k !in {"type", "minimum", "maximum", "exclusiveMinimum", "exclusiveMaximum"}
    ensures var m, out := s.members, Inner(s);
      if k == "example" then k !in out
      else if k == "examples" then
        && (k in out <==> k in m || "example" in m)
        && (k in out ==> out[k] == if "example" in m then Arr([Convert(m["example"])]) else Convert(m[k]))
      else if k == "nullable" then k in out <==> k in m && !m[k].Bool?
      else (k in out <==> k in m) && (k in out ==> out[k] == Convert(m[k]))
  {
    InnerIs(s);
    if k != "example" && k != "examples" { BaseMembers(s, k); }
    if !NullableUntyped(s.members) {
      BaseMembers(s, "type");
      TypedMember(s, k);
    }
  }

  /** A bound is moved by a true flag unless the schema was wrapped, and a false flag is gone. */
  lemma BoundsAreMoved(s: Json, bound: string, exclusive: string)
    requires s.Obj? && !NullableUntyped(s.members)
    requires (bound, exclusive) in {("minimum", "exclusiveMinimum"), ("maximum", "exclusiveMaximum")}
    ensures var m, out := s.members, Inner(s); var moves := Set(m, exclusive) && bound in m;
      && (bound in out <==> bound in m && !moves)
      && (bound in out ==> out[bound] == Convert(m[bound]))
      && (exclusive in out <==> moves || (exclusive in m && !m[exclusive].Bool?))
      && (exclusive in out ==> out[exclusive] == if moves then Convert(m[bound]) else Convert(m[exclusive]))
  {
    InnerIs(s);
    BaseMembers(s, "type");
    BaseMembers(s, "minimum");
    BaseMembers(s, "maximum");
    BaseMembers(s, "exclusiveMinimum");
    BaseMembers(s, "exclusiveMaximum");
  }

  /** The type is kept or, for a nullable schema, becomes the sorted list of its names and null. */
  lemma TypeIsWidened(s: Json)
    requires s.Obj? && "type" in s.members
    ensures var m, out := s.members, Inner(s);
      && "type" in out
      && (!Set(m, "nullable") ==> out["type"] == Convert(m["type"]))
      && (Set(m, "nullable") ==> out["type"].Arr? && NamesAndNull(m["type"], out["type"].items))
  {
    InnerIs(s);
    TypedType(s);
    if Set(s.members, "nullable") {
      var t := Convert(s.members["type"]);
      var names := SortedNames(Types(t));
      SortedMembers(Types(t));
      EachNameOnce(Types(t));
      NamedMembers(names);
      ConvertedNames(s.members["type"]);
    }
  }

  lemma {:induction false} EachNameOnce(types: seq<Json>)
    ensures NoDup(SortedNames(types))
  {
    if types != [] {
      var rest := SortedNames(types[1..]);
      EachNameOnce(types[1..]);
      if types[0].Str? && types[0].s !in rest {
        var names := InsertBy(Itself, types[0].s, rest);
        InsertAdds(Itself, types[0].s, rest);
        forall i, j | 0 <= i < j < |names| ensures names[i] != names[j] {
          TwiceMeansRepeated(names, names[i]);
          TwiceMeansRepeated(rest, names[i]);
        }
      }
    }
  }

  /** The items are the names of the type, once widened, and "null", in order. */
  ghost predicate NamesAndNull(t: Json, items: seq<Json>) {
    && (forall i :: 0 <= i < |items| ==> items[i].Str?)
    && (forall i, j :: 0 <= i < j < |items| && items[i].Str? && items[j].Str? ==>
          Before(items[i].s, items[j].s) && items[i] != items[j])
    && (forall name: string :: Str(name) in items <==>
          name == "null" || t == Str(name) || (t.Arr? && Str(name) in t.items))
  }

  lemma NamedMembers(names: seq<string>)
    ensures Named(names).Arr? && |Named(names).items| == |names|
    ensures forall i :: 0 <= i < |names| ==> Named(names).items[i] == Str(names[i])
    ensures forall name: string :: Str(name) in Named(names).items <==> name in names
  {
    forall name: string | name in names ensures Str(name) in Named(names).items {
      var i :| 0 <= i < |names| && names[i] == name;
      assert Named(names).items[i] == Str(name);
    }
  }

  lemma ConvertedNames(t: Json)
    ensures forall name: string :: Str(name) in Types(Convert(t)) <==>
      t == Str(name) || (t.Arr? && Str(name) in t.items)
  {
    if t.Arr? {
      forall name: string | Str(name) in t.items ensures Str(name) in Convert(t).items {
        var i :| 0 <= i < |t.items| && t.items[i] == Str(name);
        assert Convert(t).items[i] == Str(name);
      }
      forall name: string | Str(name) in Convert(t).items ensures Str(name) in t.items {
        var i :| 0 <= i < |t.items| && Convert(t).items[i] == Str(name);
        assert t.items[i] == Str(name);
      }
    }
  }

  /** Scalars are left alone and lists converted item by item. */
  lemma OthersAreCarried(s: Json)
    requires !s.Obj?
    ensures !s.Arr? ==> Convert(s) == s
    ensures s.Arr? ==> Convert(s).Arr? && |Convert(s).items| == |s.items|
    ensures s.Arr? ==> forall i :: 0 <= i < |s.items| ==> Convert(s).items[i] == Convert(s.items[i])
  {}
}
