/** Which argument values the JSON type of a GraphQL reference lets through, and which of them the
    GraphQL specification accepts. */
module GraphQlMeaning {
  import opened GraphQlTypes

  /** JSON values; a number is a real. */
  datatype Value = Null | Truth(b: bool) | Num(n: real) | Str(s: string) | Items(items: seq<Value>) | Members

  predicate Whole(n: real) {
    n == n.Floor as real
  }

  /** What JSON Schema lets a value of that type be. */
  predicate Lets(t: JsonType, v: Value) {
    match t
    case Integer => v.Num? && Whole(v.n)
    case Number => v.Num?
    case Boolean => v.Truth?
    case Text => v.Str?
    case Array(items) => v.Items? && forall i :: 0 <= i < |v.items| ==> Lets(items, v.items[i])
  }

  /** The five built-in scalars, section 3.5 of the GraphQL specification, October 2021. */
  predicate BuiltIn(name: string) {
    name in {"Int", "Float", "String", "Boolean", "ID"}
  }

  predicate OverBuiltIns(ref: TypeRef) {
    Innermost(ref).Named? && BuiltIn(Innermost(ref).name)
  }

  /** Input coercion of one scalar, sections 3.5.1 to 3.5.5: an ID may be given as a text or an integer. */
  predicate ScalarCoerces(name: string, v: Value) {
    if name == "Int" then v.Num? && Whole(v.n) && -2147483648.0 <= v.n < 2147483648.0
    else if name == "Float" then v.Num?
    else if name == "String" then v.Str?
    else if name == "Boolean" then v.Truth?
    else name == "ID" && (v.Str? || (v.Num? && Whole(v.n)))
  }

  predicate OfLists(ref: TypeRef) {
    match ref
    case Named(_, _) => false
    case ListOf(_) => true
    case NonNull(of) => OfLists(of)
  }

  /** Input coercion, sections 3.5, 3.11 and 3.12: null for whatever is not non-null, and for a list a
      list of such values or a single one in its place, though not inside another list. */
  predicate Coerces(ref: TypeRef, v: Value)
    decreases ref, v
  {
    match ref
    case NonNull(of) => !v.Null? && Coerces(of, v)
    case ListOf(of) =>
      v.Null? ||
      (if v.Items? then
         forall i :: 0 <= i < |v.items| ==>
           Coerces(of, v.items[i]) && (OfLists(of) ==> v.items[i].Null? || v.items[i].Items?)
       else Coerces(of, v))
    case Named(_, name) => v.Null? || ScalarCoerces(name, v)
  }

  /** The forms the tool schema knows: a list written as a list, without nulls in it, and an ID as a text. */
  predicate Plain(ref: TypeRef, v: Value)
    decreases ref, v
  {
    match ref
    case NonNull(of) => Plain(of, v)
    case ListOf(of) => v.Items? && forall i :: 0 <= i < |v.items| ==> !v.items[i].Null? && Plain(of, v.items[i])
    case Named(_, name) => name == "ID" ==> v.Str?
  }

  /** Every number in the place of an Int has 32 bits. */
  predicate Fits(ref: TypeRef, v: Value)
    decreases ref, v
  {
    match ref
    case NonNull(of) => Fits(of, v)
    case ListOf(of) => v.Items? ==> forall i :: 0 <= i < |v.items| ==> Fits(of, v.items[i])
    case Named(_, name) => name == "Int" && v.Num? ==> -2147483648.0 <= v.n < 2147483648.0
  }

  /** The JSON type lets through exactly the values in plain form that the GraphQL specification
      accepts, apart from the range of Int, which it does not know. */
  lemma {:induction false} MeansExactly(ref: TypeRef, v: Value)
    requires OverBuiltIns(ref) && !v.Null?
    ensures Lets(JsonTypeFor(ref), v) && Fits(ref, v) <==> Coerces(ref, v) && Plain(ref, v)
    decreases ref, v
  {
    match ref
    case Named(_, _) =>
    case NonNull(of) => MeansExactly(of, v);
    case ListOf(of) =>
      if v.Items? {
        forall i | 0 <= i < |v.items| && !v.items[i].Null?
          ensures OfLists(of) && Plain(of, v.items[i]) ==> v.items[i].Items?
          ensures Lets(JsonTypeFor(of), v.items[i]) && Fits(of, v.items[i]) <==>
            Coerces(of, v.items[i]) && Plain(of, v.items[i])
        {
          MeansExactly(of, v.items[i]);
          if OfLists(of) && Plain(of, v.items[i]) { PlainLists(of, v.items[i]); }
        }
        NothingLetsNull(JsonTypeFor(of));
      }
  }

  lemma {:induction false} PlainLists(ref: TypeRef, v: Value)
    requires OfLists(ref) && Plain(ref, v)
    ensures v.Items?
  {
    if ref.NonNull? { PlainLists(ref.of, v); }
  }

  lemma NothingLetsNull(t: JsonType)
    ensures !Lets(t, Null)
  {}

  /** So does the mapping of written type text, for every reference the GraphQL specification allows. */
  lemma TextMeansExactly(ref: TypeRef, v: Value)
    requires OverBuiltIns(ref) && !v.Null? && NamesValid(ref) && WellFormed(ref)
    ensures Lets(JsonTypeOfText(Render(ref)), v) && Fits(ref, v) <==> Coerces(ref, v) && Plain(ref, v)
  {
    MappersAgree(ref);
    MeansExactly(ref, v);
  }

  /** What the tool schema refuses although the GraphQL specification accepts it: an integer as an ID, a
      single value or a null in a list; and what it lets through in spite of it: an Int of 33 bits. */
  lemma NarrowedExamples(id: TypeRef, number: TypeRef)
    requires id == Named(Scalar, "ID") && number == Named(Scalar, "Int")
    ensures Coerces(id, Num(7.0)) && !Lets(JsonTypeFor(id), Num(7.0))
    ensures Coerces(ListOf(number), Num(7.0)) && !Lets(JsonTypeFor(ListOf(number)), Num(7.0))
    ensures Coerces(ListOf(number), Items([Null])) && !Lets(JsonTypeFor(ListOf(number)), Items([Null]))
    ensures !Coerces(number, Num(4294967296.0)) && Lets(JsonTypeFor(number), Num(4294967296.0))
  {
    assert Items([Null]).items[0] == Null;
  }
}
