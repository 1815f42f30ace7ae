/** GraphQL type references, their text, and the two mappings to JSON types. */
module GraphQlTypes {
  datatype Kind = Object | Interface | Union | Scalar | Enum | InputObject

  datatype TypeRef = Named(kind: Kind, name: string) | ListOf(of: TypeRef) | NonNull(of: TypeRef)

  datatype JsonType = Integer | Number | Boolean | Text | Array(items: JsonType)

  predicate NameChar(c: char) {
    'a' <= c <= 'z' || 'A' <= c <= 'Z' || '0' <= c <= '9' || c == '_'
  }

  /** Section 2.1.9 of the GraphQL specification, October 2021. */
  predicate ValidName(s: string) {
    s != "" && !('0' <= s[0] <= '9') && forall i :: 0 <= i < |s| ==> NameChar(s[i])
  }

  predicate NamesValid(ref: TypeRef) {
    match ref
    case Named(_, name) => ValidName(name)
    case ListOf(of) => NamesValid(of)
    case NonNull(of) => NamesValid(of)
  }

  function Render(ref: TypeRef): string {
    match ref
    case Named(_, name) => name
    case ListOf(of) => "[" + Render(of) + "]"
    case NonNull(of) => Render(of) + "!"
  }

  function Innermost(ref: TypeRef): TypeRef {
    if ref.Named? then ref else Innermost(ref.of)
  }

  method NamedType(ref: TypeRef) returns (named: TypeRef)
    ensures named == Innermost(ref) && named.Named?
  {
    named := ref;
    while named.ListOf? || named.NonNull?
      invariant Innermost(named) == Innermost(ref)
      decreases named
    {
      named := named.of;
    }
  }

  function ScalarType(name: string): JsonType {
    if name == "Int" then Integer
    else if name == "Float" then Number
    else if name == "Boolean" then Boolean
    else Text
  }

  /** The mapping of introspected references. */
  function JsonTypeFor(ref: TypeRef): JsonType {
    match ref
    case NonNull(of) => JsonTypeFor(of)
    case ListOf(of) => Array(JsonTypeFor(of))
    case Named(_, name) => ScalarType(name)
  }

  predicate Blank(c: char) {
    c == ' ' || c == '\t' || c == '\n' || c == '\r'
  }

  function LStrip(s: string): (r: string)
    ensures |r| <= |s|
  {
    if s != "" && Blank(s[0]) then LStrip(s[1..]) else s
  }

  function RStrip(s: string): (r: string)
    ensures |r| <= |s|
  {
    if s != "" && Blank(s[|s| - 1]) then RStrip(s[..|s| - 1]) else s
  }

  /** The text without one trailing `!`. */
  function DropBang(s: string): string {
    if s != "" && s[|s| - 1] == '!' then s[..|s| - 1] else s
  }

  /** The mapping of hand-written type text. */
  function JsonTypeOfText(text: string): JsonType
    decreases |text|
  {
    var t := DropBang(RStrip(LStrip(text)));
    if t != "" && t[0] == '[' && t[|t| - 1] == ']' then Array(JsonTypeOfText(t[1..|t| - 1])) else ScalarType(t)
  }

  /** No doubled `!` stands over a type that the textual mapping would not read as a string anyway. */
  predicate NoDoubleBang(ref: TypeRef) {
    match ref
    case Named(_, _) => true
    case ListOf(of) => NoDoubleBang(of)
    case NonNull(of) => if of.NonNull? then JsonTypeFor(of) == Text else NoDoubleBang(of)
  }

  /** Section 3.12 of the GraphQL specification, October 2021: non-null never wraps non-null. */
  predicate WellFormed(ref: TypeRef) {
    match ref
    case Named(_, _) => true
    case ListOf(of) => WellFormed(of)
    case NonNull(of) => !of.NonNull? && WellFormed(of)
  }

  lemma {:induction false} RenderShape(ref: TypeRef)
    requires NamesValid(ref)
    ensures var s := Render(ref);
      && s != "" && !Blank(s[0]) && !Blank(s[|s| - 1])
      && (s[|s| - 1] == '!' <==> ref.NonNull?)
      && (ref.ListOf? ==> s[0] == '[' && s[|s| - 1] == ']' && s[1..|s| - 1] == Render(ref.of))
      && (ref.Named? ==> s[0] != '[')
  {
    match ref {
      case Named(_, name) => assert NameChar(name[0]) && NameChar(name[|name| - 1]);
      case ListOf(of) => RenderShape(of);
      case NonNull(of) => RenderShape(of);
    }
  }

  lemma TextUnfolds(ref: TypeRef)
    requires NamesValid(ref) && !ref.NonNull?
    ensures ref.ListOf? ==> JsonTypeOfText(Render(ref)) == Array(JsonTypeOfText(Render(ref.of)))
    ensures ref.Named? ==> JsonTypeOfText(Render(ref)) == ScalarType(ref.name)
  {
    RenderShape(ref);
  }

  /** One `!` over a reference that has none is dropped. */
  lemma BangDrops(ref: TypeRef)
    requires NamesValid(ref) && !ref.NonNull?
    ensures JsonTypeOfText(Render(NonNull(ref))) == JsonTypeOfText(Render(ref))
  {
    RenderShape(ref);
    RenderShape(NonNull(ref));
    var s := Render(NonNull(ref));
    assert s[..|s| - 1] == Render(ref);
  }

  /** Two of them leave one that hides the type. */
  lemma DoubleBangHides(ref: TypeRef)
    requires NamesValid(ref)
    ensures JsonTypeOfText(Render(NonNull(NonNull(ref)))) == Text
  {
    RenderShape(NonNull(ref));
    RenderShape(NonNull(NonNull(ref)));
    var s := Render(NonNull(NonNull(ref)));
    var t := Render(NonNull(ref));
    assert s[..|s| - 1] == t && t[|t| - 1] == '!';
    assert "Int"[|"Int"| - 1] == 't' && "Float"[|"Float"| - 1] == 't' && "Boolean"[|"Boolean"| - 1] == 'n';
  }

  /** The two mappings agree on exactly the references without a harmful double `!`. */
  lemma {:induction false} MappersAgreeExactly(ref: TypeRef)
    requires NamesValid(ref)
    ensures JsonTypeOfText(Render(ref)) == JsonTypeFor(ref) <==> NoDoubleBang(ref)
  {
    match ref {
      case Named(_, _) => TextUnfolds(ref);
      case ListOf(of) =>
        TextUnfolds(ref);
        MappersAgreeExactly(of);
      case NonNull(of) =>
        if of.NonNull? {
          DoubleBangHides(of.of);
        } else {
          BangDrops(of);
          MappersAgreeExactly(of);
        }
    }
  }

  /** So they agree on every reference the GraphQL specification allows. */
  lemma {:induction false} MappersAgree(ref: TypeRef)
    requires NamesValid(ref) && WellFormed(ref)
    ensures JsonTypeOfText(Render(ref)) == JsonTypeFor(ref)
  {
    WellFormedIsEnough(ref);
    MappersAgreeExactly(ref);
  }

  lemma {:induction false} WellFormedIsEnough(ref: TypeRef)
    requires WellFormed(ref)
    ensures NoDoubleBang(ref)
  {
    if !ref.Named? { WellFormedIsEnough(ref.of); }
  }

  lemma DoubleBangExample(ref: TypeRef)
    requires ref == NonNull(NonNull(Named(Scalar, "Int")))
    ensures JsonTypeFor(ref) == Integer && JsonTypeOfText(Render(ref)) == Text
  {
    assert NameChar('I') && NameChar('n') && NameChar('t');
    DoubleBangHides(Named(Scalar, "Int"));
  }
}
