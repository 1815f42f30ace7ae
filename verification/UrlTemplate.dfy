/** Path templates: percent-encoded arguments substituted one placeholder at a time. */
module UrlTemplate {
  import opened Wrappers
  import Text

  newtype Byte = x: int | 0 <= x < 256

  // ---- Percent-encoding, sections 2.1 and 2.3 of RFC 3986

  predicate Unreserved(c: char) {
    'a' <= c <= 'z' || 'A' <= c <= 'Z' || '0' <= c <= '9' || c == '-' || c == '.' || c == '_' || c == '~'
  }

  /** Letters, digits and four marks, section 2.3 of RFC 3986. */
  lemma UnreservedExactly(c: char)
    ensures Unreserved(c) <==>
      var n := c as int; 65 <= n <= 90 || 97 <= n <= 122 || 48 <= n <= 57 || n in {45, 46, 95, 126}
  {}

  function HexDigit(n: int): (c: char)
    requires 0 <= n < 16
    ensures HexValue(c) == Some(n)
  {
    if n < 10 then '0' + n as char else 'A' + (n - 10) as char
  }

  function HexValue(c: char): (n: Option<int>)
    ensures n.Some? ==> 0 <= n.value < 16
  {
    if '0' <= c <= '9' then Some(c as int - '0' as int)
    else if 'A' <= c <= 'F' then Some(c as int - 'A' as int + 10)
    else if 'a' <= c <= 'f' then Some(c as int - 'a' as int + 10)
    else None
  }

  function EncodeByte(b: Byte): string {
    if b < 128 && Unreserved(b as char) then [b as char]
    else ['%', HexDigit(b as int / 16), HexDigit(b as int % 16)]
  }

  /** `quote(text, safe="")` on the UTF-8 bytes of the text. */
  function Encode(bytes: seq<Byte>): string {
    if bytes == [] then "" else EncodeByte(bytes[0]) + Encode(bytes[1..])
  }

  function Decode(s: string): Option<seq<Byte>>
    decreases |s|
  {
    if s == "" then Some([])
    else if Unreserved(s[0]) then
      match Decode(s[1..])
      case Some(rest) => Some([s[0] as int as Byte] + rest)
      case None => None
    else if s[0] == '%' && |s| >= 3 && HexValue(s[1]).Some? && HexValue(s[2]).Some? then
      match Decode(s[3..])
      case Some(rest) => Some([(16 * HexValue(s[1]).value + HexValue(s[2]).value) as Byte] + rest)
      case None => None
    else None
  }

  /** An unreserved character stands for itself. */
  lemma DecodePlain(c: char, tail: string)
    requires Unreserved(c) && Decode(tail).Some?
    ensures Decode([c] + tail) == Some([c as int as Byte] + Decode(tail).value)
  {
    assert ([c] + tail)[1..] == tail;
  }

  lemma DecodeEscaped(high: int, low: int, tail: string)
    requires 0 <= high < 16 && 0 <= low < 16 && Decode(tail).Some?
    ensures Decode(['%', HexDigit(high), HexDigit(low)] + tail) ==
            Some([(16 * high + low) as Byte] + Decode(tail).value)
  {
    var s := ['%', HexDigit(high), HexDigit(low)] + tail;
    assert s[3..] == tail && s[0] == '%' && s[1] == HexDigit(high) && s[2] == HexDigit(low);
  }

  lemma HexDigits(n: int)
    requires 0 <= n < 256
    ensures 0 <= n / 16 < 16 && 0 <= n % 16 < 16 && 16 * (n / 16) + n % 16 == n
  {}

  lemma DecodeByte(b: Byte, tail: string)
    requires Decode(tail).Some?
    ensures Decode(EncodeByte(b) + tail) == Some([b] + Decode(tail).value)
  {
    if b < 128 && Unreserved(b as char) {
      DecodePlain(b as char, tail);
    } else {
      HexDigits(b as int);
      DecodeEscaped(b as int / 16, b as int % 16, tail);
    }
  }

  lemma {:induction false} EncodeDecodes(bytes: seq<Byte>)
    ensures Decode(Encode(bytes)) == Some(bytes)
  {
    if bytes != [] {
      EncodeDecodes(bytes[1..]);
      DecodeByte(bytes[0], Encode(bytes[1..]));
      assert bytes == [bytes[0]] + bytes[1..];
    }
  }

  predicate Inert(s: string) {
    '{' !in s && '}' !in s
  }

  /** Nothing but unreserved characters and the sign of an escape. */
  predicate Plain(s: string) {
    forall c :: c in s ==> Unreserved(c) || c == '%'
  }

  /** So an encoded argument brings no brace, slash, question mark or number sign into the path. */
  lemma {:induction false} EncodeIsInert(bytes: seq<Byte>)
    ensures Plain(Encode(bytes)) && (bytes != [] ==> Encode(bytes) != "")
    ensures Inert(Encode(bytes)) && forall c :: c in "/?#" ==> c !in Encode(bytes)
  {
    if bytes != [] {
      EncodeIsInert(bytes[1..]);
      HexIsUnreserved(bytes[0] as int / 16);
      HexIsUnreserved(bytes[0] as int % 16);
    }
  }

  lemma HexIsUnreserved(n: int)
    requires 0 <= n < 16
    ensures Unreserved(HexDigit(n))
  {}

  /** UTF-8, one to four bytes a character. */
  function Utf8(text: string): seq<Byte> {
    if text == "" then [] else Utf8Char(text[0] as int) + Utf8(text[1..])
  }

  function Utf8Char(n: int): (bytes: seq<Byte>)
    requires 0 <= n < 0x11_0000
    ensures bytes != []
  {
    if n < 0x80 then [n as Byte]
    else if n < 0x800 then [(0xC0 + n / 0x40) as Byte, (0x80 + n % 0x40) as Byte]
    else if n < 0x1_0000 then
      [(0xE0 + n / 0x1000) as Byte, (0x80 + n / 0x40 % 0x40) as Byte, (0x80 + n % 0x40) as Byte]
    else
      [(0xF0 + n / 0x4_0000) as Byte, (0x80 + n / 0x1000 % 0x40) as Byte,
        (0x80 + n / 0x40 % 0x40) as Byte, (0x80 + n % 0x40) as Byte]
  }

  /** A Unicode scalar value. */
  predicate IsScalar(n: int) {
    0 <= n < 0xD800 || 0xE000 <= n < 0x11_0000
  }

  /** The character with that scalar value in front of the decoded rest. */
  function Lead(n: int, rest: Option<string>): Option<string> {
    match rest
    case Some(text) => if IsScalar(n) then Some([n as char] + text) else None
    case None => None
  }

  function FromUtf8(bytes: seq<Byte>): Option<string>
    decreases |bytes|
  {
    if bytes == [] then Some("")
    else
      var b := bytes[0] as int;
      if b < 0x80 then Lead(b, FromUtf8(bytes[1..]))
      else if 0xC0 <= b < 0xE0 && |bytes| >= 2 then
        Lead((b - 0xC0) * 0x40 + (bytes[1] as int - 0x80), FromUtf8(bytes[2..]))
      else if 0xE0 <= b < 0xF0 && |bytes| >= 3 then
        Lead((b - 0xE0) * 0x1000 + (bytes[1] as int - 0x80) * 0x40 + (bytes[2] as int - 0x80), FromUtf8(bytes[3..]))
      else if 0xF0 <= b && |bytes| >= 4 then
        Lead((b - 0xF0) * 0x4_0000 + (bytes[1] as int - 0x80) * 0x1000 +
          (bytes[2] as int - 0x80) * 0x40 + (bytes[3] as int - 0x80),
                 FromUtf8(bytes[4..]))
      else None
  }

  /** The six-bit digits of a number give it back. */
  lemma SixBitDigits(n: int)
    requires 0 <= n < 0x11_0000
    ensures n == n / 0x40 * 0x40 + n % 0x40
    ensures n == n / 0x1000 * 0x1000 + n / 0x40 % 0x40 * 0x40 + n % 0x40
    ensures n == n / 0x4_0000 * 0x4_0000 + n / 0x1000 % 0x40 * 0x1000 + n / 0x40 % 0x40 * 0x40 + n % 0x40
  {
    assert n / 0x40 / 0x40 == n / 0x1000;
    assert n / 0x1000 / 0x40 == n / 0x4_0000;
  }

  lemma CharComesBack(c: char, rest: seq<Byte>)
    ensures FromUtf8(Utf8Char(c as int) + rest) == Lead(c as int, FromUtf8(rest))
  {
    var n, bytes := c as int, Utf8Char(c as int) + rest;
    SixBitDigits(n);
    assert bytes[|Utf8Char(n)|..] == rest;
  }

  /** UTF-8 loses nothing. */
  lemma {:induction false} Utf8ComesBack(text: string)
    ensures FromUtf8(Utf8(text)) == Some(text)
  {
    if text != "" {
      Utf8ComesBack(text[1..]);
      CharComesBack(text[0], Utf8(text[1..]));
      assert [text[0]] + text[1..] == text;
    }
  }

  // ---- Templates

  datatype Piece = Char(c: char) | Hole(name: string)

  function Placeholder(name: string): string {
    "{" + name + "}"
  }

  function Render(pieces: seq<Piece>): string {
    if pieces == [] then ""
    else (match pieces[0] case Char(c) => [c] case Hole(n) => Placeholder(n)) + Render(pieces[1..])
  }

  predicate CleanPiece(p: Piece) {
    match p
    case Char(c) => c != '{' && c != '}'
    case Hole(n) => Inert(n)
  }

  predicate Clean(pieces: seq<Piece>) {
    forall i :: 0 <= i < |pieces| ==> CleanPiece(pieces[i])
  }

  /** The longest prefix of `s` without braces, and the rest. */
  function UntilBrace(s: string): (r: (string, string))
    ensures s == r.0 + r.1 && Inert(r.0) && (r.1 == "" || r.1[0] == '{' || r.1[0] == '}')
  {
    if s == "" || s[0] == '{' || s[0] == '}' then ("", s)
    else var (a, b) := UntilBrace(s[1..]); ([s[0]] + a, b)
  }

  /** Reads a template all of whose braces belong to placeholders. */
  function Parse(s: string): (r: Option<seq<Piece>>)
    ensures r.Some? ==> Clean(r.value) && Render(r.value) == s
    decreases |s|
  {
    if s == "" then Some([])
    else if s[0] == '}' then None
    else if s[0] == '{' then
      var (name, rest) := UntilBrace(s[1..]);
      if rest == "" || rest[0] == '{' then None
      else
        match Parse(rest[1..])
        case None => None
        case Some(ps) =>
          assert s == "{" + name + "}" + rest[1..];
          Some([Hole(name)] + ps)
    else
      match Parse(s[1..])
      case None => None
      case Some(ps) => Some([Char(s[0])] + ps)
  }

  function Holes(pieces: seq<Piece>): seq<string> {
    if pieces == [] then []
    else (if pieces[0].Hole? then [pieces[0].name] else []) + Holes(pieces[1..])
  }

  /** `re.findall(r"\{([^{}]*)\}", s)` */
  function FindAll(s: string): seq<string>
    decreases |s|
  {
    if s == "" then []
    else if s[0] != '{' then FindAll(s[1..])
    else
      var (name, rest) := UntilBrace(s[1..]);
      if rest != "" && rest[0] == '}' then [name] + FindAll(rest[1..]) else FindAll(s[1..])
  }

  lemma {:induction false} FindsTheHoles(s: string)
    requires Parse(s).Some?
    ensures FindAll(s) == Holes(Parse(s).value)
    decreases |s|
  {
    if s != "" {
      if s[0] == '{' {
        FindsTheHoles(UntilBrace(s[1..]).1[1..]);
      } else {
        FindsTheHoles(s[1..]);
      }
    }
  }

  lemma {:induction false} UntilBraceStops(a: string, b: string)
    requires Inert(a) && (b == "" || b[0] == '{' || b[0] == '}')
    ensures UntilBrace(a + b) == (a, b)
  {
    if a == "" {
      assert a + b == b;
    } else {
      assert a[0] in a && (a + b)[1..] == a[1..] + b && [a[0]] + a[1..] == a;
      UntilBraceStops(a[1..], b);
    }
  }

  lemma UntilPlaceholderEnds(name: string, rest: string)
    requires Inert(name)
    ensures UntilBrace((Placeholder(name) + rest)[1..]) == (name, "}" + rest)
  {
    assert (Placeholder(name) + rest)[1..] == name + ("}" + rest);
    UntilBraceStops(name, "}" + rest);
  }

  lemma ParseUnfolds(s: string, name: string, end: string)
    requires s != "" && s[0] == '{' && UntilBrace(s[1..]) == (name, end) && end != "" && end[0] == '}'
      && Parse(end[1..]).Some?
    ensures Parse(s) == Some([Hole(name)] + Parse(end[1..]).value)
  {}

  lemma ParseHole(name: string, rest: string)
    requires Inert(name) && Parse(rest).Some?
    ensures Parse(Placeholder(name) + rest) == Some([Hole(name)] + Parse(rest).value)
  {
    UntilPlaceholderEnds(name, rest);
    assert ("}" + rest)[1..] == rest;
    ParseUnfolds(Placeholder(name) + rest, name, "}" + rest);
  }

  /** Rendering and parsing are inverse on templates without stray braces. */
  lemma {:induction false} ParseRender(pieces: seq<Piece>)
    requires Clean(pieces)
    ensures Parse(Render(pieces)) == Some(pieces)
  {
    if pieces != [] {
      var first, rest := pieces[0], Render(pieces[1..]);
      assert CleanPiece(first) && Clean(pieces[1..]);
      ParseRender(pieces[1..]);
      if first.Hole? {
        ParseHole(first.name, rest);
      } else {
        assert ([first.c] + rest)[1..] == rest;
      }
      assert [first] + pieces[1..] == pieces;
    }
  }

  function Chars(s: string): seq<Piece> {
    if s == "" then [] else [Char(s[0])] + Chars(s[1..])
  }

  /** The pieces with placeholder `w` filled. */
  function Fill(pieces: seq<Piece>, w: string, value: string): seq<Piece> {
    if pieces == [] then []
    else (if pieces[0] == Hole(w) then Chars(value) else [pieces[0]]) + Fill(pieces[1..], w, value)
  }

  lemma {:induction false} RenderConcat(a: seq<Piece>, b: seq<Piece>)
    ensures Render(a + b) == Render(a) + Render(b)
  {
    if a == [] {
      assert a + b == b;
    } else {
      assert (a + b)[1..] == a[1..] + b;
      RenderConcat(a[1..], b);
    }
  }

  lemma {:induction false} RenderChars(s: string)
    ensures Render(Chars(s)) == s
  {
    if s != "" {
      RenderChars(s[1..]);
    }
  }

  lemma {:induction false} CharsClean(s: string)
    requires Inert(s)
    ensures Clean(Chars(s))
  {
    if s != "" {
      assert s[0] in s && forall c :: c in s[1..] ==> c in s;
      CharsClean(s[1..]);
    }
  }

  lemma {:induction false} FillClean(pieces: seq<Piece>, w: string, value: string)
    requires Clean(pieces) && Inert(value)
    ensures Clean(Fill(pieces, w, value))
  {
    if pieces != [] {
      assert CleanPiece(pieces[0]) && Clean(pieces[1..]);
      CharsClean(value);
      FillClean(pieces[1..], w, value);
    }
  }

  /** Text without an opening brace is passed over by `replace`. */
  lemma {:induction false} ReplaceSkips(head: string, tail: string, pattern: string, with: string)
    requires pattern != "" && pattern[0] == '{' && '{' !in head
    ensures Text.Replace(head + tail, pattern, with) == head + Text.Replace(tail, pattern, with)
  {
    if head == "" {
      assert head + tail == tail;
    } else {
      var s := head + tail;
      assert s[0] == head[0] && s[0] in head && s[1..] == head[1..] + tail;
      assert !(pattern <= s);
      ReplaceSkips(head[1..], tail, pattern, with);
    }
  }

  lemma {:induction false} SameName(w: string, n: string, rest: string)
    requires Inert(w) && Inert(n) && w + "}" <= n + "}" + rest
    ensures w == n
  {
    var a, b := w + "}", n + "}" + rest;
    assert a[0] == b[0];
    assert (w == "" || (w[0] in w && a[0] == w[0])) && (n == "" || (n[0] in n && b[0] == n[0]));
    if w != "" {
      assert a[1..] == w[1..] + "}" && b[1..] == n[1..] + "}" + rest;
      SameName(w[1..], n[1..], rest);
    }
  }

  /** Distinct placeholders do not match each other. */
  lemma PlaceholdersDiffer(w: string, n: string, rest: string)
    requires Inert(w) && Inert(n) && Placeholder(w) <= Placeholder(n) + rest
    ensures w == n
  {
    assert Placeholder(w)[1..] == w + "}" && (Placeholder(n) + rest)[1..] == n + "}" + rest;
    SameName(w, n, rest);
  }

  /** In front of a placeholder of that name `replace` puts the value, before another it passes on. */
  lemma ReplaceAtHole(name: string, tail: string, w: string, value: string)
    requires Inert(name) && Inert(w)
    ensures Text.Replace(Placeholder(name) + tail, Placeholder(w), value) ==
            (if name == w then value else Placeholder(name)) + Text.Replace(tail, Placeholder(w), value)
  {
    var s := Placeholder(name) + tail;
    if name == w {
      assert s[|Placeholder(w)|..] == tail;
    } else {
      if Placeholder(w) <= s { PlaceholdersDiffer(w, name, tail); }
      assert s[1..] == (name + "}") + tail;
      ReplaceSkips(name + "}", tail, Placeholder(w), value);
    }
  }

  lemma RenderFilled(p: Piece, rest: seq<Piece>, w: string, value: string)
    ensures Render(Fill([p] + rest, w, value)) ==
      (if p == Hole(w) then value else Render([p])) + Render(Fill(rest, w, value))
  {
    assert ([p] + rest)[1..] == rest;
    if p == Hole(w) {
      RenderConcat(Chars(value), Fill(rest, w, value));
      RenderChars(value);
    } else {
      RenderConcat([p], Fill(rest, w, value));
    }
  }

  /** One `str.replace` fills one placeholder and touches nothing else. */
  lemma {:induction false} ReplaceFills(pieces: seq<Piece>, w: string, value: string)
    requires Clean(pieces) && Inert(w)
    ensures Text.Replace(Render(pieces), Placeholder(w), value) == Render(Fill(pieces, w, value))
  {
    if pieces != [] {
      var first, rest := pieces[0], pieces[1..];
      assert Clean(rest) && CleanPiece(first) && pieces == [first] + rest;
      ReplaceFills(rest, w, value);
      RenderFilled(first, rest, w, value);
      assert [first][1..] == [];
      match first {
        case Char(c) => ReplaceSkips([c], Render(rest), Placeholder(w), value);
        case Hole(n) => ReplaceAtHole(n, Render(rest), w, value);
      }
    }
  }

  /** Every placeholder filled at once. */
  function Substitute(pieces: seq<Piece>, values: map<string, string>): string {
    if pieces == [] then ""
    else
      (match pieces[0]
       case Char(c) => [c]
       case Hole(n) => if n in values then values[n] else Placeholder(n)) + Substitute(pieces[1..], values)
  }

  lemma SubstituteCons(p: Piece, rest: seq<Piece>, values: map<string, string>)
    ensures Substitute([p] + rest, values) == Substitute([p], values) + Substitute(rest, values)
  {
    assert ([p] + rest)[1..] == rest && [p][1..] == [];
  }

  lemma {:induction false} SubstituteConcat(a: seq<Piece>, b: seq<Piece>, values: map<string, string>)
    ensures Substitute(a + b, values) == Substitute(a, values) + Substitute(b, values)
  {
    if a == [] {
      assert a + b == b;
    } else {
      assert (a + b)[1..] == a[1..] + b;
      SubstituteConcat(a[1..], b, values);
    }
  }

  lemma {:induction false} SubstitutePlain(s: string, values: map<string, string>)
    ensures Substitute(Chars(s), values) == s
  {
    if s != "" {
      SubstitutePlain(s[1..], values);
      SubstituteCons(Char(s[0]), Chars(s[1..]), values);
      assert Substitute([Char(s[0])], values) == [s[0]];
    }
  }

  lemma {:induction false} FillThenSubstitute(pieces: seq<Piece>, w: string, value: string, values: map<string, string>)
    requires w !in values
    ensures Substitute(Fill(pieces, w, value), values) == Substitute(pieces, values[w := value])
  {
    if pieces != [] {
      FillThenSubstitute(pieces[1..], w, value, values);
      if pieces[0] == Hole(w) {
        SubstituteConcat(Chars(value), Fill(pieces[1..], w, value), values);
        SubstitutePlain(value, values);
      } else {
        assert ([pieces[0]] + Fill(pieces[1..], w, value))[1..] == Fill(pieces[1..], w, value);
      }
    }
  }

  lemma {:induction false} SubstituteNothing(pieces: seq<Piece>)
    ensures Substitute(pieces, map[]) == Render(pieces)
  {
    if pieces != [] { SubstituteNothing(pieces[1..]); }
  }

  /** A template whose placeholders all have an inert value loses every brace. */
  lemma {:induction false} SubstituteInert(pieces: seq<Piece>, values: map<string, string>)
    requires Clean(pieces) && (forall n :: n in values ==> Inert(values[n]))
    requires forall n :: n in Holes(pieces) ==> n in values
    ensures Inert(Substitute(pieces, values))
  {
    if pieces != [] {
      assert CleanPiece(pieces[0]) && Clean(pieces[1..]);
      SubstituteInert(pieces[1..], values);
    }
  }

  // ---- Placeholders that are whole segments

  datatype Segment = Literal(text: string) | Param(name: string)

  predicate SegmentOk(s: Segment) {
    match s
    case Literal(t) => Inert(t) && '/' !in t
    case Param(n) => Inert(n)
  }

  function SegmentPieces(s: Segment): seq<Piece> {
    match s case Literal(t) => Chars(t) case Param(n) => [Hole(n)]
  }

  function PathPieces(segments: seq<Segment>): seq<Piece>
    requires |segments| > 0
  {
    if |segments| == 1 then SegmentPieces(segments[0])
    else SegmentPieces(segments[0]) + ([Char('/')] + PathPieces(segments[1..]))
  }

  function FilledSegment(s: Segment, values: map<string, seq<Byte>>): string {
    match s
    case Literal(t) => t
    case Param(n) => if n in values then Encode(values[n]) else Placeholder(n)
  }

  function Encoded(values: map<string, seq<Byte>>): map<string, string> {
    map n | n in values :: Encode(values[n])
  }

  function Filled(segments: seq<Segment>, values: map<string, seq<Byte>>): seq<string> {
    seq(|segments|, i requires 0 <= i < |segments| => FilledSegment(segments[i], values))
  }

  lemma SubstituteSegment(s: Segment, values: map<string, seq<Byte>>)
    ensures Substitute(SegmentPieces(s), Encoded(values)) == FilledSegment(s, values)
  {
    if s.Literal? {
      SubstitutePlain(s.text, Encoded(values));
    }
  }

  lemma JoinFilled(segments: seq<Segment>, values: map<string, seq<Byte>>)
    requires |segments| > 1
    ensures Text.Join(Filled(segments, values), '/') ==
            FilledSegment(segments[0], values) + "/" + Text.Join(Filled(segments[1..], values), '/')
  {
    assert Filled(segments, values)[1..] == Filled(segments[1..], values);
  }

  lemma {:induction false} SubstitutePath(segments: seq<Segment>, values: map<string, seq<Byte>>)
    requires |segments| > 0
    ensures Substitute(PathPieces(segments), Encoded(values)) == Text.Join(Filled(segments, values), '/')
  {
    SubstituteSegment(segments[0], values);
    if |segments| > 1 {
      var later := PathPieces(segments[1..]);
      SubstitutePath(segments[1..], values);
      SubstituteConcat(SegmentPieces(segments[0]), [Char('/')] + later, Encoded(values));
      SubstituteCons(Char('/'), later, Encoded(values));
      assert Substitute([Char('/')], Encoded(values)) == "/";
      JoinFilled(segments, values);
    } else {
      assert Filled(segments, values) == [FilledSegment(segments[0], values)];
    }
  }

  /** The filled path split at its slashes is the filled segments. */
  lemma PathIsJoined(segments: seq<Segment>, values: map<string, seq<Byte>>)
    requires |segments| > 0 && forall i :: 0 <= i < |segments| ==> SegmentOk(segments[i])
    requires forall i :: 0 <= i < |segments| && segments[i].Param? ==> segments[i].name in values
    ensures Text.Split(Substitute(PathPieces(segments), Encoded(values)), '/') == Filled(segments, values)
  {
    SubstitutePath(segments, values);
    forall i | 0 <= i < |segments| ensures '/' !in Filled(segments, values)[i] {
      assert SegmentOk(segments[i]);
      if segments[i].Param? { EncodeIsInert(values[segments[i].name]); }
    }
    Text.SplitJoin(Filled(segments, values), '/');
  }

  /** When each placeholder is a whole segment, the filled path still has the template's segments:
      split at slashes and percent-decoded, it gives back every literal and every argument. */
  lemma SegmentsComeBack(segments: seq<Segment>, values: map<string, seq<Byte>>)
    requires |segments| > 0 && forall i :: 0 <= i < |segments| ==> SegmentOk(segments[i])
    requires forall i :: 0 <= i < |segments| && segments[i].Param? ==> segments[i].name in values
    ensures var parts := Text.Split(Substitute(PathPieces(segments), Encoded(values)), '/');
      |parts| == |segments| && forall i :: 0 <= i < |segments| ==>
        match segments[i]
        case Literal(t) => parts[i] == t
        case Param(n) => Decode(parts[i]) == Some(values[n])
  {
    PathIsJoined(segments, values);
    forall i | 0 <= i < |segments| && segments[i].Param?
      ensures Decode(Filled(segments, values)[i]) == Some(values[segments[i].name])
    {
      EncodeDecodes(values[segments[i].name]);
    }
  }

  // ---- Why stray braces are excluded

  lemma {:induction false} ReplaceInert(s: string, pattern: string, with: string)
    requires pattern != "" && pattern[0] == '{' && '{' !in s
    ensures Text.Replace(s, pattern, with) == s
  {
    ReplaceSkips(s, "", pattern, with);
    assert s + "" == s;
  }

  /** A brace in front of a placeholder starts no placeholder. */
  lemma ReplacePassesBrace(rest: string, w: string, value: string)
    requires Inert(w) && rest != "" && rest[0] == '{'
    ensures Text.Replace("{" + rest, Placeholder(w), value) == "{" + Text.Replace(rest, Placeholder(w), value)
  {
    var s := "{" + rest;
    assert s[1..] == rest && s[1] == '{';
    assert w == "" || w[0] in w;
    assert Placeholder(w)[1] == if w == "" then '}' else w[0];
    assert !(Placeholder(w) <= s);
  }

  /** The end of the template below: a closing brace and the placeholder `V`. */
  function Rest(): string {
    "}" + (Placeholder("V") + "")
  }

  function Stray(): string {
    "{" + (Placeholder("b") + Rest())
  }

  /** In `{{b}}{V}` the placeholders are `b` and `V`; with value V for the first, filling it makes
      a new `{V}`, so the outcome depends on the order of the parameters. */
  lemma StrayBracesDependOnOrder()
    ensures Stray() == "{{b}}{V}" && Parse(Stray()).None? && FindAll(Stray()) == ["b", "V"]
    ensures Text.Replace(Text.Replace(Stray(), Placeholder("b"), "V"), Placeholder("V"), "W") == "WW"
    ensures Text.Replace(Text.Replace(Stray(), Placeholder("V"), "W"), Placeholder("b"), "V") == "{V}W"
  {
    StrayText();
    FindsBoth();
    BThenV();
    VThenB();
  }

  /** A placeholder at the front is found, and the search goes on after it. */
  lemma FindsFirst(name: string, rest: string)
    requires Inert(name)
    ensures FindAll(Placeholder(name) + rest) == [name] + FindAll(rest)
  {
    UntilPlaceholderEnds(name, rest);
    assert ("}" + rest)[1..] == rest;
  }

  /** A brace before a brace opens no placeholder. */
  lemma FindsNothing(v: string)
    requires v != "" && v[0] == '{'
    ensures Parse("{" + v).None? && FindAll("{" + v) == FindAll(v)
  {
    assert ("{" + v)[1..] == v;
  }

  lemma StrayText()
    ensures Stray() == "{{b}}{V}"
  {}

  lemma FindsBoth()
    ensures Parse(Stray()).None? && FindAll(Stray()) == ["b", "V"]
  {
    FindsNothing(Placeholder("b") + Rest());
    FindsFirst("b", Rest());
    assert Rest()[1..] == Placeholder("V") + "";
    FindsFirst("V", "");
  }

  lemma FillsB()
    ensures Text.Replace(Stray(), Placeholder("b"), "V") == Placeholder("V") + (Placeholder("V") + "")
  {
    ReplacePassesBrace(Placeholder("b") + Rest(), "b", "V");
    ReplaceAtHole("b", Rest(), "b", "V");
    ReplaceSkips("}", Placeholder("V") + "", Placeholder("b"), "V");
    ReplaceAtHole("V", "", "b", "V");
  }

  lemma BThenV()
    ensures Text.Replace(Text.Replace(Stray(), Placeholder("b"), "V"), Placeholder("V"), "W") == "WW"
  {
    FillsB();
    ReplaceAtHole("V", Placeholder("V") + "", "V", "W");
    ReplaceAtHole("V", "", "V", "W");
  }

  lemma VThenB()
    ensures Text.Replace(Text.Replace(Stray(), Placeholder("V"), "W"), Placeholder("b"), "V") == "{V}W"
  {
    ReplacePassesBrace(Placeholder("b") + Rest(), "V", "W");
    ReplaceAtHole("b", Rest(), "V", "W");
    ReplaceSkips("}", Placeholder("V") + "", Placeholder("V"), "W");
    ReplaceAtHole("V", "", "V", "W");
    assert Text.Replace(Stray(), Placeholder("V"), "W") == "{" + (Placeholder("b") + "}W");
    ReplacePassesBrace(Placeholder("b") + "}W", "b", "V");
    ReplaceAtHole("b", "}W", "b", "V");
    ReplaceInert("}W", Placeholder("b"), "V");
  }
}
