/** The request's URL: base address, path and encoded query, and reading the query back. */
module Urls {
  import opened Wrappers
  import opened UrlTemplate
  import Text

  // ---- `quote_plus` and `urlencode`

  function PlusByte(b: Byte): string {
    if b == 0x20 then "+" else EncodeByte(b)
  }

  function PlusBytes(bytes: seq<Byte>): string {
    if bytes == [] then "" else PlusByte(bytes[0]) + PlusBytes(bytes[1..])
  }

  function QuotePlus(text: string): string {
    PlusBytes(Utf8(text))
  }

  function PairText(pair: (string, string)): string {
    QuotePlus(pair.0) + "=" + QuotePlus(pair.1)
  }

  function PairTexts(pairs: seq<(string, string)>): (texts: seq<string>)
    ensures |texts| == |pairs|
  {
    seq(|pairs|, i requires 0 <= i < |pairs| => PairText(pairs[i]))
  }

  function UrlEncode(pairs: seq<(string, string)>): string {
    if pairs == [] then "" else Text.Join(PairTexts(pairs), '&')
  }

  // ---- Reading a form-encoded query

  function Spaced(s: string): string {
    if s == "" then "" else (if s[0] == '+' then "%20" else [s[0]]) + Spaced(s[1..])
  }

  function UnquotePlus(s: string): Option<string> {
    match Decode(Spaced(s)) case Some(bytes) => FromUtf8(bytes) case None => None
  }

  function ParsePair(s: string): Option<(string, string)> {
    var (name, value) := Text.Partition(s, '=');
    match (UnquotePlus(name), UnquotePlus(value))
    case (Some(n), Some(v)) => Some((n, v))
    case _ => None
  }

  function ParsePairs(parts: seq<string>): Option<seq<(string, string)>> {
    if parts == [] then Some([])
    else
      match (ParsePair(parts[0]), ParsePairs(parts[1..]))
      case (Some(first), Some(rest)) => Some([first] + rest)
      case _ => None
  }

  function ParseQuery(s: string): Option<seq<(string, string)>> {
    ParsePairs(Text.Split(s, '&'))
  }

  // ---- Encoding loses nothing

  /** Plus and space apart, the encoding is the path's. */
  lemma {:induction false} SpacedIsEncoded(bytes: seq<Byte>)
    ensures Spaced(PlusBytes(bytes)) == Encode(bytes)
  {
    if bytes != [] {
      var head, tail := PlusByte(bytes[0]), PlusBytes(bytes[1..]);
      SpacedIsEncoded(bytes[1..]);
      SpacedConcat(head, tail);
      SpacedByte(bytes[0]);
    }
  }

  lemma {:induction false} SpacedConcat(a: string, b: string)
    ensures Spaced(a + b) == Spaced(a) + Spaced(b)
  {
    if a == "" {
      assert a + b == b;
    } else {
      assert (a + b)[1..] == a[1..] + b;
      SpacedConcat(a[1..], b);
    }
  }

  lemma {:induction false} SpacedKeeps(s: string)
    requires '+' !in s
    ensures Spaced(s) == s
  {
    if s != "" {
      assert s[0] in s && forall c :: c in s[1..] ==> c in s;
      SpacedKeeps(s[1..]);
    }
  }

  lemma SpacedByte(b: Byte)
    ensures Spaced(PlusByte(b)) == EncodeByte(b)
  {
    if b == 0x20 {
      assert "+"[1..] == "" && Spaced("+") == "%20" + "";
      assert HexDigit(2) == '2' && HexDigit(0) == '0';
    } else {
      HexIsPlain(b as int / 16);
      HexIsPlain(b as int % 16);
      SpacedKeeps(EncodeByte(b));
    }
  }

  /** The characters that have a meaning in a query. */
  predicate Special(c: char) {
    c == '+' || c == '&' || c == '=' || c == '?' || c == '#'
  }

  lemma HexIsPlain(n: int)
    requires 0 <= n < 16
    ensures !Special(HexDigit(n))
  {}

  lemma {:induction false} PlusBytesArePlain(bytes: seq<Byte>)
    ensures forall c :: c in PlusBytes(bytes) ==> c == '+' || !Special(c)
  {
    if bytes != [] {
      HexIsPlain(bytes[0] as int / 16);
      HexIsPlain(bytes[0] as int % 16);
      PlusBytesArePlain(bytes[1..]);
    }
  }

  lemma UnquotesBack(text: string)
    ensures UnquotePlus(QuotePlus(text)) == Some(text)
    ensures forall c :: c in QuotePlus(text) ==> c == '+' || !Special(c)
  {
    SpacedIsEncoded(Utf8(text));
    EncodeDecodes(Utf8(text));
    Utf8ComesBack(text);
    PlusBytesArePlain(Utf8(text));
  }

  lemma PairComesBack(pair: (string, string))
    ensures ParsePair(PairText(pair)) == Some(pair)
    ensures '&' !in PairText(pair) && '?' !in PairText(pair)
  {
    UnquotesBack(pair.0);
    UnquotesBack(pair.1);
    Text.PartitionAt(QuotePlus(pair.0), '=', QuotePlus(pair.1));
  }

  lemma {:induction false} PairsComeBack(pairs: seq<(string, string)>)
    ensures ParsePairs(PairTexts(pairs)) == Some(pairs)
  {
    if pairs != [] {
      PairComesBack(pairs[0]);
      PairsComeBack(pairs[1..]);
      assert PairTexts(pairs)[1..] == PairTexts(pairs[1..]) && [pairs[0]] + pairs[1..] == pairs;
    }
  }

  /** A non-empty query is read back as the pairs it was made of, in order, whatever they hold. */
  lemma QueryComesBack(pairs: seq<(string, string)>)
    requires pairs != []
    ensures ParseQuery(UrlEncode(pairs)) == Some(pairs)
  {
    forall i | 0 <= i < |pairs| ensures '&' !in PairTexts(pairs)[i] { PairComesBack(pairs[i]); }
    Text.SplitJoin(PairTexts(pairs), '&');
    PairsComeBack(pairs);
  }

  // ---- Joining

  function RStripSlash(s: string): (r: string)
    ensures r <= s && (r == "" || r[|r| - 1] != '/')
  {
    if s != "" && s[|s| - 1] == '/' then RStripSlash(s[..|s| - 1]) else s
  }

  function LStripSlash(s: string): (r: string)
    ensures r == "" || r[0] != '/'
    ensures |r| <= |s| && r == s[|s| - |r|..]
  {
    if s != "" && s[0] == '/' then LStripSlash(s[1..]) else s
  }

  function JoinUrl(base: string, path: string): string {
    RStripSlash(base) + "/" + LStripSlash(path)
  }

  function Url(base: string, path: string, query: seq<(string, string)>): string {
    if query == [] then JoinUrl(base, path) else JoinUrl(base, path) + "?" + UrlEncode(query)
  }

  /** A path that begins with a single slash follows the base address as it is. */
  lemma JoinKeepsPath(base: string, path: string)
    requires path != "" && path[0] == '/' && (|path| == 1 || path[1] != '/')
    ensures JoinUrl(base, path) == RStripSlash(base) + path
  {
    assert LStripSlash(path) == path[1..];
    assert "/" + path[1..] == path;
  }

  /** Joining drops and adds nothing but slashes. */
  lemma JoinHas(base: string, path: string, c: char)
    requires c != '/'
    ensures c in JoinUrl(base, path) <==> c in base || c in path
  {
    OnlySlashesBehind(base, c);
    OnlySlashesBefore(path, c);
  }

  lemma {:induction false} OnlySlashesBehind(s: string, c: char)
    requires c != '/'
    ensures c in RStripSlash(s) <==> c in s
  {
    if s != "" && s[|s| - 1] == '/' {
      OnlySlashesBehind(s[..|s| - 1], c);
      assert s == s[..|s| - 1] + ['/'];
    }
  }

  lemma {:induction false} OnlySlashesBefore(s: string, c: char)
    requires c != '/'
    ensures c in LStripSlash(s) <==> c in s
  {
    if s != "" && s[0] == '/' {
      OnlySlashesBefore(s[1..], c);
      assert s == ['/'] + s[1..];
    }
  }

  lemma {:induction false} JoinedHas(texts: seq<string>, separator: char, c: char)
    requires texts != [] && c != separator && forall i :: 0 <= i < |texts| ==> c !in texts[i]
    ensures c !in Text.Join(texts, separator)
  {
    if |texts| > 1 { JoinedHas(texts[1..], separator, c); }
  }

  /** An encoded query holds no number sign, whatever its pairs hold. */
  lemma EncodedQueryHasNone(pairs: seq<(string, string)>)
    ensures '#' !in UrlEncode(pairs)
  {
    if pairs != [] {
      forall i | 0 <= i < |pairs| ensures '#' !in PairTexts(pairs)[i] {
        UnquotesBack(pairs[i].0);
        UnquotesBack(pairs[i].1);
      }
      JoinedHas(PairTexts(pairs), '&', '#');
    }
  }

  /** The server that cuts the URL at its question mark has the joined address and reads the query. */
  lemma UrlComesBack(base: string, path: string, query: seq<(string, string)>)
    requires '?' !in base && '?' !in path && query != []
    ensures var (address, text) := Text.Partition(Url(base, path, query), '?');
      address == JoinUrl(base, path) && ParseQuery(text) == Some(query)
  {
    assert '?' !in JoinUrl(base, path) by {
      assert forall c :: c in RStripSlash(base) ==> c in base;
      assert forall c :: c in LStripSlash(path) ==> c in path;
    }
    Text.PartitionAt(JoinUrl(base, path), '?', UrlEncode(query));
    QueryComesBack(query);
  }
}
