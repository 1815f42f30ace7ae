/** Which node a JSON pointer selects, and where a reference leads. */
module Pointers {
  import opened Wrappers
  import opened Documents
  import opened Refs
  import Text

  // ---- Writing a pointer, sections 3 and 6 of RFC 6901

  function EscapeChar(c: char): string {
    if c == '~' then "~0" else if c == '/' then "~1" else [c]
  }

  function Escape(key: string): string {
    if key == "" then "" else EscapeChar(key[0]) + Escape(key[1..])
  }

  function Escapes(keys: seq<string>): (es: seq<string>)
    ensures |es| == |keys| && forall i :: 0 <= i < |keys| ==> es[i] == Escape(keys[i])
  {
    seq(|keys|, i requires 0 <= i < |keys| => Escape(keys[i]))
  }

  /** The fragment that points along `keys`. */
  function PointerText(keys: seq<string>): string {
    if keys == [] then "#" else "#/" + Text.Join(Escapes(keys), '/')
  }

  // ---- Reading it

  /** The key with its slashes restored and its tildes not yet. */
  function HalfEscape(key: string): string {
    if key == "" then "" else (if key[0] == '~' then "~0" else [key[0]]) + HalfEscape(key[1..])
  }

  lemma ReplaceOther(c: char, rest: string, pattern: string, with: string)
    requires pattern != "" && c != pattern[0]
    ensures Text.Replace([c] + rest, pattern, with) == [c] + Text.Replace(rest, pattern, with)
  {
    assert ([c] + rest)[1..] == rest && !(pattern <= [c] + rest);
  }

  lemma ReplaceHere(rest: string, pattern: string, with: string)
    requires pattern != ""
    ensures Text.Replace(pattern + rest, pattern, with) == with + Text.Replace(rest, pattern, with)
  {
    assert (pattern + rest)[|pattern|..] == rest;
  }

  lemma {:induction false} SlashesRestored(key: string)
    ensures Text.Replace(Escape(key), "~1", "/") == HalfEscape(key)
  {
    if key != "" {
      var rest := Escape(key[1..]);
      SlashesRestored(key[1..]);
      if key[0] == '/' {
        ReplaceHere(rest, "~1", "/");
      } else if key[0] == '~' {
        var s := "~0" + rest;
        assert s[1..] == ['0'] + rest && s[1] == '0' && "~1"[1] == '1';
        assert !("~1" <= s);
        ReplaceOther('0', rest, "~1", "/");
        assert ['~'] + (['0'] + HalfEscape(key[1..])) == "~0" + HalfEscape(key[1..]);
      } else {
        ReplaceOther(key[0], rest, "~1", "/");
      }
    }
  }

  lemma {:induction false} TildesRestored(key: string)
    ensures Text.Replace(HalfEscape(key), "~0", "~") == key
  {
    if key != "" {
      TildesRestored(key[1..]);
      if key[0] == '~' {
        ReplaceHere(HalfEscape(key[1..]), "~0", "~");
      } else {
        ReplaceOther(key[0], HalfEscape(key[1..]), "~0", "~");
      }
      assert [key[0]] + key[1..] == key;
    }
  }

  /** The two replacements undo the escaping, in the order the source makes them. */
  lemma UnescapesBack(key: string)
    ensures Unescape(Escape(key)) == key
  {
    SlashesRestored(key);
    TildesRestored(key);
  }

  lemma {:induction false} EscapeHasNoSlash(key: string)
    ensures '/' !in Escape(key)
  {
    if key != "" { EscapeHasNoSlash(key[1..]); }
  }

  /** The first member of that name, with its value. */
  ghost predicate FirstAt(keys: seq<string>, values: seq<Node>, key: string, child: Node, i: int) {
    0 <= i < |keys| && i < |values| && keys[i] == key && values[i] == child && key !in keys[..i]
  }

  /** `child` is the member or item of `node` that `key` names. */
  ghost predicate Child(node: Node, key: string, index: string -> Option<int>, child: Node) {
    match node
    case Mapping(keys, values) =>
      exists i :: FirstAt(keys, values, key, child, i)
    case List(items) =>
      index(key).Some? &&
      var i := index(key).value;
      (0 <= i < |items| && child == items[i]) || (-|items| <= i < 0 && child == items[|items| + i])
    case _ => false
  }

  /** Following `keys` from `node` ends at `to`. */
  ghost predicate Leads(node: Node, keys: seq<string>, index: string -> Option<int>, to: Node)
    decreases |keys|
  {
    if keys == [] then node == to
    else exists child :: Child(node, keys[0], index, child) && Leads(child, keys[1..], index, to)
  }

  lemma FirstAtTail(keys: seq<string>, values: seq<Node>, key: string, child: Node, i: int)
    requires keys != [] && values != [] && keys[0] != key && i > 0
    ensures FirstAt(keys, values, key, child, i) <==> FirstAt(keys[1..], values[1..], key, child, i - 1)
  {
    if i < |keys| { assert keys[..i] == [keys[0]] + keys[1..][..i - 1]; }
  }

  lemma {:induction false} GetExactly(keys: seq<string>, values: seq<Node>, key: string, child: Node)
    ensures Get(keys, values, key) == Some(child) <==> exists i :: FirstAt(keys, values, key, child, i)
  {
    if keys != [] && values != [] {
      if keys[0] == key {
        forall i | 0 < i < |keys| ensures key in keys[..i] { assert keys[..i][0] == key; }
        assert Get(keys, values, key) == Some(child) <==> FirstAt(keys, values, key, child, 0);
      } else {
        GetExactly(keys[1..], values[1..], key, child);
        forall i | i > 0
          ensures FirstAt(keys, values, key, child, i) <==> FirstAt(keys[1..], values[1..], key, child, i - 1)
        {
          FirstAtTail(keys, values, key, child, i);
        }
        if j :| FirstAt(keys[1..], values[1..], key, child, j) {
          assert FirstAt(keys, values, key, child, j + 1);
        }
      }
    }
  }

  lemma StepExactly(node: Node, key: string, index: string -> Option<int>, child: Node)
    ensures Step(node, key, index) == Ok(child) <==> Child(node, key, index, child)
  {
    if node.Mapping? { GetExactly(node.keys, node.values, key, child); }
  }

  lemma {:induction false} DescendExactly(node: Node, keys: seq<string>, index: string -> Option<int>, to: Node)
    ensures Descend(node, Escapes(keys), index) == Ok(to) <==> Leads(node, keys, index, to)
    decreases |keys|
  {
    if keys != [] {
      assert Escapes(keys)[1..] == Escapes(keys[1..]);
      UnescapesBack(keys[0]);
      forall child ensures Step(node, keys[0], index) == Ok(child) <==> Child(node, keys[0], index, child) {
        StepExactly(node, keys[0], index, child);
      }
      if Step(node, keys[0], index).Ok? {
        DescendExactly(Step(node, keys[0], index).value, keys[1..], index, to);
      }
    }
  }

  /** The pointer written for a list of keys selects exactly the node at the end of those keys; the empty
      pointer is the one for no keys. */
  lemma PointerSelectsExactly(root: Node, keys: seq<string>, index: string -> Option<int>, to: Node)
    ensures PointerLookup(root, "", index) == Ok(root)
    ensures PointerLookup(root, PointerText(keys), index) == Ok(to) <==> Leads(root, keys, index, to)
  {
    if keys != [] {
      var pointer := PointerText(keys);
      assert pointer[..2] == "#/" && pointer[2..] == Text.Join(Escapes(keys), '/');
      forall i | 0 <= i < |keys| ensures '/' !in Escapes(keys)[i] { EscapeHasNoSlash(keys[i]); }
      Text.SplitJoin(Escapes(keys), '/');
      DescendExactly(root, keys, index, to);
    }
  }

  lemma ReferenceParts(target: string, keys: seq<string>)
    requires '#' !in target
    ensures Text.Partition(target + PointerText(keys), '#').0 == target
    ensures Pointer(target + PointerText(keys)) == PointerText(keys)
  {
    var rest := PointerText(keys)[1..];
    assert PointerText(keys) == ['#'] + rest;
    assert target + PointerText(keys) == target + ['#'] + rest;
    Text.PartitionAt(target, '#', rest);
  }

  /** A reference to `keys` in the document of `target`, or in its own, leads to exactly that node. */
  lemma LocatesExactly(s: Setup, doc: DocId, target: string, keys: seq<string>, to: Located)
    requires s.Valid() && doc in s.contents && '#' !in target
    ensures Locate(s, Key(doc, target + PointerText(keys))) == Ok(to) <==>
      && (if target == "" then to.doc == doc else s.Document(target) == Ok(to.doc))
      && to.doc in s.contents && Leads(s.contents[to.doc], keys, s.index, to.node)
  {
    ReferenceParts(target, keys);
    if to.doc in s.contents { PointerSelectsExactly(s.contents[to.doc], keys, s.index, to.node); }
  }
}
