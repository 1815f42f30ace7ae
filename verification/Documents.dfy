/** Parsed documents and JSON pointers into them (RFC 6901 as the resolver reads it). */
module Documents {
  import opened Wrappers
  import Text

  datatype Atom = Null | Boolean(b: bool) | Number(n: real)

  /** A mapping keeps its keys in insertion order, because that is the order it is walked in. */
  datatype Node =
    | Scalar(atom: Atom)
    | Str(text: string)
    | List(items: seq<Node>)
    | Mapping(keys: seq<string>, values: seq<Node>)

  /** A copy of `node` with its children replaced. */
  function Rebuild(node: Node, children: seq<Node>): Node {
    match node
    case List(_) => List(children)
    case Mapping(keys, _) => Mapping(keys, children)
    case _ => node
  }

  function Get(keys: seq<string>, values: seq<Node>, key: string): Option<Node> {
    if keys == [] || values == [] then None
    else if keys[0] == key then Some(values[0])
    else Get(keys[1..], values[1..], key)
  }

  /** The text of a reference: a mapping whose `$ref` member is a string. */
  function RefText(node: Node): Option<string> {
    match node
    case Mapping(keys, values) =>
      (match Get(keys, values, "$ref")
       case Some(Str(text)) => Some(text)
       case _ => None)
    case _ => None
  }

  /** Every reference text anywhere inside `node`, also beside another `$ref`. */
  function AllRefs(node: Node): set<string>
    decreases node, 1
  {
    match node
    case List(items) => AllRefsIn(items)
    case Mapping(_, values) => (match RefText(node) case Some(r) => {r} case None => {}) + AllRefsIn(values)
    case _ => {}
  }

  function AllRefsIn(nodes: seq<Node>): set<string>
    decreases nodes, 0
  {
    if nodes == [] then {} else AllRefs(nodes[0]) + AllRefsIn(nodes[1..])
  }

  lemma {:induction false} AllRefsOfItem(nodes: seq<Node>, i: nat)
    requires i < |nodes|
    ensures AllRefs(nodes[i]) <= AllRefsIn(nodes)
  {
    if i > 0 { AllRefsOfItem(nodes[1..], i - 1); }
  }

  lemma {:induction false} AllRefsOfMember(keys: seq<string>, values: seq<Node>, key: string)
    requires Get(keys, values, key).Some?
    ensures AllRefs(Get(keys, values, key).value) <= AllRefsIn(values)
  {
    if keys[0] != key { AllRefsOfMember(keys[1..], values[1..], key); }
  }

  datatype PointerError = UnsupportedForm | DoesNotResolve

  /** One pointer step. `index` is Python's `int()`; a negative index counts from the end. */
  function Step(node: Node, key: string, index: string -> Option<int>): (r: Result<Node, PointerError>)
    ensures r.Ok? ==> AllRefs(r.value) <= AllRefs(node)
  {
    match node
    case List(items) =>
      (match index(key)
       case Some(i) =>
         if 0 <= i < |items| then AllRefsOfItem(items, i); Ok(items[i])
         else if -|items| <= i < 0 then AllRefsOfItem(items, |items| + i); Ok(items[|items| + i])
         else Err(DoesNotResolve)
       case None => Err(DoesNotResolve))
    case Mapping(keys, values) =>
      (match Get(keys, values, key)
       case Some(v) => AllRefsOfMember(keys, values, key); Ok(v)
       case None => Err(DoesNotResolve))
    case _ => Err(DoesNotResolve)
  }

  function Unescape(raw: string): string {
    Text.Replace(Text.Replace(raw, "~1", "/"), "~0", "~")
  }

  function Descend(node: Node, steps: seq<string>, index: string -> Option<int>): (r: Result<Node, PointerError>)
    ensures r.Ok? ==> AllRefs(r.value) <= AllRefs(node)
    decreases |steps|
  {
    if steps == [] then Ok(node)
    else match Step(node, Unescape(steps[0]), index)
      case Ok(next) => Descend(next, steps[1..], index)
      case Err(e) => Err(e)
  }

  function PointerLookup(root: Node, pointer: string, index: string -> Option<int>): (r: Result<Node, PointerError>)
    ensures r.Ok? ==> AllRefs(r.value) <= AllRefs(root)
  {
    if pointer == "" || pointer == "#" then Ok(root)
    else if !Text.StartsWith(pointer, "#/") then Err(UnsupportedForm)
    else Descend(root, Text.Split(pointer[2..], '/'), index)
  }

  /** The source's loop, one step at a time. */
  method LookupPointer(root: Node, pointer: string, index: string -> Option<int>)
    returns (r: Result<Node, PointerError>)
    ensures r == PointerLookup(root, pointer, index)
  {
    if pointer == "" || pointer == "#" {
      return Ok(root);
    }
    if !Text.StartsWith(pointer, "#/") {
      return Err(UnsupportedForm);
    }
    var steps := Text.Split(pointer[2..], '/');
    var node := root;
    for i := 0 to |steps|
      invariant Descend(node, steps[i..], index) == PointerLookup(root, pointer, index)
    {
      match Step(node, Unescape(steps[i]), index)
      case Err(e) => return Err(e);
      case Ok(next) => node := next;
    }
    r := Ok(node);
  }
}
