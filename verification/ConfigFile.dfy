/** Writing exposure decisions to the config file, reading them back, and comparing with a fresh import. */
module ConfigFile {
  import opened Wrappers
  import opened Operations
  import opened Ordering
  import B = Bindings

  datatype Binding = Http(http: B.Binding) | GraphQl(document: string)

  datatype Operation =
    Operation(id: string, upstream: string, name: string, title: string, description: string, groupTags: seq<string>,
              effect: Effect, sensitivity: Sensitivity, inputSchema: map<string, B.Schema>, binding: Binding,
              meta: map<string, string>)

  /** One detail an operator attached to an operation. */
  datatype RequiredDetail = RequiredDetail(detailType: string, actions: seq<string>)

  datatype Decision =
    Decision(operation: Operation, exposed: bool, effect: Effect, sensitivity: Sensitivity,
             require: Option<RequiredDetail>)

  datatype ParameterEntry =
    ParameterEntry(arg: string, location: B.Location, wireName: Option<string>, required: bool,
                   schema: B.Schema, explode: bool)

  datatype BindingEntry =
    | HttpEntry(httpMethod: string, path: string, parameters: seq<ParameterEntry>, body: Option<B.Body>)
    | GraphQlEntry(document: string)

  datatype Entry =
    Entry(id: string, upstream: string, description: string, title: Option<string>, name: Option<string>,
          groupTags: seq<string>, effect: Option<Effect>, sensitivity: Option<Sensitivity>, binding: BindingEntry)

  function IdOf(d: Decision): string {
    d.operation.id
  }

  // ---- Writing

  function WriteParameter(p: B.Parameter): ParameterEntry {
    ParameterEntry(p.arg, p.location, Some(p.wireName), p.required, p.schema, p.explode)
  }

  function WriteParameters(ps: seq<B.Parameter>): (es: seq<ParameterEntry>)
    ensures |es| == |ps| && forall i :: 0 <= i < |ps| ==> es[i] == WriteParameter(ps[i])
  {
    seq(|ps|, i requires 0 <= i < |ps| => WriteParameter(ps[i]))
  }

  function WriteEntry(d: Decision): Entry
    requires d.operation.binding.Http?
  {
    var op, b := d.operation, d.operation.binding.http;
    var name := if op.name == "" then None else Some(op.name);
    Entry(op.id, op.upstream, op.description, Some(op.title), name, op.groupTags,
          Some(d.effect), Some(d.sensitivity), HttpEntry(b.httpMethod, b.path, WriteParameters(b.parameters), b.body))
  }

  /** The entries of the exposed decisions, or the first whose binding cannot be rendered. */
  function WriteAll(ds: seq<Decision>): Result<seq<Entry>, string> {
    if ds == [] then Ok([])
    else if !ds[0].exposed then WriteAll(ds[1..])
    else if ds[0].operation.binding.GraphQl? then Err(ds[0].operation.id)
    else
      match WriteAll(ds[1..])
      case Err(e) => Err(e)
      case Ok(entries) => Ok([WriteEntry(ds[0])] + entries)
  }

  function Render(ds: seq<Decision>): Result<seq<Entry>, string> {
    WriteAll(SortBy(IdOf, ds))
  }

  function Prepend(a: seq<Entry>, r: Result<seq<Entry>, string>): Result<seq<Entry>, string> {
    match r case Err(e) => Err(e) case Ok(entries) => Ok(a + entries)
  }

  method RenderEntry(d: Decision) returns (entry: Entry)
    requires d.operation.binding.Http?
    ensures entry == WriteEntry(d)
  {
    var op, b := d.operation, d.operation.binding.http;
    var parameters: seq<ParameterEntry> := [];
    for j := 0 to |b.parameters|
      invariant parameters == WriteParameters(b.parameters)[..j]
    {
      parameters := parameters + [WriteParameter(b.parameters[j])];
    }
    assert parameters == WriteParameters(b.parameters);
    entry := Entry(op.id, op.upstream, op.description, Some(op.title), None, op.groupTags,
                   Some(d.effect), Some(d.sensitivity), HttpEntry(b.httpMethod, b.path, parameters, b.body));
    if op.name != "" { entry := entry.(name := Some(op.name)); }
  }

  datatype File =
    File(version: string, mode: string, serverName: string, transport: string, upstreams: map<string, string>,
         operations: seq<Entry>)

  /** The whole config file. */
  method RenderConfig(ds: seq<Decision>, serverName: string, baseUrls: map<string, string>, mode: string)
    returns (r: Result<File, string>)
    ensures match Render(ds)
      case Ok(entries) => r == Ok(File("1", mode, serverName, "stdio", baseUrls, entries))
      case Err(e) => r == Err(e)
  {
    var operations := RenderOperations(ds);
    if operations.Err? { return Err(operations.error); }
    return Ok(File("1", mode, serverName, "stdio", baseUrls, operations.value));
  }

  method RenderOperations(ds: seq<Decision>) returns (r: Result<seq<Entry>, string>)
    ensures r == Render(ds)
  {
    var sorted := SortBy(IdOf, ds);
    var operations: seq<Entry> := [];
    assert sorted[0..] == sorted;
    PrependNothing(WriteAll(sorted));
    for i := 0 to |sorted|
      invariant WriteAll(sorted) == Prepend(operations, WriteAll(sorted[i..]))
    {
      assert sorted[i..][0] == sorted[i] && sorted[i..][1..] == sorted[i + 1..];
      if !sorted[i].exposed { continue; }
      if sorted[i].operation.binding.GraphQl? { return Err(sorted[i].operation.id); }
      var entry := RenderEntry(sorted[i]);
      PrependOne(operations, entry, WriteAll(sorted[i + 1..]));
      operations := operations + [entry];
    }
    assert operations + [] == operations;
    return Ok(operations);
  }

  lemma PrependNothing(r: Result<seq<Entry>, string>)
    ensures Prepend([], r) == r
  {
    if r.Ok? { assert [] + r.value == r.value; }
  }

  lemma PrependOne(a: seq<Entry>, e: Entry, r: Result<seq<Entry>, string>)
    ensures Prepend(a, Prepend([e], r)) == Prepend(a + [e], r)
  {
    if r.Ok? { assert a + ([e] + r.value) == a + [e] + r.value; }
  }

  // ---- Reading back

  function Upper(s: string): string {
    if s == "" then "" else [if 'a' <= s[0] <= 'z' then s[0] - 'a' + 'A' else s[0]] + Upper(s[1..])
  }

  function EffectForMethod(httpMethod: string): Option<Effect> {
    var m := Upper(httpMethod);
    if m == "GET" then Some(ReadOnly)
    else if m == "PUT" || m == "DELETE" then Some(IdempotentWrite)
    else if m == "POST" || m == "PATCH" then Some(Action)
    else None
  }

  /** `first or second` on optional text: the empty string counts as absent. */
  function OrElse(first: Option<string>, second: string): string {
    if first.Some? && first.value != "" then first.value else second
  }

  function ReadParameter(e: ParameterEntry): B.Parameter {
    B.Parameter(e.arg, e.location, OrElse(e.wireName, e.arg), e.required, e.schema, e.explode)
  }

  function ReadParameters(es: seq<ParameterEntry>): (ps: seq<B.Parameter>)
    ensures |ps| == |es| && forall i :: 0 <= i < |es| ==> ps[i] == ReadParameter(es[i])
  {
    seq(|es|, i requires 0 <= i < |es| => ReadParameter(es[i]))
  }

  /** The policy's say on what an operation requires; a parameter here. */
  type Requires = Operation -> Option<RequiredDetail>

  function ReadOperation(e: Entry, effect: Effect): Operation
    requires e.binding.HttpEntry?
  {
    Operation(e.id, e.upstream, OrElse(e.name, ""), OrElse(e.title, e.description), e.description, e.groupTags,
              effect, if e.sensitivity.Some? then e.sensitivity.value else Normal, map[],
              Http(B.Binding(Upper(e.binding.httpMethod), e.binding.path,
                             ReadParameters(e.binding.parameters), e.binding.body)),
              map[])
  }

  function EntryEffect(e: Entry): Option<Effect>
    requires e.binding.HttpEntry?
  {
    if e.effect.Some? then e.effect else EffectForMethod(e.binding.httpMethod)
  }

  function ReadEntry(e: Entry, policy: Requires): Decision
    requires e.binding.HttpEntry? && EntryEffect(e).Some?
  {
    var op := ReadOperation(e, EntryEffect(e).value);
    Decision(op, true, op.effect, op.sensitivity, policy(op))
  }

  /** The decisions of the HTTP entries, later entries replacing earlier ones; None when an entry's
      effect is left to a method that has none. */
  function ReadAll(es: seq<Entry>, policy: Requires): Option<map<string, Decision>> {
    if es == [] then Some(map[])
    else
      var last := es[|es| - 1];
      match ReadAll(es[..|es| - 1], policy)
      case None => None
      case Some(decisions) =>
        if last.binding.GraphQlEntry? then Some(decisions)
        else if EntryEffect(last).None? then None
        else Some(decisions[last.id := ReadEntry(last, policy)])
  }

  lemma {:induction false} ReadAllFails(es: seq<Entry>, policy: Requires, n: nat)
    requires n <= |es| && ReadAll(es[..n], policy).None?
    ensures ReadAll(es, policy).None?
  {
    if n == |es| {
      assert es[..n] == es;
    } else {
      assert es[..|es| - 1][..n] == es[..n];
      ReadAllFails(es[..|es| - 1], policy, n);
    }
  }

  method DecisionsFromConfig(es: seq<Entry>, policy: Requires) returns (r: Option<map<string, Decision>>)
    ensures r == ReadAll(es, policy)
  {
    var decisions: map<string, Decision> := map[];
    for i := 0 to |es|
      invariant ReadAll(es[..i], policy) == Some(decisions)
    {
      var e := es[i];
      assert es[..i + 1][..i] == es[..i] && es[..i + 1][i] == e;
      if e.binding.GraphQlEntry? { continue; }
      var effect := EntryEffect(e);
      if effect.None? {
        ReadAllFails(es, policy, i + 1);
        return None;
      }
      var operation := ReadOperation(e, effect.value);
      decisions :=
        decisions[e.id := Decision(operation, true, operation.effect, operation.sensitivity, policy(operation))];
    }
    assert es[..|es|] == es;
    return Some(decisions);
  }

  // ---- Comparing with a fresh import

  datatype Report = Report(added: seq<string>, removed: seq<string>, changed: seq<string>, same: seq<string>)

  function ById(ops: seq<Operation>): map<string, Operation> {
    if ops == [] then map[] else ById(ops[..|ops| - 1])[ops[|ops| - 1].id := ops[|ops| - 1]]
  }

  /** Operations present on both sides are compared by their bindings, which must be HTTP bindings. */
  ghost predicate Comparable(previous: map<string, Decision>, current: seq<Operation>) {
    forall id :: id in previous && id in ById(current) ==>
      previous[id].operation.binding.Http? && ById(current)[id].binding.Http?
  }

  ghost predicate ReportOf(r: Report, previous: map<string, Decision>, current: seq<Operation>) {
    var now := ById(current);
    && Ascending(r.added) && Ascending(r.removed) && Ascending(r.changed) && Ascending(r.same)
    && (forall id :: id in r.added <==> id in now && id !in previous)
    && (forall id :: id in r.removed <==> id in previous && id !in now)
    && (forall id :: id in r.changed <==>
      id in previous && id in now && previous[id].operation.binding != now[id].binding)
    && (forall id :: id in r.same <==> id in previous && id in now && previous[id].operation.binding == now[id].binding)
  }

  method IndexById(ops: seq<Operation>) returns (m: map<string, Operation>)
    ensures m == ById(ops)
  {
    m := map[];
    for i := 0 to |ops|
      invariant m == ById(ops[..i])
    {
      assert ops[..i + 1][..i] == ops[..i];
      m := m[ops[i].id := ops[i]];
    }
    assert ops[..|ops|] == ops;
  }

  method SortOut(both: seq<string>, previous: map<string, Decision>, now: map<string, Operation>)
    returns (changed: seq<string>, same: seq<string>)
    requires Ascending(both) && forall id :: id in both ==> id in previous && id in now
    ensures Ascending(changed) && Ascending(same)
    ensures forall id :: id in changed <==> id in both && previous[id].operation.binding != now[id].binding
    ensures forall id :: id in same <==> id in both && previous[id].operation.binding == now[id].binding
  {
    changed, same := [], [];
    for i := 0 to |both|
      invariant Ascending(changed) && Ascending(same)
      invariant forall id :: id in changed <==>
        id in both[..i] && id in both && previous[id].operation.binding != now[id].binding
      invariant forall id :: id in same <==>
        id in both[..i] && id in both && previous[id].operation.binding == now[id].binding
    {
      var id := both[i];
      assert both[..i + 1] == both[..i] + [id];
      forall k | 0 <= k < i ensures Before(both[k], id) && both[k] != id {}
      assert forall k :: 0 <= k < |changed| ==> changed[k] in changed;
      assert forall k :: 0 <= k < |same| ==> same[k] in same;
      if previous[id].operation.binding == now[id].binding {
        same := same + [id];
      } else {
        changed := changed + [id];
      }
    }
    assert both[..|both|] == both;
  }

  method DiffOperationIds(previous: map<string, Decision>, current: seq<Operation>) returns (r: Report)
    requires Comparable(previous, current)
    ensures ReportOf(r, previous, current)
  {
    var now := IndexById(current);
    var added := SortedSet(now.Keys - previous.Keys);
    var removed := SortedSet(previous.Keys - now.Keys);
    var both := SortedSet(previous.Keys * now.Keys);
    var changed, same := SortOut(both, previous, now);
    return Report(added, removed, changed, same);
  }
}
