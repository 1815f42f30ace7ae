# Verified model of the gateway's algorithmic kernels

mcp-portal turns HTTP and GraphQL APIs into MCP tools. This project models the parts of it that
compute something difficult and proves properties of them in Dafny 4.11. Where the program changes
state in place (the resolver object, the token cache, the JWKS cache, a prompter, loops that grow
lists and dictionaries) the model is a class or a method with a loop, proved equal to a function of
the old state; the theorems are then about that function. Check everything with
`dafny verify dfyconfig.toml`.

| files | what they model |
|---|---|
| `Documents`, `Pointers`, `Refs`, `TopLevel`, `RefGraph`, `RefTheorems`, `RefMeaning`, `RefOutput`, `RefFetches` | `$ref` expansion over several documents: pointers, cycle cutting, memoisation, meaning |
| `TokenMachine`, `TokenTheorems`, `TokenLifetimes`, `TokenProgress`, `TokenCache`, `Jwks` | the token cache and the JWKS cache as machines over every interleaving of tasks |
| `UrlTemplate`, `DotSegments`, `Urls`, `Bindings`, `Requests`, `RequestTheorems`, `PathTheorems`, `RequestValues` | from a binding to a tool schema, and from arguments to an HTTP request and its URL |
| `Dialect`, `DialectMembers`, `DialectTheorems`, `DialectLoss` | OpenAPI 3.0 schemas to JSON Schema 2020-12, against two validators |
| `GraphQlTypes`, `GraphQlMeaning`, `GraphQlSelection`, `GraphQlCoverage`, `GraphQlTheorems`, `GraphQlValidity`, `GraphQlDocuments` | type text and the two JSON mappings; generated selection sets, operation documents and their parser |
| `Retry` | the retry loop under a time budget, and what the HTTP and GraphQL transports report |
| `Ordering`, `ConfigFile`, `ConfigTheorems`, `Survey`, `SecondRun`, `PolicyFile` | writing decisions, reading them back, surveying, reconciling, a second run, rendering the policy file |
| `Policy`, `PolicyMeaning`, `Globs` | coverage of authorization details, shell patterns on ids, the allow or deny decision |
| `Wrappers`, `Text`, `Operations` | shared values |

## Where the code and its own words differ

* **Token cache.** The module promises one request per burst of callers. A purge that runs between
  the release of a lock and the moment the woken waiter takes it finds the lock free, drops it, and
  a new caller then fetches beside the waiter. `NotAlwaysSingleFlight` gives such a run,
  `SingleFlightExactly` the exact condition. Without such a purge a key is fetched once per lifetime of its
  token (`FetchedOncePerLifetime`); `PromptIsOncePerLifetime` says what a one-step hand-over would give.
* **Schema conversion.** A nullable schema without a `type` is wrapped in `anyOf` before its
  exclusive flags are applied, so a flag beside a bound is lost (`LossyExactly`, `LossyExample`). At any
  depth the converted schema means the schema without its lost flags (`ConvertedMeansDropped`,
  `NestedLossyExample`). Enum values are converted as if they were schemas (`EnumKeptExactly`,
  `EnumValueExample`).
* **JWKS cache.** "Once per 60s" does not count a refresh that ends in anything but a key list or
  an HTTP error (`RefreshStartsExactly`, `MalformedBodyExample`).
* **Path arguments.** Encoding is said to keep a value in its path segment. No argument brings in a slash,
  a question mark or a number sign (`OnlyTheTemplate`), but `.` and `..` pass unchanged, and a reader that
  removes dot segments (section 5.2.4 of RFC 3986) drops them (`DotArgumentExample`). The path keeps its
  segments exactly when no segment of the template, with the arguments written into it, is one of the two
  (`PathStaysExactly`). In a template without dot segments of its own it keeps them if no argument is one
  (`PlainArgumentsStay`), and only then if placeholders are whole segments (`SegmentsStayExactly`; for
  other templates `PartialSegmentExample`).
* **Retry.** `max_total_ms` bounds a call exactly when it is no smaller than `timeout_ms`
  (`BudgetBoundsExactly`, `BudgetCanBeOverrun`): the first attempt is not gated. A loaded configuration
  always has a budget, by default three timeouts, which does bound it (`DefaultBudgetHolds`). A Retry-After
  with a superscript digit passes `isdigit` and then makes `float` raise (`HeaderRaisesExactly`, `SuperscriptRaises`).
* **Policy file.** A rule with `identifier: ""` is taken for one without an identifier and is
  replaced, although rules that carry an identifier are to be kept (`OwnedIsExpressibleExactly`,
  `EmptyIdentifierExample`). The rule written for an id such as `a[1]` is a pattern that does not match that
  id, so the decision is not enforced (`EnforcedExactly`, `BracketIdExample`).
* **Survey.** Answering every question with its default drops the actions of a required detail, while
  accepting the group keeps them (`DefaultsKeepExactly`, `AcceptingKeepsExactly`, `ActionsExample`).
* **Second run.** A second `configure` run that changes nothing is said to produce no diff. Operations that
  were declined are not in the file, so they are asked about again, and the defaults expose them
  (`DeclinedExample`). `SecondRunExactly` says for all answers, and `DefaultSecondRunExactly` for the
  defaults, when the second file is the first.
* **References.** `resolve()` asserts that it returns a mapping. For a document that is itself a reference this
  fails exactly when references alone lead to something else (`NotAMappingExactly`, `TopLevelReferenceExample`).
* **GraphQL.** Fields of union type are selected without a sub-selection, which the GraphQL
  specification forbids; the selection is valid exactly when none is met (`SpecificationValidExactly`,
  `UnionExample`), and so is the document, if its own field is of no union type (`GeneratedDocumentIsValid`).
  The two JSON mappings differ exactly under a doubled `!` that the GraphQL specification forbids
  (`MappersAgreeExactly`, `DoubleBangExample`). The string type for what is not Int, Float or Boolean is called
  safe, rejecting no valid value; an ID given as an integer is rejected, as are the single value and the null
  that a list may have, and an Int of more than 32 bits is let through (`MeansExactly`, `NarrowedExamples`).

## Model

| member | source | states |
|---|---|---|
| Documents.LookupPointer | src/mcp_portal/sources/refs.py:25-37 | the loop over pointer steps selects what the pointer function selects, with the two error forms |
| Pointers.PointerSelectsExactly | src/mcp_portal/sources/refs.py:25-37 | the pointer written for a list of keys selects a node exactly when the keys lead to it, first members and Python's list indices included; the empty pointer selects the document |
| Pointers.UnescapesBack | src/mcp_portal/sources/refs.py:32 | the two replacements, in their order, undo the escaping of RFC 6901 |
| Pointers.LocatesExactly | src/mcp_portal/sources/refs.py:95-100 | a reference leads to a node exactly when its target names that document, or is empty, and its keys lead there |
| Refs.RefResolver.constructor | src/mcp_portal/sources/refs.py:47-61 | a new resolver has empty caches and no warnings |
| Refs.RefResolver.ResolveDocument | src/mcp_portal/sources/refs.py:63-66 | the object's run has the result and leaves the caches, warnings and logs of the resolver function, and fails if the result is no mapping |
| TopLevel.NotAMappingExactly | src/mcp_portal/sources/refs.py:63-66 | the final assertion fails exactly when the entry document is a reference that leads, through references alone, to a node that is no mapping |
| TopLevel.TopLevelReferenceExample | src/mcp_portal/sources/refs.py:63-66 | a document for which it fails |
| Refs.RefResolver.WalkNode | src/mcp_portal/sources/refs.py:68-75 | walking terminates on every document set and changes the state as the function says |
| RefOutput.OutputShows | src/mcp_portal/sources/refs.py:68-103 | the result shows the entry document node by node: mappings with the same keys and, key by key, lists item by item, scalars themselves, references as what they lead to or, only on a loop, the open object; every warning names a reference on a loop |
| RefOutput.OutputIsDetermined | src/mcp_portal/sources/refs.py:68-103 | on an acyclic graph nothing but the result does so |
| RefOutput.PlainDocumentStays | src/mcp_portal/sources/refs.py:68-75 | a document without references resolves to itself |
| Refs.RefResolver.ResolveReference | src/mcp_portal/sources/refs.py:77-103 | one reference: cut when open, served when finished, otherwise expanded and stored |
| Refs.RefResolver.ExternalDocument | src/mcp_portal/sources/refs.py:105-125 | the refusals in their order, and one fetch per target |
| RefFetches.OnlyAllowedIsFetched | src/mcp_portal/sources/refs.py:105-125 | in every run nothing is fetched unless external documents and the target's host are allowed, what an expanded reference names is then fetched, and each refusal says what is so |
| RefGraph.WalkLedger | src/mcp_portal/sources/refs.py:68-103 | open and finished references stay disjoint and together are the expanded ones, through every walk |
| RefTheorems.WarnsExactlyOnCycles | src/mcp_portal/sources/refs.py:84-86 | a successful run warns exactly when the reachable reference graph has a cycle |
| RefTheorems.AcyclicIsSilent | src/mcp_portal/sources/refs.py:84-86 | an acyclic graph draws no warning, also when the run fails |
| RefTheorems.PathDescends | src/mcp_portal/sources/refs.py:87-102 | without warnings the order of caching is topological: paths go down in it and repeat nothing |
| RefTheorems.ExpandedOnce | src/mcp_portal/sources/refs.py:87-93 | no reference is expanded twice and no target fetched twice, in any run |
| RefMeaning.AcyclicRunIsPlain | src/mcp_portal/sources/refs.py:68-103 | on acyclic graphs the memoised run ends as plain expansion with no cache and no chain does, failures included |
| RefMeaning.ResolvesExactly | src/mcp_portal/sources/refs.py:68-103 | after a successful run, no warnings means plain expansion ends and agrees, warnings mean it never ends |
| RefMeaning.LoopNeverEnds | src/mcp_portal/sources/refs.py:84-86 | a reference on a cycle has no plain expansion |
| RefMeaning.NeverFails | src/mcp_portal/sources/refs.py:99-101 | once everything met is finished, plain expansion meets no broken reference |
| RefMeaning.ExpandedIffReachable | src/mcp_portal/sources/refs.py:77-103 | exactly the references reachable from the entry document are expanded |
| RefMeaning.RefFreeExactly | src/mcp_portal/sources/refs.py:44-45 | the output holds a `$ref` key exactly when some walked mapping has a `$ref` that is not a string |
| TokenCache.TokenCache.constructor | src/mcp_portal/auth/token_cache.py:24-26 | a new cache is the machine's initial state |
| TokenCache.TokenCache.LockOf | src/mcp_portal/auth/token_cache.py:28-33 | returns the key's lock, creating it once |
| TokenCache.TokenCache.Start | src/mcp_portal/auth/token_cache.py:45-49 | a call up to its first suspension is the machine's Call step |
| TokenCache.TokenCache.EnterLocked | src/mcp_portal/auth/token_cache.py:50-53 | under the lock the entry is read again; only an absent or expired one leads to a fetch |
| TokenCache.TokenCache.Wake | src/mcp_portal/auth/token_cache.py:49-52 | a woken task takes the lock at the head of its queue: the Resume step |
| TokenCache.TokenCache.FetchReturned | src/mcp_portal/auth/token_cache.py:53-58 | storing, purging and releasing is the Store step, and the fetched token is returned |
| TokenCache.TokenCache.FetchRaised | src/mcp_portal/auth/token_cache.py:49-53 | a failed fetch stores and purges nothing and releases the lock |
| TokenCache.TokenCache.PurgeExpired | src/mcp_portal/auth/token_cache.py:60-78 | removes exactly the expired entries of other keys, and of their locks those not held |
| TokenTheorems.NextSteady | src/mcp_portal/auth/token_cache.py:35-78 | every step keeps holders and queues consistent |
| TokenProgress.NoneStranded | src/mcp_portal/auth/token_cache.py:49-58 | in every reachable state a lock is held exactly by a task fetching under it, and a queue has either such a fetch or a head that can take the lock |
| TokenProgress.StepTells | src/mcp_portal/auth/token_cache.py:45-58 | what each step does to its task: an unexpired entry is returned at once, with or without waiting, another call fetches or queues, a fetched token is stored and returned, a failure or cancellation is told |
| TokenProgress.OthersStay | src/mcp_portal/auth/token_cache.py:53-78 | no step touches another task, and only storing a token changes entries: its own, and those that have expired |
| TokenProgress.EveryWaiterGetsOn | src/mcp_portal/auth/token_cache.py:49-58 | from every reachable state, ending the fetches in front and resuming the queue lets each waiting task go on, uncancelled |
| TokenTheorems.NextShared | src/mcp_portal/auth/token_cache.py:60-78 | every step but a gap drop keeps all users of a key on its mapped lock and a lock for every entry |
| TokenTheorems.GapFreeIsSingleFlight | src/mcp_portal/auth/token_cache.py:35-58 | in every interleaving without a gap drop at most one fetch per key is in flight |
| TokenTheorems.SingleFlightExactly | src/mcp_portal/auth/token_cache.py:71-78 | single flight survives a finishing fetch exactly when its purge drops no free lock that has a waiter |
| TokenLifetimes.FetchedOncePerLifetime | src/mcp_portal/auth/token_cache.py:40-58 | in every run without a gap drop, of two tokens fetched for a key the later was stored when the earlier had expired, and one fetch per key is in flight |
| TokenLifetimes.PromptIsOncePerLifetime | src/mcp_portal/auth/token_cache.py:6-8 | with release and hand-over as one step that holds of every run, so a burst costs one successful request |
| TokenLifetimes.NextSparing | src/mcp_portal/auth/token_cache.py:45-58 | every step of a single-flight state keeps unexpired tokens cached and lets only keys without one be fetched |
| TokenTheorems.NotAlwaysSingleFlight | src/mcp_portal/auth/token_cache.py:40-43 | a run from the initial state in which two tasks fetch for one key |
| TokenTheorems.ReturnsAreTraced | src/mcp_portal/auth/token_cache.py:45-58 | every returned value was fetched for that key, by this call or with an expiry after the clock read when served |
| TokenTheorems.ServedInTime | src/mcp_portal/auth/outbound.py:105-109 | a cached token is served within its own and its subject token's lifetime less the leeway, never with zero lifetime |
| TokenTheorems.LifetimeExactly | src/mcp_portal/auth/outbound.py:213-221 | a token's lifetime is the longest that ends 60 s before its own expiry and its subject token's |
| TokenTheorems.RunTraced | src/mcp_portal/auth/token_cache.py:53-58 | through every run, each stored entry stays backed by a fetch for its key, with the lifetime that fetch gave, and each returned value by its fetch |
| Jwks.RefreshesAreSpaced | src/mcp_portal/auth/inbound.py:75-100 | no refresh starts within 60 s of one that ended in a key list or an HTTP error |
| Jwks.RefreshStartsExactly | src/mcp_portal/auth/inbound.py:76-79 | the lock's holder refreshes exactly when no such refresh started within the window |
| Jwks.WindowPasses | src/mcp_portal/auth/inbound.py:76-79 | sixty seconds later the next caller starts a refresh |
| Jwks.MalformedBodyExample | src/mcp_portal/auth/inbound.py:88-100 | a refresh with a malformed body is followed by another at the same clock |
| Jwks.KeysAreKept | src/mcp_portal/auth/inbound.py:92-99 | known keys are never lost, however refreshes end |
| Jwks.MergeExactly | src/mcp_portal/auth/inbound.py:96-99 | after a merge an id has the last key of that id in the list, and otherwise the key it had |
| Jwks.TakenKeysAreKnown | src/mcp_portal/auth/inbound.py:88-100 | after a fetched list its last key of an id is known under it, and every other id is as before |
| Jwks.LastOfIsLast | src/mcp_portal/auth/inbound.py:96-99 | that key carries the id and none after it does; there is none exactly when no key of the list carries it |
| Jwks.JwksCache.BeginRefresh | src/mcp_portal/auth/inbound.py:75-79 | the gate at the head of a refresh |
| Jwks.JwksCache.EndRefresh | src/mcp_portal/auth/inbound.py:88-100 | how each ending of a refresh changes keys and window |
| UrlTemplate.EncodeDecodes | src/mcp_portal/transports/http.py:86-98 | percent-decoding an encoded value gives its bytes back |
| UrlTemplate.Utf8ComesBack | src/mcp_portal/transports/http.py:98 | the UTF-8 bytes that are percent-encoded decode to the value's text |
| UrlTemplate.EncodeIsInert | src/mcp_portal/transports/http.py:86-98 | an encoded value holds unreserved characters and escapes only, hence no brace, slash, question mark or number sign, and is empty only for the empty value |
| UrlTemplate.ParseRender | src/mcp_portal/sources/flatten.py:18 | parsing a printed template without stray braces gives it back |
| UrlTemplate.FindsTheHoles | src/mcp_portal/sources/flatten.py:18 | the placeholder pattern finds exactly the placeholders, in order |
| UrlTemplate.ReplaceFills | src/mcp_portal/transports/http.py:143-146 | one string replacement fills one placeholder and touches nothing else |
| UrlTemplate.SegmentsComeBack | src/mcp_portal/transports/http.py:86-98 | with whole-segment placeholders, splitting and decoding the filled path gives literals and values back |
| UrlTemplate.StrayBracesDependOnOrder | src/mcp_portal/transports/http.py:135-146 | a template with stray braces for which the order of replacement decides the result |
| Bindings.CheckPathTemplate | src/mcp_portal/sources/flatten.py:63-107 | accepts exactly the bindings whose placeholders and required path parameters correspond one to one, and each error means what it says |
| Bindings.DeclaredWireNames | src/mcp_portal/sources/flatten.py:78-93 | the loop over path parameters fails exactly on an optional one or a shared wire name |
| Bindings.ResolveArgNames | src/mcp_portal/sources/flatten.py:117-173 | the counting and renaming loops succeed exactly when the renamed binding is distinct, and return it |
| Bindings.ResolveKeeps | src/mcp_portal/sources/flatten.py:136-149 | names end distinct from each other and the body's; nothing but names changes |
| Bindings.RenamesExactly | src/mcp_portal/sources/flatten.py:117-149 | a name is put behind its location exactly when another parameter or the body takes it, and a body that is not JSON is refused |
| Bindings.ResolveFixpoints | src/mcp_portal/sources/flatten.py:117-173 | renaming leaves alone exactly the bindings with distinct names |
| Bindings.ResolveIdempotent | src/mcp_portal/sources/flatten.py:117-173 | renaming twice is renaming once |
| Bindings.ResolvesExactly | src/mcp_portal/sources/flatten.py:118-165 | renaming succeeds exactly when no name is used twice at a location and no prefixed name meets one that kept its own |
| Bindings.BuildInputSchema | src/mcp_portal/sources/flatten.py:176-200 | fails exactly when names cannot be resolved, else builds the schema of the resolved binding |
| Bindings.SchemaCarriesEverything | src/mcp_portal/sources/flatten.py:176-200 | the schema's names are the parameters' and the body's, each with its own schema, and the required ones of both |
| Bindings.BodyInSchema | src/mcp_portal/sources/flatten.py:176-200 | a lifted object body gives its properties and required names, any other body the one required property `body` |
| Requests.FillDraft | src/mcp_portal/transports/http.py:130-150 | the parameter loop updates path, query and headers as the placing function does, with its errors in order |
| Requests.BuildRequest | src/mcp_portal/transports/http.py:124-176 | the whole builder, loops and error branches, equals the building function followed by joining the base URL and encoding the query |
| RequestValues.SentAsAsked | src/mcp_portal/transports/http.py:124-176 | what is sent has the binding's method, the built headers and body, and a URL from which each supplied query argument is read under its wire name |
| RequestValues.QueryValues | src/mcp_portal/transports/http.py:101-109 | a text is one value under the wire name, a truth value `true` or `false`, an exploded list its items, another list one text; no other name is read |
| RequestValues.HeaderValues | src/mcp_portal/transports/http.py:152-153 | a header argument is sent as its text unless credential or content type has its name |
| RequestValues.PathValues | src/mcp_portal/transports/http.py:86-98 | a path argument is read from its segment as its text, truth values as Python writes them |
| Urls.QueryComesBack | src/mcp_portal/transports/http.py:168-170 | an encoded query decodes to its pairs, in order, whatever they hold |
| PathTheorems.OnlyTheTemplate | src/mcp_portal/transports/http.py:86-98 | a reserved character is in a built path exactly when it is in the template's own text, placeholders standing anywhere |
| PathTheorems.BuiltUrlComesBack | src/mcp_portal/transports/http.py:168-170 | a server that cuts a built request's URL at its question mark has the joined address and reads the query parameters asked for, when base and template have no question mark of their own |
| PathTheorems.NoFragment | src/mcp_portal/transports/http.py:86-98 | the URL has a fragment exactly when base or template brings one |
| Urls.JoinKeepsPath | src/mcp_portal/transports/http.py:120-121 | a path that begins with a single slash follows the base address unchanged |
| RequestTheorems.BuildsExactly | src/mcp_portal/transports/http.py:135-164 | a request is built exactly when required arguments are there, path values are not empty, header values have no line break, and the body has what it requires |
| RequestTheorems.ErrorsTellWhy | src/mcp_portal/transports/http.py:94-117 | each error names an argument or header that causes it |
| RequestTheorems.QueryListExactly | src/mcp_portal/transports/http.py:101-109 | an exploded list is one pair per item; an unexploded one can be split back exactly when it has items and none holds a comma |
| RequestTheorems.NeverMissingExactly | src/mcp_portal/sources/flatten.py:183-195 | arguments that satisfy the tool schema are never reported missing exactly when the body's required names are among its properties |
| RequestTheorems.RoutedOnce | src/mcp_portal/transports/http.py:152-166 | no argument reaches both a parameter and the body, and the body holds exactly its own |
| RequestTheorems.QueryAndHeaders | src/mcp_portal/transports/http.py:147-174 | the query in parameter order; each header from the credential, else the content type, else the last parameter of its name |
| RequestTheorems.PathIsSubstitution | src/mcp_portal/transports/http.py:135-146 | for a checked template the replacement loop is one simultaneous substitution and leaves no brace |
| RequestTheorems.OrderDoesNotMatter | src/mcp_portal/transports/http.py:135-146 | permuting the parameters changes neither success nor path |
| RequestTheorems.ArgumentsComeBack | src/mcp_portal/transports/http.py:86-98 | splitting the built path, percent-decoding and UTF-8-decoding gives every literal and the text of every path argument back |
| RequestTheorems.SegmentsStayExactly | src/mcp_portal/transports/http.py:86-98 | with whole-segment placeholders, removing dot segments leaves a built path as it is exactly when no path argument is `.` or `..` |
| PathTheorems.PathStaysExactly | src/mcp_portal/transports/http.py:86-98 | with placeholders anywhere, exactly when no segment of the template with the arguments written into it is `.` or `..` |
| PathTheorems.PlainArgumentsStay | src/mcp_portal/transports/http.py:86-98 | wherever placeholders stand, arguments other than `.` and `..` leave every segment of a template without dot segments in place |
| PathTheorems.DotArgumentExample | src/mcp_portal/transports/http.py:86-98 | the value `..` for `/{id}` is removed with its segment |
| PathTheorems.PartialSegmentExample | src/mcp_portal/transports/http.py:86-98 | the value `.` for `/a{x}` stays |
| DotSegments.StaysExactly | src/mcp_portal/transports/http.py:86-98 | the procedure of section 5.2.4 of RFC 3986 changes a path exactly when one of its segments is a dot segment |
| Dialect.ConvertSchema | src/mcp_portal/sources/dialect.py:17-49 | the recursive loop with its edits of the finished dictionary equals the conversion function |
| DialectTheorems.Preserved | src/mcp_portal/sources/dialect.py:17-49 | on the fragment, a value is accepted before conversion under 3.0 rules iff after it under 2020-12 rules |
| DialectLoss.ConvertedMeansDropped | src/mcp_portal/sources/dialect.py:17-49 | for schemas that lose flags at any depth: the converted schema accepts exactly what the schema without the lost flags does |
| DialectLoss.ConvertDropped | src/mcp_portal/sources/dialect.py:38-47 | conversion gives the same with and without those flags |
| DialectLoss.NestedLossyExample | src/mcp_portal/sources/dialect.py:25-47 | a property that loses its flag, and an object on which the meaning changes |
| DialectLoss.EnumKeptExactly | src/mcp_portal/sources/dialect.py:17-33 | the values of an enum are kept exactly when conversion changes none of them as a schema |
| DialectLoss.EnumValueExample | src/mcp_portal/sources/dialect.py:38-43 | an enum value that is rewritten |
| DialectTheorems.WidenedType | src/mcp_portal/sources/dialect.py:34-37 | the widened type list is sorted and accepts what the type did, and null |
| DialectMembers.MembersAreCarried | src/mcp_portal/sources/dialect.py:24-42 | in the schema or the first alternative of its wrapping, every keyword conversion does not know is kept, an `example` is the one item of `examples`, and `nullable` is gone |
| DialectMembers.BoundsAreMoved | src/mcp_portal/sources/dialect.py:44-47 | when a bound is moved and what the two keywords then hold |
| DialectMembers.TypeIsWidened | src/mcp_portal/sources/dialect.py:33-37 | the type is kept, or becomes each of its names and null once, in order |
| DialectTheorems.LossyExactly | src/mcp_portal/sources/dialect.py:38-47 | for a type-less nullable schema with an exclusive flag over parts that lose none, exactly the excluded bound is wrongly accepted |
| DialectTheorems.LossyExample | src/mcp_portal/sources/dialect.py:38-47 | such a schema and the value on which it goes wrong |
| DialectTheorems.IdempotentExactly | src/mcp_portal/sources/dialect.py:44-47 | converting twice is converting once exactly when no boolean bound is moved |
| GraphQlTypes.NamedType | src/mcp_portal/sources/graphql_introspection.py:122-127 | the unwrapping loop ends at the innermost named type |
| GraphQlTypes.MappersAgreeExactly | src/mcp_portal/sources/explicit.py:45-67 | mapping the rendered text agrees with mapping the reference exactly without a harmful doubled non-null |
| GraphQlTypes.MappersAgree | src/mcp_portal/sources/graphql.py:39-59 | the mappings agree on every reference the GraphQL specification allows |
| GraphQlMeaning.MeansExactly | src/mcp_portal/sources/graphql.py:39-59 | over the built-in scalars the JSON type lets through exactly the values, in plain form, that the GraphQL specification's input coercion accepts, apart from the range of Int |
| GraphQlMeaning.TextMeansExactly | src/mcp_portal/sources/explicit.py:45-67 | so does the mapping of the rendered text |
| GraphQlMeaning.NarrowedExamples | src/mcp_portal/sources/graphql.py:44-46 | an ID and two list forms that are refused, and an Int that is let through |
| GraphQlTypes.DoubleBangExample | src/mcp_portal/sources/explicit.py:57-59 | the reference on which they differ |
| GraphQlSelection.FieldsFor | src/mcp_portal/sources/graphql_selection.py:20-58 | the loop over fields terminates on cyclic schemas and prints the lines of the selection tree, or fails |
| GraphQlSelection.FieldLines | src/mcp_portal/sources/graphql_selection.py:33-57 | the lines of one field: excluded, with arguments, leaf, cut, nested or dropped |
| GraphQlSelection.BuildSelectionSet | src/mcp_portal/sources/graphql_selection.py:61-72 | the text of the whole selection, with the fallback for an empty one |
| GraphQlCoverage.SelectsExactly | src/mcp_portal/sources/graphql_selection.py:31-57 | a selection has exactly what the fields without arguments and not excluded add: a leaf, a cut at a type being selected, or its type's whole selection unless empty |
| GraphQlCoverage.InSchemaOrder | src/mcp_portal/sources/graphql_selection.py:31-57 | in the schema's order, at most one for a field |
| GraphQlTheorems.TextComesBack | src/mcp_portal/sources/graphql_selection.py:61-72 | lexing and parsing the printed text gives the selection tree back |
| GraphQlTheorems.LexTrees | src/mcp_portal/sources/graphql_selection.py:43-57 | the printed lines lex to the tokens of the trees, at every indentation |
| GraphQlValidity.GeneratedTextIsValid | src/mcp_portal/sources/graphql_selection.py:20-72 | the text reads back to a non-empty valid selection nested no deeper than the schema has types, plus one for a cut |
| GraphQlValidity.SpecificationValidExactly | src/mcp_portal/sources/graphql_selection.py:43-46 | it is valid under the GraphQL specification exactly when no eligible field of union type is met |
| GraphQlValidity.UnionExample | src/mcp_portal/sources/graphql_selection.py:43-46 | a schema whose generated selection the GraphQL specification forbids |
| GraphQlValidity.FailsExactly | src/mcp_portal/sources/graphql_selection.py:27-29 | generation fails exactly when a walk through eligible composite fields ends at an undefined type |
| GraphQlValidity.EmptyExactly | src/mcp_portal/sources/graphql_selection.py:49-57 | a branch is dropped exactly when no walk from it meets a leaf or closes a cycle |
| GraphQlDocuments.BuildDocument | src/mcp_portal/sources/graphql.py:100-123 | the document with the generated selection, without one for a leaf, or none when the type is missing |
| GraphQlDocuments.DocumentComesBack | src/mcp_portal/sources/graphql.py:28-36 | the operation text parses back to its variables with their types, its call and its selection |
| GraphQlDocuments.TypeTextComesBack | src/mcp_portal/sources/graphql_introspection.py:110-119 | rendered type text lexes and parses back to the reference's shape |
| GraphQlDocuments.GeneratedDocumentIsValid | src/mcp_portal/sources/graphql.py:92-123 | every generated document parses, with a valid selection for an object or interface and none otherwise; under the GraphQL specification it is valid exactly when its field is of no union type and leads to no eligible field of one |
| GraphQlDocuments.VariablesMatch | src/mcp_portal/sources/graphql.py:31-36 | variables declared are exactly those used, each for the argument of its name, non-null as the argument is |
| GraphQlDocuments.SchemaMatchesDocument | src/mcp_portal/sources/graphql.py:62-65 | the tool schema gives each variable the JSON type of its declared text and requires exactly the non-null ones |
| Retry.WaitForRetry | src/mcp_portal/transports/common.py:77-103 | goes on exactly when the wait and one more timeout fit into the rest of the budget, and then sleeps the delay |
| Retry.RunAttempts | src/mcp_portal/transports/http.py:241-268 | the loop ends with the first attempt that may not be retried, or at a header it cannot read; its bottom is unreachable; its elapsed time is that of the attempts and waits |
| Retry.CallTells | src/mcp_portal/transports/http.py:241-268 | requests are sent up to the first that is not repeated: an action, the third, another outcome than a timeout, 429, 502, 503 or 504, an unreadable header, or no room in the budget; the caller learns that one's outcome |
| Retry.ExecuteHttp | src/mcp_portal/transports/http.py:241-268 | the transport answers with the status of the loop's last response, or raises its timeout or header error |
| Retry.ExecuteGraphQl | src/mcp_portal/transports/graphql.py:102-128 | the same loop followed by the mapping of errors under a 200 |
| Retry.HeaderRaisesExactly | src/mcp_portal/transports/common.py:41-42 | a call ends in an exception over its header exactly when it stops before its last attempt at a 429 whose digits are not all ASCII |
| Retry.SuperscriptRaises | src/mcp_portal/transports/common.py:41-42 | a call that does |
| Retry.EndingUnique | src/mcp_portal/transports/graphql.py:102-128 | a call has one ending |
| Retry.RetriesOnlyWhatMayBe | src/mcp_portal/transports/http.py:198-200 | an action is sent once, others at most three times, and nothing is retried after a settled answer |
| Retry.BudgetHolds | src/mcp_portal/transports/common.py:68-103 | a budgeted call ends within the larger of budget and timeout |
| Retry.BudgetBoundsExactly | src/mcp_portal/transports/common.py:87-93 | the budget bounds every call exactly when it is at least the timeout |
| Retry.BudgetCanBeOverrun | src/mcp_portal/transports/common.py:87-93 | a call that overruns a budget below the timeout |
| Retry.DefaultBudgetHolds | src/mcp_portal/config/models.py:180-183 | a configuration without a budget is given one of three timeouts, and every call ends within it |
| Retry.UnbudgetedHolds | src/mcp_portal/transports/common.py:36-44 | without a budget, attempts times the timeout plus the capped waits bound the call |
| Retry.RetryAfterOnlyOn429 | src/mcp_portal/transports/common.py:36-44 | on a 429 a header of digits is waited for, as its number up to ten seconds; without one, and on every other status, the wait is the draw times 0.1 s, then 0.2 s |
| Retry.GraphQlErrorsEndTheCall | src/mcp_portal/transports/graphql.py:56-81 | a call whose attempt k answers 200 with errors sends exactly k + 1 requests and reports 502, where the HTTP transport reports 200 |
| Retry.EarlyBadGatewayExactly | src/mcp_portal/transports/graphql.py:56-81 | without a budget a repeatable call reports 502 before its last attempt exactly when that answer was a 200 with errors |
| Ordering.SortKeeps | src/mcp_portal/configure/write.py:35 | sorting by a key permutes, orders, and leaves elements of equal keys in their order |
| Ordering.SortedUnique | src/mcp_portal/configure/write.py:32-34 | with distinct keys there is one sorted order, whatever the input order |
| ConfigFile.RenderConfig | src/mcp_portal/configure/write.py:24-92 | the whole file: version, mode, server, upstreams and the exposed decisions by id, or failure at the first GraphQL binding among them |
| ConfigFile.RenderOperations | src/mcp_portal/configure/write.py:31-85 | the loop over sorted decisions equals the writing function |
| ConfigFile.DecisionsFromConfig | src/mcp_portal/configure/reconcile.py:36-95 | the loop over entries reads every HTTP entry back, later ones replacing earlier ones |
| ConfigTheorems.ReadsExactly | src/mcp_portal/configure/reconcile.py:41-95 | a file is read exactly when each HTTP entry has an effect, each id having the decision of its last HTTP entry |
| ConfigTheorems.MethodDecides | src/mcp_portal/configure/reconcile.py:98-101 | an effect left out follows from the method, in any case: GET, PUT and DELETE, POST and PATCH |
| ConfigTheorems.LeftOutDefaults | src/mcp_portal/configure/reconcile.py:51-88 | what a missing name, title, sensitivity or wire name is read as |
| ConfigFile.DiffOperationIds | src/mcp_portal/configure/reconcile.py:122-136 | four sorted lists: new, removed, changed and unchanged ids |
| ConfigTheorems.RoundTripExactly | src/mcp_portal/configure/reconcile.py:51-94 | an operation survives the file exactly when its binding is canonical, its title is not lost, and it has no input schema or metadata; its entry exactly under the first two |
| ConfigTheorems.ReadBackExactly | src/mcp_portal/configure/reconcile.py:112-119 | a binding survives exactly when its method is upper-case and no wire name is emptied |
| ConfigTheorems.WrittenCanBeRead | src/mcp_portal/configure/reconcile.py:36-95 | reading what was written never fails and can be compared |
| ConfigTheorems.WriteReadDiff | src/mcp_portal/configure/reconcile.py:122-136 | against the same import nothing is removed, new are the declined, unchanged the exposed with canonical bindings, changed the other exposed |
| ConfigTheorems.RewriteExactly | src/mcp_portal/configure/write.py:35 | writing what was read, in any order, gives the same file exactly when every written decision is stable |
| SecondRun.SecondRunExactly | src/mcp_portal/configure/write.py:32-34 | whatever is answered, a second run writes the first file again exactly when unchanged operations kept their titles and each one asked about, declined or changed, is decided as it was |
| SecondRun.DefaultSecondRunExactly | src/mcp_portal/configure/write.py:32-34 | with default answers, exactly when nothing was declined, unchanged operations kept their titles, and no changed one had its effect overridden |
| SecondRun.StableRunsAgain | src/mcp_portal/configure/write.py:32-34 | when every decision is exposed and stable nothing is asked and there is no diff |
| SecondRun.DeclinedExample | src/mcp_portal/configure/write.py:32-34 | one declined operation and the defaults give a diff |
| SecondRun.SecondOf | src/mcp_portal/configure/reconcile.py:139-154 | in a second run an unchanged operation's decision is the one read back, any other's comes from the survey |
| ConfigTheorems.SettlesAfterOneRound | src/mcp_portal/configure/write.py:32-35 | whatever was decided, the second file is a fixpoint |
| Survey.SurveyOne | src/mcp_portal/configure/survey.py:34-76 | the questions in their order, each answer used where it belongs, defaults when answers run out |
| Survey.AnswersAreTaken | src/mcp_portal/configure/survey.py:34-76 | which answer decides what: a no to exposure declines, then sensitivity, then a requirement and its type |
| Survey.AnswersRunOut | src/mcp_portal/configure/survey.py:34-76 | a new operation's defaults, and the default type of a requirement |
| Survey.GroupAnswerIsTaken | src/mcp_portal/configure/survey.py:94-107 | the first answer accepts the group or has its operations asked about one by one |
| Survey.RunSurvey | src/mcp_portal/configure/survey.py:79-112 | the loop over runs of equal tags consumes the answers as the survey function does |
| Survey.FirstRunIsTag | src/mcp_portal/configure/survey.py:79-112 | a group is all operations of one tag, untagged ones being `(ungrouped)` |
| Survey.SurveyDecidesAll | src/mcp_portal/configure/survey.py:34-112 | for all answers: one decision per operation, tag by tag and in the order given within a tag, effects pinned, no requirement on read-only or declined ones, sensitivity kept on declining |
| Survey.DefaultsKeepExactly | src/mcp_portal/configure/survey.py:34-76 | answering with every default keeps an earlier decision exactly when it requires nothing beyond a named type of an exposed writing operation |
| Survey.AcceptingKeepsExactly | src/mcp_portal/configure/survey.py:94-107 | accepting the group keeps a decision exactly when it was exposed and, if read-only, required nothing |
| Survey.ActionsExample | src/mcp_portal/configure/survey.py:34-112 | a requirement whose actions the defaults drop and accepting the group keeps |
| Survey.RunReconcile | src/mcp_portal/configure/reconcile.py:139-154 | the kept decisions followed by a survey of the new and changed operations, with the earlier ones as defaults |
| Survey.ReportCoversCurrent | src/mcp_portal/configure/reconcile.py:122-136 | a report lists every current id exactly once |
| Survey.ReconcileDecidesEachOnce | src/mcp_portal/configure/reconcile.py:139-154 | one decision per current id whatever is answered: kept ones are the earlier ones, others are about current operations |
| PolicyFile.RenderPolicy | src/mcp_portal/configure/write.py:95-197 | the two loops over rules and decisions render the function's policy |
| PolicyFile.KeepsForeignRules | src/mcp_portal/configure/write.py:157-168 | rules that are not owned stay, in order, and no other rule is added for an id that a kept id-shaped rule speaks for |
| PolicyFile.KeptExactly | src/mcp_portal/configure/write.py:123-192 | an operator's rule that matches more than one managed id or says more than a type and actions is kept; any other stays only if a decision calls for just it |
| PolicyFile.LeavesOthersAlone | src/mcp_portal/configure/write.py:95-197 | rendering changes no decision of the engine on an operation that no managed id matches as a pattern |
| PolicyFile.OwnsWhatWasDecided | src/mcp_portal/configure/write.py:170-192 | the owned rules are exactly those the decisions call for |
| PolicyFile.RenderingIsFixpoint | src/mcp_portal/configure/write.py:95-197 | rendering again with the same decisions changes nothing |
| PolicyFile.RenderingKeepsValidity | src/mcp_portal/config/policy.py:92-104 | a policy that validates still does, with its default kept |
| PolicyFile.PlainDecisionIsEnforced | src/mcp_portal/configure/write.py:176-192 | for every id without a bracket expression, the engine refuses a call whose details do not cover what the survey decided |
| PolicyFile.EnforcedExactly | src/mcp_portal/configure/write.py:176-192 | in a new file a decision is enforced against callers without details exactly when its id matches itself; for ids without a star, exactly when they have no bracket expression |
| PolicyFile.BracketIdExample | src/mcp_portal/configure/write.py:176-192 | a decision that is written and not enforced |
| PolicyFile.RequirementReadExactly | src/mcp_portal/configure/reconcile.py:23-33 | the requirement read back is the first that a rule in front of the decision's own demands of the operation, and otherwise the decided one |
| PolicyFile.RequirementComesBack | src/mcp_portal/configure/reconcile.py:23-33 | it is the decided one, or none, when no other rule demands something of the operation |
| PolicyFile.DecisionsFromFiles | src/mcp_portal/configure/reconcile.py:36-95 | reading with the requirements of a policy file |
| PolicyFile.OwnedIsExpressibleExactly | src/mcp_portal/configure/write.py:123-141 | a replaced rule said no more than a type and actions exactly when it carried no empty identifier |
| PolicyFile.EmptyIdentifierExample | src/mcp_portal/configure/write.py:123-141 | such a rule, and a caller refused before rendering and allowed after it |
| Policy.CoverageIsPreorder | src/mcp_portal/auth/rar.py:44-55 | coverage of single details is reflexive and transitive |
| Policy.CoversOneExactly | src/mcp_portal/auth/rar.py:44-55 | one detail covers another exactly when it has its type, everything on its lists, and its identifier if it names one |
| Policy.GrantsDoNotCompose | src/mcp_portal/auth/rar.py:34-41 | if no single presented detail of the type holds both of two required values, of whatever lists, the requirement is not covered |
| Globs.PlainMeansExactly | src/mcp_portal/policy.py:29 | a pattern without a class takes exactly the names that can be cut so that each star stands for any part, each question mark for one character, every other character for itself |
| Globs.ListMeansExactly | src/mcp_portal/policy.py:29 | a class takes one character it lists, or with `!` one it does not |
| Globs.RangeMeansExactly | src/mcp_portal/policy.py:29 | a class with a range takes one character between its ends, or with `!` one outside |
| Globs.MatchesItselfExactly | src/mcp_portal/policy.py:29 | a pattern without a star matches its own text exactly when none of its brackets begins a class |
| Globs.PlainMatchesItself | src/mcp_portal/policy.py:29 | without a class every text, stars included, matches itself as a pattern |
| Globs.BracketExample | src/mcp_portal/policy.py:29 | `a[1]` does not match itself |
| Policy.LooserMatchesMore | src/mcp_portal/policy.py:28-37 | loosening or omitting lists of a match never loses an operation, and an empty match applies everywhere |
| Policy.AccumulatedDetails | src/mcp_portal/policy.py:44-60 | the loop concatenates the requirements of the rules in order |
| Policy.PolicyEngine.EvaluateCall | src/mcp_portal/policy.py:67-78 | the engine's decision is the decision function of its policy |
| PolicyMeaning.ExcludedRuleIsInert | src/mcp_portal/policy.py:28-37 | a rule of which one non-empty list has nothing of the operation changes no decision on it |
| PolicyMeaning.AllowsExactly | src/mcp_portal/policy.py:67-78 | allowed means that one presented detail meets each entry of each rule that does not exclude the operation, on the file's own fields, and there is one or the default allows |
| PolicyMeaning.MissingSays | src/mcp_portal/policy.py:77 | what is missing repeats the entries that are not met |
| PolicyMeaning.CarrySays | src/mcp_portal/policy.py:70-71 | what is carried repeats the entries of the rules that ask for it |
| Policy.AllowedExactly | src/mcp_portal/policy.py:67-78 | allowed means every demand of every matching rule is covered and there is one or the default allows; missing is the uncovered demands |
| Policy.DenyMeansMatched | src/mcp_portal/config/policy.py:92-104 | under a validated deny policy, allowed means a rule matches and all demands are covered |
| Policy.StrongerKeepsAllowed | src/mcp_portal/policy.py:77-78 | stronger presented details lose no permission and miss nothing new |
| Policy.AddedRuleAllowsExactly | src/mcp_portal/policy.py:67-78 | an added rule turns deny into allow exactly under default deny with no earlier demand and its own demands covered |
| Policy.CarriedIsCovered | src/mcp_portal/policy.py:70-71 | on an allowed call every carried detail is covered by a presented one |

## Left out

- LocatesExactly: URL splitting, Python's `int()` and the fetcher are parameters; a fetcher answers the same way each time, and documents are finite trees.
- Step: list indices are Python's, including negative ones; a Unicode digit string is whatever the `int()` parameter says.
- PromptIsOncePerLifetime: states what the cache would guarantee if a lock were handed over when released, which asyncio does not do; failed fetches, which store nothing, are not counted.
- ServedInTime: wall and monotonic clocks advance together, as the source assumes; floating-point rounding is not modelled.
- Preserved: keywords outside type, nullable, bounds, enum, required, properties, items and the combinators are not given a meaning; properties named `example` and enum values that conversion rewrites are outside the fragment.
- LossyExactly: a schema with a lossy part below its root is outside it; ConvertedMeansDropped states what becomes of those.
- ConvertSchema: the order of members is not modelled; with both `example` and `examples` present, the value of `example` wins as when it comes last.
- IdempotentExactly: assumes that a nullable schema's `type` is a name or a list of names, since the source raises a TypeError otherwise.
- QueryAndHeaders: header names are compared exactly, as the source's dictionary does; HTTP's case-insensitive names are left out.
- BuildRequest: `json.dumps` and the text of numbers are left out; a body is its fields, a scalar its text.
- ArgumentsComeBack: characters are Unicode scalar values; lone surrogates, which Python strings may hold and `quote` rejects, are not modelled.
- PathIsSubstitution: templates with stray braces are outside it and of what follows from it; StrayBracesDependOnOrder shows why.
- BuildInputSchema: schemas are carried unread; the body's properties and required names are separate fields of the model, and keywords dropped from a flattened body are not listed.
- MappersAgree: blanks are the ASCII ones; `strip` in Python also removes other Unicode blanks, which no valid name contains.
- MeansExactly: custom scalars, enums and input objects, which all become strings, have no meaning here; numbers are reals, so that 1.0 is an integer.
- BuildDocument: the operation's description, title and classification are not modelled; reading a schema from an introspection response is left out.
- RunAttempts: one loop stands for both transports, whose loops differ in nothing; sleeps do not overshoot; the jitter draw is a parameter.
- HeaderRaisesExactly: digits outside ISO 8859-1, some of which `float` reads and some not, are not modelled; ASCII digits and superscripts are.
- DecisionsFromConfig: what the policy requires of an operation is a parameter; DecisionsFromFiles puts the policy file's requirements in its place.
- ReadBackExactly: methods are upper-cased as ASCII; `str.upper` also changes other letters, which no HTTP method has.
- SecondRunExactly: the second import is the first's; for another import there are ReportCoversCurrent and ReconcileDecidesEachOnce.
- DiffOperationIds: bindings are compared as values; the parameter style, which has one legal value, is not a field.
- RenderConfig: YAML round trips, diff text and the confirmation prompt are left out.
- EvaluateCall: parsing presented details from claims is left out.
- MatchesItselfExactly: patterns are compared as on a case-sensitive system; a class whose leading backward range hides a `!`, which Python then reads as a negation, is not modelled; for patterns with a star only PlainMatchesItself is claimed, and StarExample shows that a class need not prevent the match.
- HTTP, the identity provider, JWT and JWK cryptography, the MCP server, pydantic parsing, naming, merging and classification tables, response mapping and logging are not part of this model.
