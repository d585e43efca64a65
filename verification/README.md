# The analysis engine of cxx-dead, modelled and verified in Dafny

cxx-dead finds C++ definitions that nothing reaches. Frontends turn each translation unit into a
batch of symbols and facts (edges, roots, escapes, suppressions); everything after that is the
engine modelled here.

| part | modules |
|---|---|
| symbols, identities and keys | `Symbols`, `Text`, `Identities`, `IdentityInvariant` |
| the graph: adding, merging, canonical form | `Facts`, `Merging`, `Canonical`, `Graphs`, `MergeGraphs`, `MergeOrder`, `MergePlace`, `MergeAcceptance`, `Declarations`, `Orderings` |
| provider policies | `Providers`, `KeyedProviders`, `PolicyLaws` |
| reachability, dead components, condensation | `Digraph`, `Traversal`, `Tarjan`, `TarjanRun`, `Arrangement`, `Condensation`, `Analysis`, `KeyedAnalysis`, `Liveness` |
| JSON | `Json`, `JsonGrammar`, `JsonSound`, `JsonText`, `JsonRfc`, `JsonParser`, `JsonLayout`, `JsonDocuments` |
| SHA-256 | `Fips180`, `Fips180Constants`, `Fips180Example`, `Sha256` |
| the translation-unit cache | `Streams`, `CacheText`, `CacheRoundTrip`, `CacheReader`, `CacheKey`, `Cache` |
| indexing, with and without the cache | `Dispatch`, `Units`, `Indexing`, `IndexLaws`, `Runs`, `AstLimits`, `RecordNames`, `LineIndex` |
| graph artifacts | `SortKeys`, `Artifact`, `ArtifactRoundTrip`, `ArtifactLaws`, `ArtifactReader` |
| reports | `Lines`, `Findings`, `Report`, `ReportBuild`, `ReportLaws` |
| comparing two graphs | `Differential`, `DifferentialLaws`, `Comparisons` |
| commands, response files, build targets | `Shell`, `ShellGrammar`, `ResponseFiles`, `ResponseChains`, `Targets` |
| child processes | `Supervision`, `Causes`, `Outcomes` |

How it fits together. A graph is modelled twice: as the class `Graphs.Graph`, whose methods update
the vectors and the key index as the program does, and as a value, `Facts.Contents`, on which the
functions of the specification work. What a graph *says* is its `View`: the symbols by key and the
set of facts between keys. `Canonical` proves that canonical form is a normal form of views;
`Merging` and `Providers` prove that merging and policies act on views. Cache transparency, the
artifact and cache round trips, order independence and the differential laws are all read off from
that. Loops over mutable state are methods proved against functions; the laws are lemmas about
those functions. The helper predicates that functions and methods share (which kinds of edge are
followed, what makes two declarations compatible, what a policy matches) are each tied, in
`Declarations`, `Liveness`, `PolicyLaws`, `IndexLaws`, `Comparisons`, `Outcomes` and `Orderings`, to
what they mean with every field and kind written out. Strings are sequences of characters; bytes are characters below 256.

`dafny verify dfyconfig.toml` checks the whole project.

Where the code differs from what one would expect of it:

- A name conflict between declarations can go unnoticed (`MergeOrder.ConflictCanHide`): an empty
  `name` is never filled in. `MergeAcceptance.MergeAllIff` says exactly when the batches are accepted
  in the order in which they arrive: where all else agrees, a name conflict goes unnoticed exactly
  when the first batch that declares the key gives it no name
  (`MergeAcceptance.NameConflictUnnoticedIff`). `MergeOrder.EveryOrderIff` gives the exact condition
  for all orders to be accepted.
- The limit on the output of the compiler is looked at only when a unit is not in the cache: a run
  can complete with the cache and be refused without it (`AstLimits.LimitUnseenOnHit`).
  `Runs.WarmEqualsColdIff` says exactly when the cache makes no difference, and `Runs.IndexHistory`
  that it makes none to a run whose limit is no narrower than those of the runs before it.
- The description of a selector, which stands for it in cache keys, does not determine it
  (`Providers.DescriptionsCollide`); `Providers.DescribeIff` and `Providers.DescribedOnceIff` say
  exactly when it does.
- The place of a merged symbol can depend on arrival order (`MergePlace.PlaceCanDependOnOrder`).
  `MergePlace.PlaceOrderIff` says exactly when it does not: when all declarations that can give the
  place have the same one. Where all have a place, a declaration can give it if it is a definition
  (or nothing is), it is of the strongest scope or a mere declaration beside the definitions is,
  and no definition of the strongest scope comes before it.
- When one declaration is merged into another, the signature need not come from the one that gives
  the place (`MergePlace.PlacelessGivesSignature`); `MergePlace.SignatureFollowsPlaceIff` says exactly
  when it does. Among any number of declarations that all have a place and a signature it always does
  (`MergePlace.SignatureFollowsPlace`).
- A child that died of a signal need not be reported so (`Supervision.SignaledCanBeReplaced`): a
  reason to end it may still come before its pipes close. `Causes.SignaledIff` gives the exact
  condition on what the system reported.
- The JSON parser refuses some texts of RFC 8259 (`JsonRfc.LoneSurrogateRefused`): it asks that a
  high surrogate be followed by a low one. `JsonRfc.AcceptedIff` gives the exact condition. Bytes
  above 0x7f are taken as they are, whether or not they are UTF-8 (`JsonRfc.StrayByteAccepted`).
- `split_json_documents` drops strings at the top level without an error and refuses numbers and
  literal names there (`JsonDocuments.StringsAreDropped`, `JsonDocuments.SplitPrinted`); it gives
  every value exactly when all are arrays and objects (`JsonDocuments.SplitGivesAllIff`).
- Which class a base name stands for can depend on the order of a hash map, and with it the override
  edges (`RecordNames.BaseDependsOnOrder`). `RecordNames.ResolvedOnceIff` says exactly when the class
  does not, and `RecordNames.SameDispatchIff` when the edges do not.
- The artifact writer prints documents that the reader refuses (`ArtifactRoundTrip.WrittenRefused`);
  `ArtifactRoundTrip.WrittenReadIff` says exactly which.

## Model

| member | source | states |
|---|---|---|
| `Identities.KeyIff` | src/graph.cpp:270-294 | Two identities have the same stable key if and only if configuration, anchor kind, anchor value and translation unit agree: length-prefixed components cannot be confused, and no other field matters. |
| `Identities.SameKeyIff` | src/graph.cpp:270-294 | Two identities have one key if and only if configuration and translation unit agree and both name the symbol by the same linkage name, or lacking that by the same USR, or lacking both by the same fallback anchor. |
| `IdentityInvariant.MergeKeepsIdentity` | src/graph.cpp:27-62 | Merging two compatible well-identified declarations of one key gives a symbol whose key is still the one its merged identity determines, with a consistent quality. |
| `IdentityInvariant.AddKeepsIdentities` | src/graph.cpp:98-112 | Every accepted addition keeps key and identity linked in the whole graph. |
| `IdentityInvariant.MergeKeepsIdentities` | src/graph.cpp:296-313 | Merging whole graphs keeps key and identity linked. |
| `Merging.AddSymbolView` | src/graph.cpp:98-112 | A symbol with a key and a scope other than excluded is refused exactly when its key is taken by an incompatible one; otherwise the graph changes at that key alone. |
| `Declarations.CompatibleIff` | src/graph.cpp:30-55 | Two declarations are compatible if and only if kind, linkage, configuration, linkage name and translation unit are equal, and in each of qualified name, name, owning class and USR some text completes both. |
| `Declarations.AddedIff` | src/graph.cpp:98-112 | A declaration is added or merged if and only if it has a key and a scope other than excluded and is compatible in this sense with the symbol that has its key, if there is one. |
| `Declarations.NoSay` | src/graph.cpp:30-55 | Whether one declares or defines, virtuality, scope, signature, place, fallback anchor and quality have no say in acceptance. |
| `Declarations.ConflictIsFirst` | src/graph.cpp:30-55 | A refusal names the first of the nine fields, in the order in which they are compared, in which the two declarations differ. |
| `Declarations.MergedScope` | src/graph.cpp:12-24 | The merged scope is reportable if one of the two is, else indexed if one is, else external and opaque if one is. |
| `Declarations.PlaceOrder` | src/graph.cpp:73-78 | Places are compared by file, then line, then column, then offset. |
| `Merging.MergeRefinesView` | src/graph.cpp:296-313 | Merging a graph fails exactly when two symbols with one key are incompatible, and otherwise joins symbols key by key and unites the facts by key, whatever the ids were. |
| `MergeOrder.MergeAllJoins` | src/graph.cpp:27-69 | Pairwise compatible batches always merge, and the outcome is their join: the names some of them give, the least fallback anchor, the strongest scope, united flags and facts. |
| `MergeOrder.MergeOrderIrrelevant` | src/graph.cpp:296-313 | Any order (and any repetition) of compatible batches gives the same keys, identities, scopes, flags, edges, roots, escapes and suppressions. |
| `MergeOrder.EveryOrderIff` | src/graph.cpp:27-55 | Batches are accepted in every order if and only if their equal-key symbols are pairwise compatible. |
| `MergeAcceptance.EveryOrderOneEntity` | src/graph.cpp:30-55 | The same, told from the fields: batches are accepted in every order if and only if all their declarations of a key agree in domain and have a common completion of each name. |
| `MergeOrder.ConflictCanHide` | src/graph.cpp:37-38 | Counterexample: three declarations, two of them with conflicting names, are accepted in one order and rejected in another, because an empty name is never filled in. |
| `MergeAcceptance.MergeAllIff` | src/graph.cpp:27-62 | In the order in which they arrive, batches are accepted if and only if, at every key, the declarations agree pairwise in all compared fields but the name, and the first has no name or the others have none or the same. Each symbol is then what its declarations, in that order, are merged into. |
| `MergeAcceptance.NameConflictUnnoticedIff` | src/graph.cpp:37-38 | Where all else agrees, a conflict of names goes unnoticed in this order if and only if, at every key that has one, the first declaration has no name. |
| `MergePlace.PlaceOfTwo` | src/graph.cpp:70-86 | Of two placed declarations the definition decides the place, then the stronger scope, then the earlier location, whichever of the two is merged into the other. |
| `MergePlace.PlaceOrderIff` | src/graph.cpp:70-86 | The place of a symbol merged from any declarations is the same in every merge order if and only if all declarations that can give it have the same place; which ones can is told by definedness, scope and location. |
| `MergePlace.PossiblePlaces` | src/graph.cpp:70-86 | The places that merge orders lead to are exactly those of the declarations that can give the place. |
| `MergePlace.CanGiveAmongPlaced` | src/graph.cpp:70-86 | Where all have a place: a definition if there is one, of the strongest scope or beside a mere declaration of the strongest scope, that no definition of the strongest scope comes before; without definitions, a first one of the strongest scope. |
| `MergePlace.PlaceOrderIrrelevant` | src/graph.cpp:76-86 | In particular, among declarations alike in definedness and scope and untied in location, every order and repetition gives one place. |
| `MergePlace.PlaceCanDependOnOrder` | src/graph.cpp:70-86 | Counterexample with mixed definedness and scope: the merged place depends on the order of three compatible declarations. |
| `Facts.WithView` | src/graph.cpp:114-155 | Adding a fact adds it to the key-level facts, once, and keeps the graph valid. |
| `MergePlace.SignatureOfTwo` | src/graph.cpp:86-93 | Of two placed declarations, the target with a signature, the one that gives the place gives the signature. |
| `MergePlace.SignatureFollowsPlace` | src/graph.cpp:70-93 | Of any number of declarations that all have a place and a signature, one gives both to the merged symbol. |
| `MergePlace.SignatureFollowsPlaceIff` | src/graph.cpp:77-93 | When one declaration is merged into another: exactly when place and signature come from one of the two, in terms of which has a place or a signature and which is the better one. |
| `MergePlace.PlacelessGivesSignature` | src/graph.cpp:81-93 | A peer without a place leaves the place alone but replaces the signature. |
| `Graphs.Graph.constructor` | src/graph.cpp:98-112 | A new graph is empty and satisfies the class invariant. |
| `Graphs.Graph.AddOrMergeSymbol` | src/graph.cpp:98-112 | The class keeps its key index the exact inverse of the symbol keys; the new state and the returned id are those of the specification, and an error leaves the state alone. |
| `Graphs.Graph.AddEdge` | src/graph.cpp:114-123 | Ids out of range are refused; an edge already present is not added again; nothing else changes. |
| `Graphs.Graph.AddRoot` | src/graph.cpp:125-133 | The same for roots. |
| `Graphs.Graph.AddEscape` | src/graph.cpp:135-145 | The same for escapes, with their optional origin. |
| `Graphs.Graph.AddSuppression` | src/graph.cpp:147-155 | The same for suppressions. |
| `Graphs.Graph.FindByKey` | src/graph.cpp:213-218 | The index lookup finds the one symbol with the key, or none. |
| `Graphs.Graph.Canonicalize` | src/graph.cpp:157-211 | Sorting ids, renumbering every fact and re-sorting the vectors in place yields exactly the canonical form, and the index is rebuilt. |
| `Canonical.CanonicalizeKeepsView` | src/graph.cpp:157-211 | Canonical form changes nothing that can be said by key and is strictly sorted. |
| `Canonical.CanonicalUnique` | src/graph.cpp:157-211 | Two canonical graphs with the same key-level facts are equal, id for id. |
| `Canonical.CanonicalNormalForm` | src/graph.cpp:157-211 | Two graphs have the same canonical form if and only if they say the same by key. |
| `Orderings.StringLessAt` | src/graph.cpp:161-163 | Strings are compared by the character at which they first differ; one that ends first is less. |
| `Orderings.SymbolsByKey` | src/graph.cpp:161-163 | The symbols of a canonical graph are sorted by key. |
| `Orderings.FactOrder` | src/graph.cpp:191-210 | Edges, roots, escapes and suppressions are sorted as the tuples of their ends, kind, provider and reason. |
| `Canonical.CanonicalizeIdempotent` | src/graph.cpp:157-211 | Canonicalizing twice is canonicalizing once. |
| `Canonical.MergeCanonicalized` | src/graph.cpp:296-313 | Merging a canonicalized batch and merging the batch itself fail alike and have the same canonical result. |
| `MergeGraphs.MergeGraph` | src/graph.cpp:296-313 | The loop over a source graph adds every symbol and every renumbered fact and refines the merge function; on a conflict the symbols added before it stay. |
| `Providers.ResolveUnique` | src/provider.cpp:230-243 | A selector resolves exactly when one symbol matches it, and then to that symbol. |
| `PolicyLaws.PoliciesMean` | src/provider.cpp:209-291 | Policies are accepted if and only if every entry of their six lists picks its symbols, each selector by its non-empty fields, and callback rules only if they must be unique; they add just the roots, public-API roots, edges, escapes and suppressions that the entries ask for. |
| `Providers.DescribeIff` | src/provider.cpp:219-228 | Two selectors that a configuration file may hold have one description if and only if they are the same, or both are by qualified name and name and signature are spelled alike. |
| `Providers.DescribedOnceIff` | src/provider.cpp:219-228 | Such a selector shares its description with no other if and only if it is not by qualified name, or has no signature and a name that does not look like a name with a signature. |
| `Providers.DescriptionsCollide` | src/provider.cpp:225-227 | Counterexample: the name f with signature g, and a name that looks like that, have one description. |
| `Providers.DescribedApart` | src/provider.cpp:219-228 | Where no qualified name has a quote in it, equal descriptions mean equal selectors. |
| `Providers.ApplyRequestsView` | src/provider.cpp:255-291 | A list of policy entries succeeds exactly when every selector picks one symbol, and then adds their facts and nothing else. |
| `Providers.PoliciesCommute` | src/provider.cpp:255-291 | A set of policies is accepted in one order exactly when it is in every other, with the identical canonical graph. |
| `Providers.ApplyProviderPolicies` | src/provider.cpp:255-291 | The method applies the entries to the graph in place and canonicalizes at the end if there was a policy; a failure leaves the facts of the entries before it. |
| `KeyedProviders.PoliciesByKey` | src/provider.cpp:209-291 | Whether policies are accepted, and what they add, depends on the key-level view alone, not on ids. |
| `Traversal.ReachedIsLeast` | src/graph.cpp:366-390 | What paths reach is the least set that contains the roots and is closed under the edges. |
| `Traversal.Traverse` | src/graph.cpp:366-390 | The worklist marks exactly what can be reached from the starting nodes. |
| `Analysis.Adjacency` | src/graph.cpp:355-363 | The two adjacency lists hold exactly the traversable edges whose source has an indexed body (opaque symbols are terminals), without the provider edges in the structural one. |
| `Analysis.AnalyzeReachability` | src/graph.cpp:352-522 | Reachable, structurally reachable and provider-reachable marks are exact; the components are exactly the maximal mutually reachable classes of the dead candidates, arranged in order; the condensation and its weak components are exact. |
| `Liveness.MarksAreLeast` | src/graph.cpp:220-243 | The reachable symbols are the least set that holds every root and, with each reportable or indexed symbol in it, the targets of all its edges; the structurally reachable ones the least such set for roots that no provider or callback gave and for calls, constructions and overrides. |
| `Liveness.ComponentsOfDead` | src/graph.cpp:402-455 | The components hold exactly the unreachable, reportable definitions that are not synthetic, two in one component if and only if each reaches the other over edges, of whatever kind, between such symbols. |
| `Liveness.CondensationOfEdges` | src/graph.cpp:472-489 | One component leads to another if and only if some edge, of whatever kind, leads from a member of the one to a member of the other. |
| `KeyedAnalysis.ReachableByKey` | src/graph.cpp:352-396 | A symbol is reachable by id exactly when its key is reachable in the key-level view. |
| `KeyedAnalysis.CanonicalizeKeepsReachable` | src/graph.cpp:157-211 | Canonicalizing keeps every symbol as live or as dead as it was. |
| `KeyedAnalysis.MergeOrderKeepsReachable` | src/graph.cpp:296-313 | Whatever the order in which compatible batches are merged, the same keys are live. |
| `KeyedAnalysis.ProviderOnlyHasEntry` | src/graph.cpp:391-396 | A symbol that is live, but not over a provider-free path, is reached through a provider edge or provider root that enters the provider-only region. |
| `TarjanRun.Search.PopComponent` | src/graph.cpp:434-441 | Popping down to a vertex takes exactly the part of the stack above and including it and clears exactly those marks. |
| `TarjanRun.Search.StrongConnect` | src/graph.cpp:414-450 | One recursive call keeps the colouring invariant, terminates, restores the stack below it, and leaves a low-link that some node on the stack attains. |
| `TarjanRun.Search.Leave` | src/graph.cpp:432-449 | A vertex whose low-link is its index is the root of a component, which is popped, sorted and recorded; any other vertex stays on the stack. |
| `TarjanRun.Search.Run` | src/graph.cpp:452-455 | Every candidate is in exactly one component, and components are the maximal classes of mutually reachable candidates. |
| `Tarjan.TopIsScc` | src/graph.cpp:432-441 | The nodes from a root of low-link equal to index upwards are mutually reachable and nothing else is mutually reachable with them. |
| `Tarjan.ScanAfterCall` | src/graph.cpp:424-426 | Taking the minimum with a visited successor's low-link keeps the scanning invariant. |
| `Tarjan.PartitionFromInv` | src/graph.cpp:452-455 | When every candidate is visited and the stack is empty, the invariant gives the partition. |
| `Analysis.DeadComponents` | src/graph.cpp:402-465 | The candidate search over the full adjacency lists partitions the dead candidates, with members and components in the listed order. |
| `Arrangement.ComponentOrderWeak` | src/graph.cpp:456-465 | The order of components by file, line, column and key of the first member is a strict weak order. |
| `Orderings.MembersByName` | src/graph.cpp:442-448 | Members of a component are sorted by qualified name, then signature. |
| `Orderings.ComponentsByFront` | src/graph.cpp:456-465 | Components are sorted by file, line, column and key of their first members. |
| `Condensation.Condense` | src/graph.cpp:467-489 | The condensation has an edge (i, j) exactly when i and j differ and some traversable edge joins a member of i to a member of j, once each and in order. |
| `Condensation.CondensationAcyclic` | src/graph.cpp:467-489 | Between maximal components the condensation has no cycle. |
| `Condensation.WeakComponents` | src/graph.cpp:491-518 | The groups found are exactly the classes of undirected connectivity of the condensation, each component in one, sorted. |
| `Analysis.CondensationOfDead` | src/graph.cpp:472-483 | Condensing all traversable edges (without the indexed-body test) gives the condensation of the dead graph. |
| `JsonRfc.AcceptedIff` | src/json.cpp:80-345 | A text of the grammar of sections 2 to 7 of RFC 8259 is accepted if and only if every high surrogate is followed at once by a low one, the names in each object differ, and its numbers are representable. |
| `JsonRfc.ParseIffRfc` | src/json.cpp:80-93 | The parser returns a value exactly for the texts of that grammar that are acceptable in this sense and denote the value. |
| `JsonRfc.LoneSurrogateRefused` | src/json.cpp:240-252 | Counterexample: the string of one high surrogate is in the grammar of RFC 8259 and is refused. |
| `JsonRfc.StrayByteAccepted` | src/json.cpp:199-206 | Input where bytes that are not UTF-8 are accepted: a string of the one byte 0x80, whose value is that byte. |
| `JsonRfc.ShortEscapes` | src/json.cpp:207-232 | The eight escapes of one character and what each stands for. |
| `JsonRfc.HexDigitsMean` | src/json.cpp:172-190 | The sixteen hexadecimal digits, in either case, and their values. |
| `JsonSound.ParseIffGrammar` | src/json.cpp:80-93 | The parser returns a value for a text if and only if the text has a tree, with surrogates in pairs, distinct names and representable numbers, that denotes the value. |
| `JsonSound.DocumentSound` | src/json.cpp:80-345 | Whatever is accepted has such a tree, and the value is the one the tree denotes. |
| `JsonGrammar.DocumentRead` | src/json.cpp:80-93 | Every text with such a tree is accepted with its value, whatever blanks surround its tokens. |
| `JsonGrammar.TreeRead` | src/json.cpp:119-144 | A well-formed value followed by anything that cannot continue it is read as its meaning, and nothing more is consumed. |
| `JsonSound.EscapeSound` | src/json.cpp:154-258 | An accepted escape is one of the eight short ones, a quad, or a surrogate pair. |
| `JsonText.EscapeString` | src/json.cpp:358-394 | Byte for byte, the loop writes the escaped form. |
| `JsonText.EscapeRoundTrip` | src/json.cpp:358-394 | Parsing an escaped string in quotes gives the string back, for every string of bytes. |
| `JsonText.Utf8RoundTrip` | src/json.cpp:154-170 | The bytes written for a Unicode scalar value are its encoding of section 3 of RFC 3629: decoding gives the value back. |
| `JsonText.EscapeDenotesScalar` | src/json.cpp:172-258 | An escape of a scalar value, as one quad or as a surrogate pair, is read as the UTF-8 encoding of that value. |
| `JsonParser.Parser.ReadHexQuad` | src/json.cpp:172-190 | The cursor routine reads four hexadecimal digits as the specification does, with the same error and position. |
| `JsonParser.Parser.ReadString` | src/json.cpp:192-258 | The loop over a string returns what the specification returns, and the cursor stands behind the closing quote. |
| `JsonParser.Parser.ReadNumber` | src/json.cpp:260-305 | The same for number tokens: sign, whole part without leading zeros, fraction, exponent. |
| `JsonParser.Parser.ReadArray` | src/json.cpp:307-321 | The same for arrays; trailing commas are refused. |
| `JsonParser.Parser.ReadObject` | src/json.cpp:323-345 | The same for objects; a repeated name is refused. |
| `JsonParser.Parser.ReadValue` | src/json.cpp:119-144 | The same for any value, by its first byte. |
| `JsonParser.Parser.ReadDocument` | src/json.cpp:80-93 | The cursor-moving reader and the parsing function agree on every input, error positions included. |
| `JsonLayout.PrintedParses` | src/json.cpp:80-345 | A printed tree, with blanks after it, is parsed to the value it denotes. |
| `JsonDocuments.SplitJsonDocuments` | src/indexer.cpp:951-990 | The scan with depth, string and escape flags computes the split of the specification. |
| `JsonDocuments.SplitPrinted` | src/indexer.cpp:951-990 | Any values of the grammar, written one after another with blanks between them, are split without an error if and only if none is a number or a literal name, and then into exactly the arrays and objects: brackets and quotes inside strings do not matter, and strings are dropped. |
| `JsonDocuments.SplitGivesAllIff` | src/indexer.cpp:951-990 | The split gives every value if and only if all are arrays and objects, and each then parses to its value. |
| `JsonDocuments.StringsAreDropped` | src/indexer.cpp:960-985 | Counterexamples: a lone string gives no document and no error, a lone number is an error. |
| `JsonDocuments.BlanksBefore` | src/indexer.cpp:983 | Between documents may stand exactly spaces and the characters from tab to carriage return. |
| `Sha256.Hasher.Update` | src/cache.cpp:25-35 | Feeding bytes appends them to the message hashed so far, whatever the buffer holds. |
| `Sha256.Hasher.Transform` | src/cache.cpp:73-122 | One compression of the full buffer is the function of section 6.2.2 of FIPS 180-4 on that block. |
| `Sha256.Hasher.PadMessage` | src/cache.cpp:37-47 | The padding leaves exactly the bytes of section 5.1.1 up to the length field, flushing an extra block when fewer than eight bytes remain. |
| `Sha256.Hasher.Finish` | src/cache.cpp:37-57 | The digest is that of FIPS 180-4 for the whole message fed, for every message under 2^64 bits. |
| `Sha256.HashChunks` | src/cache.cpp:137-150 | The digest of a file read in chunks does not depend on where the chunks end. |
| `Sha256.Expand` | src/cache.cpp:74-92 | The 64 schedule words are those of the standard. |
| `Fips180Constants.ConstantsFromPrimes` | src/cache.cpp:60-71 | Each of the 64 round constants is the first 32 bits of the fractional part of the cube root of the prime at its place, and the initial words those of the square roots of the first eight. |
| `Fips180Constants.PrimesListed` | src/cache.cpp:60-71 | The list of these primes holds exactly the primes up to 311. |
| `Fips180Example.ExampleDigest` | src/cache.cpp:125-130 | The digest of "abc" is the one that the example of the standard gives: schedule, rounds, padding and output all agree with it. |
| `Streams.QuotedBack` | src/cache.cpp:209-223 | Quoted text is read back unchanged for every string, with quotes, backslashes and blanks. |
| `Streams.BlankIff` | src/cache.cpp:442-444 | After an entry may stand exactly spaces and the characters from tab to carriage return. |
| `CacheRoundTrip.EntryWithTail` | src/cache.cpp:325-446 | What was written, followed by more text, is accepted if and only if its counts are within the limits of the reader and the rest is blank; it then gives the entry with its graph in canonical form. |
| `CacheRoundTrip.EntryRoundTrip` | src/cache.cpp:259-446 | Reading a written entry under the same key gives the entry with its graph canonicalized; one with a count over its limit is written and never read. |
| `CacheRoundTrip.OtherKeyRejected` | src/cache.cpp:325-335 | An entry written under one key is not read under another. |
| `CacheRoundTrip.EntryReadValid` | src/cache.cpp:325-446 | No text, however it was made, is read as an invalid graph. |
| `CacheRoundTrip.GraphBack` | src/cache.cpp:376-442 | A written valid graph is read back, every symbol and fact re-added through the checked operations, if and only if its five counts are within the limit. |
| `CacheReader.Read` | src/cache.cpp:325-446 | The reader that fills an entry and a graph in place computes the reading function, errors included. |
| `CacheReader.FillGraph` | src/cache.cpp:374-446 | Symbols and facts are added one by one to the graph object, with the error of the first that is refused. |
| `CacheKey.PartsInjective` | src/cache.cpp:189-202 | A text of named, length-prefixed components determines the components. |
| `CacheKey.KeyTextIff` | src/cache.cpp:502-557 | Two extractions have the same key text if and only if they agree on the file, the arguments, the tool, every option, path and environment variable that goes into it, and on every callback rule, of its selector only the description. |
| `Cache.HitIff` | src/cache.cpp:559-604 | A lookup is a hit if and only if the stored text is an entry for the key, the entry lists the source among its dependencies, and every dependency still has the recorded digest. |
| `Cache.StaleIff` | src/cache.cpp:563-603 | An entry is passed over in silence if and only if there is none, or it is an entry for the key that names the source and the first of its dependencies that changed still exists and has a recorded digest; in all other cases it is reported as unusable. |
| `Cache.LoadEntry` | src/cache.cpp:559-604 | The lookup with its early exits computes that decision, and the entry on a hit. |
| `Cache.DigestIsHex` | src/cache.cpp:37-57 | Digests are 64 lower-case hexadecimal digits, so they can stand in a file name and in an entry. |
| `Dispatch.AddVirtualDispatchEdges` | src/indexer.cpp:1057-1100 | Exactly one edge for each pair of a virtual method of an ancestor class and a method of the same name and signature that overrides it, whatever the order of classes; cycles in the hierarchy do no harm. |
| `Dispatch.AddClass` | src/indexer.cpp:1067-1099 | The pending and visited sets meet exactly the ancestors of one class. |
| `Dispatch.AllPairsAreDispatch` | src/indexer.cpp:1086-1096 | The pairs met by position are the override facts by key. |
| `IndexLaws.OverridesMean` | src/indexer.cpp:1086-1096 | The override facts are the edges from a virtual method of a class to a method of the same name and signature of a class that has it as an ancestor. |
| `Units.StoredRecordsMerge` | src/indexer.cpp:1265-1273 | Merging the sorted, duplicate-free records of an entry gives the same hierarchy as merging the records as the frontend found them. |
| `Units.HitIsFresh` | src/indexer.cpp:1243-1284 | With collision-free digests and selector descriptions, and a frontend that depends only on the files it lists, a hit is, up to canonical form, what the frontend would find now, with an output of the same size. Units over the entry limits, or with files that cannot be hashed, are covered: they give no entry that is read. |
| `Runs.IndexUnit` | src/indexer.cpp:1210-1478 | One unit changes graph, rule matches, records and diagnostics in the same way whether it comes from the cache or the frontend, and fails exactly when the frontend does, the facts contradict the graph, or the unit is not in the cache and its output is over the limit. |
| `Runs.IndexUnits` | src/indexer.cpp:1200-1488 | The loop over all units, with any mixture of hits and misses, computes the merge of all units, or fails exactly when that does not exist or a unit that is not in the cache is over the limit; every entry it stages belongs to its key and is within the limit. |
| `IndexLaws.UnitsMerge` | src/indexer.cpp:1200-1488 | The units can be merged if and only if the frontend has an answer for each, for all rules, and their graphs merge in their order; the outcome says what the merged graph says. |
| `IndexLaws.RulesMatched` | src/indexer.cpp:1466-1469 | A callback rule is matched if and only if a call in some unit matches it. |
| `IndexLaws.RuleFailureIff` | src/indexer.cpp:1492-1503 | A run fails on its rules if and only if some rule is matched in no unit. |
| `IndexLaws.DiagnosticsOfUnits` | src/indexer.cpp:1464-1465 | The messages collected are those of all units, in the order of the units. |
| `IndexLaws.RecordsOfUnits` | src/indexer.cpp:1470-1478 | The class hierarchy has exactly the classes and the base names that the units give. |
| `Runs.AddManualRoots` | src/indexer.cpp:1505-1519 | A root for every symbol a request names by qualified name, linkage name or key, and a message for every request that names none. |
| `Runs.CheckHeaders` | src/indexer.cpp:1529-1542 | A declared public header must be the reason of some public-API root. |
| `Runs.Finish` | src/indexer.cpp:1490-1566 | Dispatch edges, rule check, manual roots, policies, headers, root check, fallback messages and canonical form: exactly the finished index, or a failure exactly when it does not exist. |
| `IndexLaws.FinishedMeans` | src/indexer.cpp:1490-1566 | The index is finished if and only if every rule was matched, every policy entry picks its symbols, every public header declares a root and there is a root at all; it then holds exactly the facts of the units, the overrides, the requested roots and what the policies ask for, and exactly the messages that belong to these. |
| `IndexLaws.IndexMeans` | src/indexer.cpp:1142-1160 | There is an index if and only if there is a command, a library that must name its public API does so, the units can be merged and the finishing succeeds. |
| `Runs.IndexRun` | src/indexer.cpp:1142-1570 | One run, with or without a cache, presents the index that the units and files determine, or fails exactly when there is none or a unit that is not in the cache is over the limit; what it leaves in the store was there before or was made under its limit. |
| `Runs.Publish` | src/cache.cpp:483-500 | Moving staged entries into place, with any of the moves failing, leaves only genuine entries. |
| `Runs.IndexHistory` | src/indexer.cpp:1200-1570 | Any sequence of runs over changing files and limits, sharing one cache that starts empty: every run gives the index of its units as its files are, or fails as its limit demands of the units not in its cache; one whose limit is no narrower than those of all earlier runs gives exactly what it would give without the cache. |
| `Runs.WarmEqualsColdIff` | src/indexer.cpp:1222-1341 | With a cache and without one, a run gives the identical canonical graph and diagnostics, or fails in both cases, if and only if it fails with the cache too, or no unit that is taken from the cache has an entry over the limit. |
| `AstLimits.LimitUnseenOnHit` | src/indexer.cpp:1222-1341 | Counterexample: a run without a limit makes the entry; a second one over the same files with a limit of 128 bytes completes with the cache and is refused without it, although a limit of 129, which the output just meets, refuses nothing. |
| `RecordNames.ResolveRecordName` | src/indexer.cpp:1035-1055 | The search for the class of a base name: itself, in the scope of the owner, or any equivalent name. |
| `RecordNames.EquivalentMeans` | src/indexer.cpp:424-429 | A known name is equivalent to a base name if it is that name or ends with it after a colon. |
| `RecordNames.ContextualMeans` | src/indexer.cpp:1040-1046 | In the scope of its class, a base name stands after the last pair of colons in place of the name of the class. |
| `RecordNames.ResolvedOnceIff` | src/indexer.cpp:1035-1055 | The class found does not depend on the order of the hash map if and only if the name is known directly or at most one class has an equivalent name. |
| `RecordNames.BaseDependsOnOrder` | src/indexer.cpp:1047-1054 | Counterexample: D names a base B, and there are a::B and c::B: either may be found, and a virtual method of a::B has an edge to the method of D that overrides it in one case only. |
| `RecordNames.MayAncestorIff` | src/indexer.cpp:1057-1100 | A class is an ancestor under some order of the hash map if and only if it is reached along base names as they may be resolved, each occurrence by itself. |
| `RecordNames.AvoidableIff` | src/indexer.cpp:1057-1100 | It is no ancestor under some order if and only if there is a set of classes with the derived class in it, in which every base name can be resolved to a class of the set other than that one, or to none. |
| `RecordNames.SameDispatchIff` | src/indexer.cpp:1057-1100 | The override edges are the same for all symbols in every order of the hash map if and only if no class that may be an ancestor can be avoided in this sense. |
| `RecordNames.CertainNamesSuffice` | src/indexer.cpp:1035-1055 | In particular where every spelled base name is found in one way. |
| `RecordNames.WarmEqualsColdInAnyOrder` | src/indexer.cpp:1200-1570 | Then two runs over the same files, one with the cache, agree under the same condition as before whatever the order of their hash maps. |
| `Indexing.PresentationUnique` | src/indexer.cpp:1554-1566 | The graph and the diagnostics of a finished index are determined, ids and order included. |
| `LineIndex.LineStarts` | src/indexer.cpp:156-171 | The offsets listed are, in order, the positions at which a line starts. |
| `LineIndex.PointAt` | src/indexer.cpp:188-200 | A missing line is the number of line breaks before the offset plus one, and a missing column counts from the last of them; known ones and unreadable files change nothing. |
| `LineIndex.PointDeterminesPosition` | src/indexer.cpp:193-198 | Line and column determine the offset. |
| `ArtifactRoundTrip.ArtifactRoundTrip` | src/artifact.cpp:66-606 | Writing always succeeds for a graph, metadata and numbers that may be written, and reading gives the canonicalized graph, the same metadata and the sorted diagnostics without duplicates. |
| `ArtifactRoundTrip.WrittenReadIff` | src/artifact.cpp:66-606 | What was written for a valid graph is taken back if and only if quality and key of each symbol are those of its identity, sizes are at most 2^53-1, a target is whole and of a known kind, and closure targets have names; the writer checks none of these. |
| `ArtifactRoundTrip.WrittenRefused` | src/artifact.cpp:487-496 | Counterexample: an empty graph whose target has an id but neither name nor kind is written, and refused when it is read. |
| `ArtifactRoundTrip.DocumentDenotes` | src/artifact.cpp:66-238 | The text written parses to the intended document value. |
| `ArtifactRoundTrip.SymbolReadBack` | src/artifact.cpp:387-440 | A written symbol is read back field by field exactly when its quality and key are those of its identity and its sizes are exact; otherwise it is refused. |
| `ArtifactRoundTrip.GraphReadBack` | src/artifact.cpp:476-606 | Replacing ids by keys and finding the ids again gives a graph with the same key-level facts. |
| `ArtifactLaws.AcceptedIsSound` | src/artifact.cpp:452-606 | Whatever document is accepted, the graph is valid and canonical, keys are those of the identities, every symbol has the artifact's configuration, and the metadata is well formed. |
| `ArtifactLaws.AcceptedIsCurrent` | src/artifact.cpp:463-475 | Every document that is accepted is of artifact schema 7 and identity schema 1, and neither it nor a symbol or fact in it has an unknown key or lacks one. |
| `ArtifactLaws.SameViewSameText` | src/artifact.cpp:66-238 | Graphs that say the same by key are written as the same bytes. |
| `Orderings.WrittenOrder` | src/artifact.cpp:82-120 | Facts are written in the order of the keys of their ends, kind, provider and reason. |
| `ArtifactLaws.RewriteIsIdentical` | src/artifact.cpp:66-606 | Writing what was read back reproduces the document byte for byte. |
| `ArtifactReader.ReadArtifact` | src/artifact.cpp:452-606 | The reader that adds to the graph and the id map in loops computes the reading function, and fails at the first record with a flaw. |
| `Lines.EstimateLines` | src/report.cpp:143-173 | The estimate is the number of distinct (file, line) pairs covered by the measured members, whatever their order, overlap or adjacency; unmeasured members are counted. |
| `Lines.Sweep` | src/report.cpp:154-172 | Joining sorted ranges that overlap or touch counts the union of the ranges of one file. |
| `Lines.CoveredMono` | src/report.cpp:175-197 | Fewer members cover no more lines. |
| `Lines.CoveredBySet` | src/report.cpp:143-173 | The order of the members, and repeating one, does not matter. |
| `Findings.Classify` | src/report.cpp:14-61 | The classification and the evidence listed, with escapes in their order. |
| `Findings.ClassificationMeaning` | src/report.cpp:14-61 | Dead is said only of non-virtual symbols with internal linkage that do not escape; an escaping symbol is never called dead or likely dead. |
| `Findings.EvidenceMeaning` | src/report.cpp:28-59 | The evidence of a finding: no reachable path comes first, then every escape of the symbol in the order of the graph, or without escapes the one item for a virtual symbol or for internal linkage. |
| `Findings.SuppressionsInOrder` | src/report.cpp:272-289 | The suppressions of a symbol are told once each, in the order of the graph. |
| `Findings.CountedAll` | src/report.cpp:243-290 | The counters are the sizes of whole sets of symbols. |
| `Findings.Survey` | src/report.cpp:243-290 | One pass counts every scope and disposition, classifies exactly the dead definitions, and sets apart those with suppressions together with their evidence. |
| `Report.ProviderEntries` | src/report.cpp:291-330 | The list holds, once each and in order, exactly the provider edges and roots that lead from live symbols to provider-reachable reportable definitions. |
| `Report.PublicApiRoots` | src/report.cpp:228-242 | The public-API entries, once each and in order, and which symbols are their roots. |
| `Orderings.EntriesByKey` | src/report.cpp:318-341 | Entries are sorted by the keys of symbol and origin, then provider and reason. |
| `Report.SummarizeOwnership` | src/report.cpp:175-197 | One summary per non-empty owner, with its members, line estimate and unmeasured count. |
| `ReportBuild.BuildAggregate` | src/report.cpp:370-409 | A component lists the members of its strong components by key, with dispositions, lines and owner summaries. |
| `ReportBuild.BuildComponents` | src/report.cpp:365-415 | One aggregate for each weak component, holding exactly the condensation edges between its strong components. |
| `ReportBuild.BuildReport` | src/report.cpp:226-417 | The whole report is right for the graph and a correct analysis of it. |
| `Orderings.FindingsByPlace` | src/report.cpp:342-364 | Findings are sorted by file, line, qualified name and signature. |
| `Orderings.MembersByKey` | src/report.cpp:390-392 | The members of a reported component are sorted by key. |
| `ReportLaws.OwnersMean` | src/report.cpp:394-408 | Members are grouped by class, by the file of their location or, if that is unknown, of their beginning, and by the parent of that file; each group that has a name and a member is listed with exactly its members. |
| `ReportLaws.LinesMean` | src/report.cpp:143-172 | A line of a file is counted if and only if the extent of some member, where its macro is expanded or else where it is spelled, begins and ends in that file and covers it. |
| `ReportLaws.MeasuredMeans` | src/report.cpp:146-151 | A member is measured if and only if its extent covers a line. |
| `ReportLaws.CountsAddUp` | src/report.cpp:243-290 | Defined = reachable + unreachable = public API + internal live + internal unreachable; reachable = structural + provider; unreachable = actionable + suppressed. |
| `ReportLaws.ApiIsReachable` | src/report.cpp:261-266 | A public-API symbol is never counted as unreachable. |
| `ReportLaws.FindingsAreMembers` | src/report.cpp:272-289 | Findings and suppressed findings together are exactly the members of all components, each once. |
| `ReportLaws.EdgeInOneComponent` | src/report.cpp:411-415 | Every condensation edge is in exactly one component, and components hold no other edges. |
| `ReportLaws.OwnersWithinComponent` | src/report.cpp:394-408 | No owner is credited with more lines than its component, and every member with a named owner is in that owner's summary only. |
| `ReportLaws.MeasuredAndNot` | src/report.cpp:143-153 | Measured plus unmeasured members are all members. |
| `ReportLaws.ProviderEntryListed` | src/report.cpp:291-330 | Every provider-only definition is reached over an entry into the provider-only region, and an entry into a reportable definition is listed. |
| `Differential.SymbolState` | src/differential.cpp:113-136 | The state of a symbol, told from the report's findings, is the state that graph and analysis determine. |
| `Differential.EligibleSymbols` | src/differential.cpp:346-355 | The map holds exactly the keys of reportable non-synthetic definitions. |
| `Comparisons.KindMeans` | src/differential.cpp:365-399 | A key is new, removed, newly unreachable or became reachable if and only if the reportable, non-synthetic definitions with this key in the two graphs, and their marks, say so. |
| `Comparisons.StateMeans` | src/differential.cpp:113-136 | The state of a definition is reachable, or tells the classification, the evidence with origins as keys, and the suppressions, of the finding or suppressed finding about it. |
| `Differential.CompareKeys` | src/differential.cpp:365-417 | The loop over the sorted keys produces exactly one change for each key whose standing differs, with its tally. |
| `Differential.BuildDifferentialReport` | src/differential.cpp:328-419 | The whole comparison: refused exactly for contexts or a policy that do not fit, and otherwise the changes and tallies of all eligible keys. |
| `Comparisons.ContextOkIff` | src/differential.cpp:334-342 | Two artifacts are compared if and only if configuration, frontend and the three target fields agree and the policy is for all targets or for this one. |
| `DifferentialLaws.TallyIsSizes` | src/differential.cpp:400-415 | Each tally is the number of keys with that change. |
| `DifferentialLaws.Conservation` | src/differential.cpp:365-417 | New minus removed is the growth in eligible symbols; newly unreachable minus became reachable is the growth in unreachable common symbols. |
| `DifferentialLaws.DualTallies` | src/differential.cpp:400-415 | Swapping the two sides swaps the tallies in pairs. |
| `DifferentialLaws.SelfDifferenceEmpty` | src/differential.cpp:328-419 | A graph compared with the artifact written for it has no changes. |
| `DifferentialLaws.MatchIsFinding` | src/differential.cpp:150-160 | Every policy match is an unsuppressed finding of the current report, of a kind and classification that the policy names. |
| `Comparisons.MatchIff` | src/differential.cpp:150-160 | A change is a policy match if and only if the policy names its kind, some unsuppressed finding of the current report is about its key with a classification that the policy names, and the policy is for all targets or names the current one. |
| `Comparisons.MatchTally` | src/differential.cpp:400-417 | The tally of policy matches is the number of keys whose change matches. |
| `Shell.SplitShellCommand` | src/compile_database.cpp:183-245 | The character loop over quote, escape and token state computes the splitting function. |
| `Shell.SplitCommand` | src/compile_database.cpp:183-245 | Any list of arguments can be written as a command line that is split into exactly those arguments. |
| `Shell.BlanksPart` | src/compile_database.cpp:233 | Words are parted exactly by spaces, tabs, line feeds and carriage returns. |
| `ShellGrammar.SplitIff` | src/compile_database.cpp:183-245 | Splitting fails if and only if the text ends inside a quote or an escape, and otherwise gives exactly the words that it spells with bare, escaped, single-quoted and double-quoted pieces. |
| `ShellGrammar.SpelledSplit` | src/compile_database.cpp:194-245 | Pieces that stand together make one word, their concatenation; blanks outside quotes end it. |
| `ResponseFiles.Expansion.ExpandArgument` | src/compile_database.cpp:68-115 | An argument expands exactly when it fits depth, cycle, file and byte limits, to its depth-first flattening; the active set is restored in either case. |
| `ResponseFiles.Expansion.ExpandFile` | src/compile_database.cpp:85-115 | The same for the arguments of one file, with its bytes counted first. |
| `ResponseFiles.ExpandArguments` | src/compile_database.cpp:60-115 | A command expands exactly when all its arguments fit together, and the result holds no response argument. |
| `ResponseFiles.AllExpandedIsPlain` | src/compile_database.cpp:68-74 | No argument of a result is longer than one character and starts with an at sign. |
| `ResponseFiles.PlainUnchanged` | src/compile_database.cpp:70-73 | Arguments without response files are left as they are, and read no file. |
| `ResponseFiles.ResponseMeans` | src/compile_database.cpp:68-71 | An argument names a response file if and only if it is an at sign and a path that is not empty. |
| `ResponseChains.ExpandableIffChainsAllowed` | src/compile_database.cpp:75-91 | Apart from the byte limit, expansion succeeds if and only if, on every chain of files that name one another, no file repeats, there are at most sixteen, and each can be read and split. |
| `Supervision.Supervise` | src/process.cpp:137-201 | The loop runs the transition system and stops exactly when the child is reaped and both pipes are closed. |
| `Supervision.RunKeeps` | src/process.cpp:26-201 | In every run the retained output is the first part, up to the limit, of the bytes read; SIGTERM comes at most once, SIGKILL at most once, after it and after the grace period; the reason is that of the request or of the child. |
| `Supervision.RequestIsFinal` | src/process.cpp:128-135 | A requested termination keeps its reason and its time in all later rounds. |
| `Supervision.SignaledCanBeReplaced` | src/process.cpp:128-194 | Counterexample: a child that died of a signal can still be reported as cancelled, if a request comes before its pipes close. |
| `Causes.SignaledIff` | src/process.cpp:128-200 | A child is reported as signaled if and only if the round in which it was found to have ended says so and no round that was run brought a reason to end it. |
| `Causes.RequestedIff` | src/process.cpp:128-200 | A termination is requested if and only if some round that is run brings a cancellation, the deadline, a failed poll, output past the limit, or a failed wait. |
| `Causes.ReportedReason` | src/process.cpp:128-200 | The reason reported is the first that the rounds bring, in the order of the checks, and without any the child's own end. |
| `Causes.SignalIff` | src/process.cpp:182-194 | The result carries a signal if and only if the reaping round says that the child ended by one. |
| `Outcomes.ExitCode` | src/process.cpp:180-191 | The exit code is the one with which the child is first found to have ended, 128 and the signal number if a signal ended it, and -1 if it is not found so. |
| `Outcomes.SentSignals` | src/process.cpp:128-150 | SIGTERM is sent if and only if some round that is run brings a reason, at the time of the first; SIGKILL if and only if some round that is run starts at least the grace period after that, at the start of the first such round. |
| `Outcomes.KeptOutput` | src/process.cpp:26-45 | The output kept is what the rounds bring while the pipe is open, cut off at its limit, on both pipes; the supervision itself fails if and only if the system refuses a poll or a wait. |
| `Targets.SelectTarget` | src/build_model.cpp:245-274 | Succeeds exactly when one target is asked for, by name or id, or as the only executable. |
| `Targets.AskedMeans` | src/build_model.cpp:245-274 | A target is asked for if and only if it alone has the requested text as name or id, or without a request is the only executable. |
| `Targets.Closure.Visit` | src/build_model.cpp:458-473 | The recursive visit adds exactly targets reached from its argument, leaves no dependency of an added target unvisited, reports each missing dependency, and terminates on cycles. |
| `Targets.FindClosure` | src/build_model.cpp:456-473 | The closure is exactly what the selected target reaches over dependencies, each target once. |
| `Targets.SelectCommand` | src/build_model.cpp:489-518 | The candidate, owned and configured lists narrow down to the first of the commands that belong to a source most closely, refused when they differ. |
| `Targets.BuiltForIff` | src/build_model.cpp:276-282 | A command is built for a target if and only if its output lies, by whole path components, in the directory CMakeFiles/<name>.dir. |
| `Targets.ClosenessMeans` | src/build_model.cpp:489-518 | Of the commands for a source, those built for the target are closer, and closer still those whose object lies under the configuration in the first such directory. |
| `Targets.NeededMeans` | src/build_model.cpp:486-490 | A source is needed if and only if a target compiles it that the selected one reaches and that is an executable or a library with code. |
| `Targets.ChoiceExists` | src/build_model.cpp:489-518 | A command can be chosen if and only if some command compiles the source and the commands that belong to it most closely all do the same. |
| `Targets.ChoiceMeans` | src/build_model.cpp:284-287 | The choice is the first of the closest commands, and these differ in nothing but their output. |
| `Targets.SelectTargetCommands` | src/build_model.cpp:435-529 | Succeeds exactly when the target is selectable, and then lists the choices for all needed sources, in order and once each, with the sorted closure names and diagnostics. |
| `Targets.SelectionCovers` | src/build_model.cpp:484-523 | The files of the selected commands are exactly the sources that the closure compiles. |
| `Targets.ClosureSorted` | src/build_model.cpp:474-480 | The names of the closure are listed in order. |
| `Targets.NotesMean` | src/build_model.cpp:474-482 | There is a note exactly for each static library in the closure. |

## Left out

- The Clang frontends (AST walking, type strings, callable resolution, all of `src/libtooling_indexer.cpp`): an arbitrary function from a command and the files to a batch; that it depends only on the files it lists is a hypothesis of the cache theorems.
- Digest collisions: that the hashed texts and files have distinct digests, and the selectors in callback rules distinct descriptions, is a hypothesis of the cache theorems.
- The order of hash maps: within one run the resolution of base class names is a function, any of those that `RecordNames.MayResolve` allows.
- ArtifactReader.ReadArtifact: when one record has several flaws, the one named may differ, because the program evaluates the fields of a fact in an unspecified order and looks ids up among them.
- Parsing of compiler dependency files: part of the frontend's answer.
- JSON numbers: the token grammar is modelled; `from_chars` is a parameter that says which tokens are representable and, in the artifact reader, which natural number they stand for, exact up to 2^53-1.
- Integer widths: counts, ids and Tarjan indices are unbounded; the bit counter of SHA-256 and its 32-bit words wrap, and the length field of the standard is reduced modulo 2^64, which changes nothing for messages under 2^64 bits.
- The file system, clocks, environment, `fork`, `poll` and `waitpid`: maps from paths to contents, and rounds of answers from the system. A failed `poll` is taken to report nothing readable.
- Liveness of process supervision: if the system never reports the end of the child, the loop goes on.
- Path normalization and containment: paths are normalized strings; the parent directory of a path is a function parameter.
- Output streams: the writers are modelled by the text they produce. The entry's file name, temporary files and byte counts of staging are not modelled; publishing is.
- Timing, cancellation and time-outs of indexing: a run that is cancelled has no result and publishes nothing.
- Sorting: where the program's comparison leaves ties, one order is taken; results that depend on it are stated up to ties.
- MergeOrder.MergeOrderIrrelevant: does not speak of `name`, `source` and `signature`, which can depend on arrival order; `MergePlace` says exactly when `source` does not, and when `signature` goes with it, and `MergeAcceptance` that `name` is that of the first declaration.
- Reading of build models (`load_cmake_file_api`, `load_target_manifest`), policy files and compilation databases, and the choice of a build configuration by name: parsing with easy claims.
- `normalize_compile_command` and its failures: which arguments are dropped; it is not idempotent.
- Human-readable, JSON and SARIF output of reports, and the command line.
- The mutable `symbols()` accessor of the graph, and the size estimate of a graph in bytes.
