/** Graph artifacts: the JSON document written for a graph, and the strict reader. */
module Artifact {
  import opened Wrappers
  import opened Text
  import opened Orders
  import opened Symbols
  import opened Identities
  import opened Facts
  import opened Merging
  import opened Canonical
  import opened SortKeys
  import opened Json
  import opened JsonGrammar
  import opened JsonLayout

  const ARTIFACT_SCHEMA: nat := 7
  const IDENTITY_SCHEMA: nat := 1
  const LARGEST_SIZE := 9007199254740991

  datatype Frontend = AstJson | LibTooling

  datatype Metadata = Metadata(
    configurationId: string, configuration: string, targetId: string, targetName: string, targetKind: string,
    closureTargets: seq<string>, frontend: Frontend, translationUnits: nat)

  datatype Artifact = Artifact(graph: Contents, metadata: Metadata, diagnostics: seq<string>)

  const TARGET_KINDS := {"executable", "static_library", "shared_library", "module_library", "object_library",
                         "interface_library", "utility"}

  // ---- the names of enumeration values

  function QualityName(q: IdentityQuality): string {
    match q case Stable => "stable" case Fallback => "fallback"
  }

  function KindName(k: SymbolKind): string {
    match k
    case Function => "function" case Method => "method" case Constructor => "constructor"
    case Destructor => "destructor" case Synthetic => "synthetic"
  }

  function ScopeName(s: SymbolScope): string {
    match s
    case Reportable => "reportable" case Indexed => "indexed"
    case ExternalOpaque => "external_opaque" case Excluded => "excluded"
  }

  function EdgeKindName(k: EdgeKind): string {
    match k
    case DirectCall => "direct_call" case Constructs => "constructs" case VirtualDispatch => "virtual_dispatch"
    case CallbackEdge => "callback_registration" case ProviderEdge => "provider"
  }

  function RootKindName(k: RootKind): string {
    match k
    case ApplicationEntryPoint => "application_entry_point" case GlobalInitializer => "global_initializer"
    case Manual => "manual" case CallbackRoot => "callback_registration" case ProviderRoot => "provider"
    case PublicApi => "public_api"
  }

  function EscapeKindName(k: EscapeKind): string {
    match k
    case AddressTaken => "address_taken" case CallableObject => "callable_object" case ProviderEscape => "provider"
  }

  function FrontendName(f: Frontend): string {
    match f case AstJson => "ast-json" case LibTooling => "libtooling"
  }

  // ---- the order in which facts are written

  function SortKeyOf(x: Fact<string>): SortKey {
    match x
    case Edge(from, to, k, e) => SortKey(from, to, EdgeKindRank(k), e)
    case Root(symbol, k, e) => SortKey(symbol, "", RootKindRank(k), e)
    case Escape(symbol, origin, k, e) =>
      SortKey(symbol, if origin.Some? then origin.value else "", EscapeKindRank(k), e)
    case Suppression(symbol, e) => SortKey(symbol, "", 0, e)
  }

  predicate WrittenBefore(x: Fact<string>, y: Fact<string>) {
    SortKeyLess(SortKeyOf(x), SortKeyOf(y))
  }

  function KeyedList(symbols: seq<Symbol>, facts: seq<Fact<nat>>): seq<Fact<string>> {
    seq(|facts|, i requires 0 <= i < |facts| => Keyed(symbols, facts[i]))
  }

  function WrittenFacts(symbols: seq<Symbol>, facts: seq<Fact<nat>>): seq<Fact<string>> {
    Sort(WrittenBefore, KeyedList(symbols, facts))
  }

  // ---- the document

  const POINT_KEYS := ["file", "line", "column", "offset", "token_length"]
  const EXTENT_KEYS := ["location", "range"]
  const RANGE_KEYS := ["begin", "end"]
  const SOURCE_KEYS := ["spelling", "expansion"]
  const EVIDENCE_KEYS := ["provider", "reason"]
  const IDENTITY_KEYS := ["quality", "configuration_id", "usr", "linkage_name", "translation_unit", "fallback_anchor"]
  const SYMBOL_KEYS := ["id", "identity", "name", "qualified_name", "class_name", "signature", "kind", "scope",
                        "defined", "internal_linkage", "virtual", "source"]
  const EDGE_KEYS := ["from", "to", "kind", "evidence"]
  const ROOT_KEYS := ["symbol", "kind", "evidence"]
  const ESCAPE_KEYS := ["symbol", "from", "kind", "evidence"]
  const SUPPRESSION_KEYS := ["symbol", "evidence"]
  const CONTEXT_KEYS := ["configuration", "target_id", "target_name", "target_kind", "closure_targets"]
  const DOCUMENT_KEYS := ["artifact_schema_version", "identity_schema_version", "configuration_id", "analysis_context",
                          "frontend", "translation_units", "symbols", "edges", "roots", "escapes", "suppressions",
                          "diagnostics"]

  const DOCUMENT_LAYOUT := Layout("\n  ", "\n  ", "\n")
  const LIST_LAYOUT := Layout("\n    ", "\n    ", "\n  ")
  const SYMBOL_LAYOUT := Layout("\n      ", "\n      ", "\n    ")

  function PointTree(p: SourcePoint): Tree {
    ObjectTree(POINT_KEYS,
      [StringTree(p.file), NumberTree(p.line), NumberTree(p.column), NumberTree(p.offset), NumberTree(p.tokenLength)], INLINE)
  }

  function ExtentTree(e: SourceExtent): Tree {
    ObjectTree(EXTENT_KEYS, [PointTree(e.location), ObjectTree(RANGE_KEYS, [PointTree(e.begin), PointTree(e.end)], INLINE)], INLINE)
  }

  function SourceTree(s: SymbolSource): Tree {
    ObjectTree(SOURCE_KEYS, [ExtentTree(s.spelling), if s.expansion.Some? then ExtentTree(s.expansion.value) else TNull], INLINE)
  }

  function EvidenceTree(e: Evidence): Tree {
    ObjectTree(EVIDENCE_KEYS, [StringTree(e.provider), StringTree(e.reason)], INLINE)
  }

  function IdentityTree(i: Identity): Tree {
    ObjectTree(IDENTITY_KEYS,
      [StringTree(QualityName(i.quality)), StringTree(i.configuration), StringTree(i.usr), StringTree(i.linkageName),
       StringTree(i.translationUnit), StringTree(i.fallbackAnchor)], INLINE)
  }

  function SymbolTree(s: Symbol): Tree {
    ObjectTree(SYMBOL_KEYS,
      [StringTree(s.key), IdentityTree(s.identity), StringTree(s.name), StringTree(s.qualifiedName), StringTree(s.className),
       StringTree(s.signature), StringTree(KindName(s.kind)), StringTree(ScopeName(s.scope)), BoolTree(s.defined),
       BoolTree(s.internalLinkage), BoolTree(s.isVirtual), SourceTree(s.source)], SYMBOL_LAYOUT)
  }

  function NullableTree(s: string): Tree {
    if s == [] then TNull else StringTree(s)
  }

  function FactTree(x: Fact<string>): Tree {
    match x
    case Edge(from, to, k, e) =>
      ObjectTree(EDGE_KEYS, [StringTree(from), StringTree(to), StringTree(EdgeKindName(k)), EvidenceTree(e)], INLINE)
    case Root(symbol, k, e) =>
      ObjectTree(ROOT_KEYS, [StringTree(symbol), StringTree(RootKindName(k)), EvidenceTree(e)], INLINE)
    case Escape(symbol, origin, k, e) =>
      ObjectTree(ESCAPE_KEYS, [StringTree(symbol), if origin.Some? then StringTree(origin.value) else TNull,
                               StringTree(EscapeKindName(k)), EvidenceTree(e)], INLINE)
    case Suppression(symbol, e) =>
      ObjectTree(SUPPRESSION_KEYS, [StringTree(symbol), EvidenceTree(e)], INLINE)
  }

  function ListTree<T>(list: seq<T>, tree: T -> Tree): Tree {
    ArrayTree(seq(|list|, i requires 0 <= i < |list| => tree(list[i])), LIST_LAYOUT, "  ")
  }

  function ContextTree(m: Metadata): Tree {
    ObjectTree(CONTEXT_KEYS,
      [StringTree(m.configuration), NullableTree(m.targetId), NullableTree(m.targetName), NullableTree(m.targetKind),
       ArrayTree(seq(|m.closureTargets|, i requires 0 <= i < |m.closureTargets| => StringTree(m.closureTargets[i])), INLINE, "")],
      INLINE)
  }

  function FactsTree(c: Contents, facts: seq<Fact<nat>>): Tree {
    ListTree(WrittenFacts(c.symbols, facts), FactTree)
  }

  function DocumentTree(c: Contents, m: Metadata, diagnostics: seq<string>): Tree {
    ObjectTree(DOCUMENT_KEYS,
      [NumberTree(ARTIFACT_SCHEMA), NumberTree(IDENTITY_SCHEMA), StringTree(m.configurationId), ContextTree(m),
       StringTree(FrontendName(m.frontend)), NumberTree(m.translationUnits),
       ListTree(Sort(KeyLess, c.symbols), SymbolTree),
       FactsTree(c, c.edges), FactsTree(c, c.roots), FactsTree(c, c.escapes), FactsTree(c, c.suppressions),
       ListTree(SortUnique(StringLess, diagnostics), StringTree)],
      DOCUMENT_LAYOUT)
  }

  datatype WriteError = NoConfiguration | ForeignConfiguration

  /** Nothing is written for a graph of another configuration. */
  function Write(c: Contents, m: Metadata, diagnostics: seq<string>): Result<string, WriteError> {
    if m.configurationId == [] then Err(NoConfiguration)
    else if exists s :: s in c.symbols && s.identity.configuration != m.configurationId then Err(ForeignConfiguration)
    else Ok(TreeText(DocumentTree(c, m, diagnostics)) + "\n")
  }

  // ---- the reader

  datatype Flaw =
    | NotJson | NotAnObject | WrongKeys | MissingKey | NotAString | EmptyString | NotABoolean | NotASize | NotAnArray
    | UnsupportedValue | UnsupportedSchema | PartialTarget | BadIdentity | QualityMismatch | KeyMismatch
    | ConfigurationMismatch | DuplicateSymbol | UnknownSymbol | BadSymbol

  /** How number tokens are converted: which are representable, and which are integral sizes. */
  datatype Numbers = Numbers(representable: string -> bool, sizeOf: string -> Option<nat>)

  function RequireKeys(v: Value, keys: seq<string>): Result<map<string, Value>, Flaw> {
    if !v.Object? then Err(NotAnObject)
    else if v.fields.Keys != (set k | k in keys) then Err(WrongKeys)
    else Ok(v.fields)
  }

  function Lookup(m: map<string, Value>, key: string): Result<Value, Flaw> {
    if key in m then Ok(m[key]) else Err(MissingKey)
  }

  function StringField(m: map<string, Value>, key: string): Result<string, Flaw> {
    var v :- Lookup(m, key);
    if v.Str? then Ok(v.text) else Err(NotAString)
  }

  function NamedField(m: map<string, Value>, key: string): Result<string, Flaw> {
    var s :- StringField(m, key);
    if s == [] then Err(EmptyString) else Ok(s)
  }

  function NullableField(m: map<string, Value>, key: string): Result<string, Flaw> {
    var v :- Lookup(m, key);
    if v.Null? then Ok([]) else if v.Str? && v.text != [] then Ok(v.text) else Err(NotAString)
  }

  function BoolField(m: map<string, Value>, key: string): Result<bool, Flaw> {
    var v :- Lookup(m, key);
    if v.Bool? then Ok(v.truth) else Err(NotABoolean)
  }

  function SizeField(m: map<string, Value>, key: string, numbers: Numbers): Result<nat, Flaw> {
    var v :- Lookup(m, key);
    if !v.Number? then Err(NotASize)
    else match numbers.sizeOf(v.token)
      case Some(n) => if n <= LARGEST_SIZE then Ok(n) else Err(NotASize)
      case None => Err(NotASize)
  }

  function ArrayField(m: map<string, Value>, key: string): Result<seq<Value>, Flaw> {
    var v :- Lookup(m, key);
    if v.Array? then Ok(v.items) else Err(NotAnArray)
  }

  function ReadPoint(v: Value, numbers: Numbers): Result<SourcePoint, Flaw> {
    var m :- RequireKeys(v, POINT_KEYS);
    var file :- StringField(m, "file");
    var line :- SizeField(m, "line", numbers);
    var column :- SizeField(m, "column", numbers);
    var offset :- SizeField(m, "offset", numbers);
    var tokenLength :- SizeField(m, "token_length", numbers);
    Ok(SourcePoint(file, line, column, offset, tokenLength))
  }

  function ReadExtent(v: Value, numbers: Numbers): Result<SourceExtent, Flaw> {
    var m :- RequireKeys(v, EXTENT_KEYS);
    var range :- Lookup(m, "range");
    var r :- RequireKeys(range, RANGE_KEYS);
    var location' :- Lookup(m, "location");
    var begin' :- Lookup(r, "begin");
    var end' :- Lookup(r, "end");
    var location :- ReadPoint(location', numbers);
    var begin :- ReadPoint(begin', numbers);
    var end :- ReadPoint(end', numbers);
    Ok(SourceExtent(location, begin, end))
  }

  function ReadSource(v: Value, numbers: Numbers): Result<SymbolSource, Flaw> {
    var m :- RequireKeys(v, SOURCE_KEYS);
    var spelling' :- Lookup(m, "spelling");
    var expansion' :- Lookup(m, "expansion");
    var spelling :- ReadExtent(spelling', numbers);
    if expansion'.Null? then Ok(SymbolSource(spelling, None))
    else
      var expansion :- ReadExtent(expansion', numbers);
      Ok(SymbolSource(spelling, Some(expansion)))
  }

  function EvidenceField(m: map<string, Value>): Result<Evidence, Flaw> {
    var v :- Lookup(m, "evidence");
    var e :- RequireKeys(v, EVIDENCE_KEYS);
    var provider :- StringField(e, "provider");
    var reason :- StringField(e, "reason");
    Ok(Evidence(provider, reason))
  }

  function Supported<T>(r: Option<T>): Result<T, Flaw> {
    match r case Some(x) => Ok(x) case None => Err(UnsupportedValue)
  }

  function QualityNamed(s: string): Option<IdentityQuality> {
    if s == "stable" then Some(Stable) else if s == "fallback" then Some(Fallback) else None
  }

  function KindNamed(s: string): Option<SymbolKind> {
    if s == "function" then Some(Function) else if s == "method" then Some(Method)
    else if s == "constructor" then Some(Constructor) else if s == "destructor" then Some(Destructor)
    else if s == "synthetic" then Some(Synthetic) else None
  }

  /** The scope "excluded" is not accepted. */
  function ScopeNamed(s: string): Option<SymbolScope> {
    if s == "reportable" then Some(Reportable) else if s == "indexed" then Some(Indexed)
    else if s == "external_opaque" then Some(ExternalOpaque) else None
  }

  function EdgeKindNamed(s: string): Option<EdgeKind> {
    if s == "direct_call" then Some(DirectCall) else if s == "constructs" then Some(Constructs)
    else if s == "virtual_dispatch" then Some(VirtualDispatch) else if s == "callback_registration" then Some(CallbackEdge)
    else if s == "provider" then Some(ProviderEdge) else None
  }

  function RootKindNamed(s: string): Option<RootKind> {
    if s == "application_entry_point" then Some(ApplicationEntryPoint)
    else if s == "global_initializer" then Some(GlobalInitializer) else if s == "manual" then Some(Manual)
    else if s == "callback_registration" then Some(CallbackRoot) else if s == "provider" then Some(ProviderRoot)
    else if s == "public_api" then Some(PublicApi) else None
  }

  function EscapeKindNamed(s: string): Option<EscapeKind> {
    if s == "address_taken" then Some(AddressTaken) else if s == "callable_object" then Some(CallableObject)
    else if s == "provider" then Some(ProviderEscape) else None
  }

  function FrontendNamed(s: string): Option<Frontend> {
    if s == "ast-json" then Some(AstJson) else if s == "libtooling" then Some(LibTooling) else None
  }

  function IdentityField(m: map<string, Value>): Result<Identity, Flaw> {
    var v :- Lookup(m, "identity");
    var i :- RequireKeys(v, IDENTITY_KEYS);
    var configuration :- NamedField(i, "configuration_id");
    var usr :- StringField(i, "usr");
    var linkageName :- StringField(i, "linkage_name");
    var translationUnit :- StringField(i, "translation_unit");
    var fallbackAnchor :- StringField(i, "fallback_anchor");
    var qualityName :- NamedField(i, "quality");
    var quality :- Supported(QualityNamed(qualityName));
    Ok(Identity(configuration, usr, linkageName, translationUnit, fallbackAnchor, quality))
  }

  function SymbolFields(v: Value, numbers: Numbers): Result<Symbol, Flaw> {
    var m :- RequireKeys(v, SYMBOL_KEYS);
    var identity :- IdentityField(m);
    var key :- NamedField(m, "id");
    var name :- StringField(m, "name");
    var qualifiedName :- StringField(m, "qualified_name");
    var className :- StringField(m, "class_name");
    var signature :- StringField(m, "signature");
    var source' :- Lookup(m, "source");
    var source :- ReadSource(source', numbers);
    var kindName :- NamedField(m, "kind");
    var kind :- Supported(KindNamed(kindName));
    var scopeName :- NamedField(m, "scope");
    var scope :- Supported(ScopeNamed(scopeName));
    var defined :- BoolField(m, "defined");
    var internalLinkage :- BoolField(m, "internal_linkage");
    var isVirtual :- BoolField(m, "virtual");
    Ok(Symbol(key, identity, name, qualifiedName, className, signature, source, kind, scope, defined, internalLinkage, isVirtual))
  }

  /** A symbol whose quality or key is not the one its identity determines is refused. */
  function ReadSymbol(v: Value, numbers: Numbers): Result<Symbol, Flaw> {
    var s :- SymbolFields(v, numbers);
    match MakeIdentity(s.identity.configuration, s.identity.usr, s.identity.linkageName,
                       s.identity.translationUnit, s.identity.fallbackAnchor)
    case Err(_) => Err(BadIdentity)
    case Ok(i) =>
      if i.quality != s.identity.quality then Err(QualityMismatch)
      else if StableKey(s.identity) != s.key then Err(KeyMismatch)
      else Ok(s)
  }

  datatype FactKind = Edges | Roots | Escapes | Suppressions

  function ReadFact(v: Value, kind: FactKind): Result<Fact<string>, Flaw> {
    match kind
    case Edges =>
      var m :- RequireKeys(v, EDGE_KEYS);
      var from :- NamedField(m, "from");
      var to :- NamedField(m, "to");
      var name :- NamedField(m, "kind");
      var k :- Supported(EdgeKindNamed(name));
      var e :- EvidenceField(m);
      Ok(Edge(from, to, k, e))
    case Roots =>
      var m :- RequireKeys(v, ROOT_KEYS);
      var symbol :- NamedField(m, "symbol");
      var name :- NamedField(m, "kind");
      var k :- Supported(RootKindNamed(name));
      var e :- EvidenceField(m);
      Ok(Root(symbol, k, e))
    case Escapes =>
      var m :- RequireKeys(v, ESCAPE_KEYS);
      var origin :- NullableField(m, "from");
      var symbol :- NamedField(m, "symbol");
      var name :- NamedField(m, "kind");
      var k :- Supported(EscapeKindNamed(name));
      var e :- EvidenceField(m);
      Ok(Escape(symbol, if origin == [] then None else Some(origin), k, e))
    case Suppressions =>
      var m :- RequireKeys(v, SUPPRESSION_KEYS);
      var symbol :- NamedField(m, "symbol");
      var e :- EvidenceField(m);
      Ok(Suppression(symbol, e))
  }

  function ReadTargets(items: seq<Value>): Result<seq<string>, Flaw> {
    if items == [] then Ok([])
    else
      var init :- ReadTargets(items[..|items| - 1]);
      var v := items[|items| - 1];
      if v.Str? && v.text != [] then Ok(init + [v.text]) else Err(NotAString)
  }

  function ReadStrings(items: seq<Value>): Result<seq<string>, Flaw> {
    if items == [] then Ok([])
    else
      var init :- ReadStrings(items[..|items| - 1]);
      var v := items[|items| - 1];
      if v.Str? then Ok(init + [v.text]) else Err(NotAString)
  }

  /** A target has an id, a name and a known kind, or there is none of the three. */
  predicate TargetOk(m: Metadata) {
    && (m.targetId == [] <==> m.targetName == []) && (m.targetId == [] <==> m.targetKind == [])
    && (m.targetKind != [] ==> m.targetKind in TARGET_KINDS)
  }

  function ReadMetadata(m: map<string, Value>, numbers: Numbers): Result<Metadata, Flaw> {
    var configurationId :- NamedField(m, "configuration_id");
    var frontendName :- NamedField(m, "frontend");
    var frontend :- Supported(FrontendNamed(frontendName));
    var translationUnits :- SizeField(m, "translation_units", numbers);
    var context :- Lookup(m, "analysis_context");
    var c :- RequireKeys(context, CONTEXT_KEYS);
    var configuration :- StringField(c, "configuration");
    var targetId :- NullableField(c, "target_id");
    var targetName :- NullableField(c, "target_name");
    var targetKind :- NullableField(c, "target_kind");
    var targets' :- ArrayField(c, "closure_targets");
    var targets :- ReadTargets(targets');
    var r := Metadata(configurationId, configuration, targetId, targetName, targetKind, targets, frontend, translationUnits);
    if TargetOk(r) then Ok(r) else Err(PartialTarget)
  }

  /** Symbols are added one by one; each belongs to the configuration and comes once. */
  function ReadSymbols(items: seq<Value>, configuration: string, numbers: Numbers): Result<Contents, Flaw> {
    if items == [] then Ok(NOTHING)
    else
      var c :- ReadSymbols(items[..|items| - 1], configuration, numbers);
      var s :- ReadSymbol(items[|items| - 1], numbers);
      if s.identity.configuration != configuration then Err(ConfigurationMismatch)
      else if Find(c.symbols, s.key).Some? then Err(DuplicateSymbol)
      else match AddSymbol(c, s)
        case Ok((d, _)) => Ok(d)
        case Err(_) => Err(BadSymbol)
  }

  /** The fact between positions, if its keys name symbols of the graph. */
  function Positioned(symbols: seq<Symbol>, x: Fact<string>): Option<Fact<nat>> {
    match x
    case Edge(from, to, k, e) =>
      (match (Find(symbols, from), Find(symbols, to))
       case (Some(i), Some(j)) => Some(Edge(i, j, k, e))
       case _ => None)
    case Root(symbol, k, e) =>
      (match Find(symbols, symbol) case Some(i) => Some(Root(i, k, e)) case None => None)
    case Escape(symbol, origin, k, e) =>
      (match Find(symbols, symbol)
       case None => None
       case Some(i) =>
         if origin.None? then Some(Escape(i, None, k, e))
         else match Find(symbols, origin.value)
           case Some(j) => Some(Escape(i, Some(j), k, e))
           case None => None)
    case Suppression(symbol, e) =>
      (match Find(symbols, symbol) case Some(i) => Some(Suppression(i, e)) case None => None)
  }

  function ReadFacts(items: seq<Value>, kind: FactKind, c: Contents): Result<Contents, Flaw> {
    if items == [] then Ok(c)
    else
      var d :- ReadFacts(items[..|items| - 1], kind, c);
      var x :- ReadFact(items[|items| - 1], kind);
      match Positioned(d.symbols, x)
      case Some(y) => Ok(With(d, y))
      case None => Err(UnknownSymbol)
  }

  function ReadDocument(v: Value, numbers: Numbers): Result<Artifact, Flaw> {
    var m :- RequireKeys(v, DOCUMENT_KEYS);
    var schema :- SizeField(m, "artifact_schema_version", numbers);
    var identities :- SizeField(m, "identity_schema_version", numbers);
    if schema != ARTIFACT_SCHEMA || identities != IDENTITY_SCHEMA then Err(UnsupportedSchema)
    else
      var metadata :- ReadMetadata(m, numbers);
      var symbols :- ArrayField(m, "symbols");
      var c0 :- ReadSymbols(symbols, metadata.configurationId, numbers);
      var edges :- ArrayField(m, "edges");
      var c1 :- ReadFacts(edges, Edges, c0);
      var roots :- ArrayField(m, "roots");
      var c2 :- ReadFacts(roots, Roots, c1);
      var escapes :- ArrayField(m, "escapes");
      var c3 :- ReadFacts(escapes, Escapes, c2);
      var suppressions :- ArrayField(m, "suppressions");
      var c4 :- ReadFacts(suppressions, Suppressions, c3);
      var messages :- ArrayField(m, "diagnostics");
      var diagnostics :- ReadStrings(messages);
      Ok(Artifact(Canonicalize(c4), metadata, diagnostics))
  }

  function Read(text: string, numbers: Numbers): Result<Artifact, Flaw> {
    match ParseDocument(text, numbers.representable)
    case Err(_) => Err(NotJson)
    case Ok(v) => ReadDocument(v, numbers)
  }
}
