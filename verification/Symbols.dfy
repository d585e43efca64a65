/** Symbols, the facts that relate them, and the small predicates on kinds and scopes. */
module Symbols {
  import opened Wrappers

  datatype SymbolKind = Function | Method | Constructor | Destructor | Synthetic

  datatype SymbolScope = Reportable | Indexed | ExternalOpaque | Excluded

  datatype EdgeKind = DirectCall | Constructs | VirtualDispatch | CallbackEdge | ProviderEdge

  datatype RootKind =
    ApplicationEntryPoint | GlobalInitializer | Manual | CallbackRoot | ProviderRoot | PublicApi

  datatype EscapeKind = AddressTaken | CallableObject | ProviderEscape

  datatype IdentityQuality = Stable | Fallback

  datatype Identity = Identity(
    configuration: string,
    usr: string,
    linkageName: string,
    translationUnit: string,
    fallbackAnchor: string,
    quality: IdentityQuality)

  datatype Evidence = Evidence(provider: string, reason: string)

  /** File names are normalized path strings; the empty string is the empty path. */
  datatype SourcePoint =
    SourcePoint(file: string, line: nat, column: nat, offset: nat, tokenLength: nat)

  datatype SourceExtent = SourceExtent(location: SourcePoint, begin: SourcePoint, end: SourcePoint)

  datatype SymbolSource = SymbolSource(spelling: SourceExtent, expansion: Option<SourceExtent>)

  datatype Symbol = Symbol(
    key: string,
    identity: Identity,
    name: string,
    qualifiedName: string,
    className: string,
    signature: string,
    source: SymbolSource,
    kind: SymbolKind,
    scope: SymbolScope,
    defined: bool,
    internalLinkage: bool,
    isVirtual: bool)

  /** The four kinds of fact. `Id` is a position in the symbol vector inside one graph, and a
      symbol key when facts of different graphs are compared. */
  datatype Fact<Id> =
    | Edge(from: Id, to: Id, edgeKind: EdgeKind, evidence: Evidence)
    | Root(symbol: Id, rootKind: RootKind, evidence: Evidence)
    | Escape(symbol: Id, origin: Option<Id>, escapeKind: EscapeKind, evidence: Evidence)
    | Suppression(symbol: Id, evidence: Evidence)

  predicate Traversable(k: EdgeKind) {
    k == DirectCall || k == Constructs || k == VirtualDispatch || k == CallbackEdge || k == ProviderEdge
  }

  predicate IsProviderEdge(k: EdgeKind) {
    k == CallbackEdge || k == ProviderEdge
  }

  predicate IsProviderRoot(k: RootKind) {
    k == CallbackRoot || k == ProviderRoot
  }

  predicate HasIndexedBody(s: SymbolScope) {
    s == Reportable || s == Indexed
  }

  function PrimaryExtent(s: Symbol): SourceExtent {
    if s.source.expansion.Some? then s.source.expansion.value else s.source.spelling
  }

  function ScopeRank(s: SymbolScope): nat {
    match s
    case Reportable => 3
    case Indexed => 2
    case ExternalOpaque => 1
    case Excluded => 0
  }
}
