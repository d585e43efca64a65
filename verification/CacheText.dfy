/** The text of a translation-unit cache entry, and the reader of that text. */
module CacheText {
  import opened Wrappers
  import opened Symbols
  import opened Facts
  import opened Merging
  import opened Canonical
  import opened Streams

  datatype Dependency = Dependency(path: string, digest: string)

  datatype RecordBases = RecordBases(name: string, bases: seq<string>)

  datatype Entry = Entry(
    graph: Contents,
    diagnostics: seq<string>,
    ruleMatches: seq<bool>,
    records: seq<RecordBases>,
    dependencies: seq<Dependency>,
    astBytes: nat,
    factBytes: nat)

  const MAGIC := "cxx-dead-tu-cache"
  const SCHEMA: nat := 1
  const MAX_COUNT := 10_000_000
  const MAX_BASES := 1_000_000

  // ---- enumerations are written as their position

  function KindCode(k: SymbolKind): nat {
    match k case Function => 0 case Method => 1 case Constructor => 2 case Destructor => 3 case Synthetic => 4
  }

  function KindOf(n: int): Option<SymbolKind> {
    if n == 0 then Some(Function) else if n == 1 then Some(Method) else if n == 2 then Some(Constructor)
    else if n == 3 then Some(Destructor) else if n == 4 then Some(Synthetic) else None
  }

  function ScopeCode(s: SymbolScope): nat {
    match s case Reportable => 0 case Indexed => 1 case ExternalOpaque => 2 case Excluded => 3
  }

  function ScopeOf(n: int): Option<SymbolScope> {
    if n == 0 then Some(Reportable) else if n == 1 then Some(Indexed) else if n == 2 then Some(ExternalOpaque)
    else if n == 3 then Some(Excluded) else None
  }

  function QualityCode(q: IdentityQuality): nat {
    match q case Stable => 0 case Fallback => 1
  }

  function QualityOf(n: int): Option<IdentityQuality> {
    if n == 0 then Some(Stable) else if n == 1 then Some(Fallback) else None
  }

  function EdgeKindOf(n: int): Option<EdgeKind> {
    if n == 0 then Some(DirectCall) else if n == 1 then Some(Constructs) else if n == 2 then Some(VirtualDispatch)
    else if n == 3 then Some(CallbackEdge) else if n == 4 then Some(ProviderEdge) else None
  }

  function RootKindOf(n: int): Option<RootKind> {
    if n == 0 then Some(ApplicationEntryPoint) else if n == 1 then Some(GlobalInitializer) else if n == 2 then Some(Manual)
    else if n == 3 then Some(CallbackRoot) else if n == 4 then Some(ProviderRoot) else if n == 5 then Some(PublicApi) else None
  }

  function EscapeKindOf(n: int): Option<EscapeKind> {
    if n == 0 then Some(AddressTaken) else if n == 1 then Some(CallableObject) else if n == 2 then Some(ProviderEscape) else None
  }

  // ---- writing

  function WritePoint(p: SourcePoint, rest: Output): Output {
    Quoted(p.file, Blank, Number(p.line, Blank, Number(p.column, Blank,
      Number(p.offset, Blank, Number(p.tokenLength, Line, rest)))))
  }

  function WriteExtent(e: SourceExtent, rest: Output): Output {
    WritePoint(e.location, WritePoint(e.begin, WritePoint(e.end, rest)))
  }

  function WriteEvidence(e: Evidence, rest: Output): Output {
    Quoted(e.provider, Blank, Quoted(e.reason, Line, rest))
  }

  function WriteString(s: string, rest: Output): Output {
    Quoted(s, Line, rest)
  }

  function WriteDependency(d: Dependency, rest: Output): Output {
    Quoted(d.path, Blank, Quoted(d.digest, Line, rest))
  }

  function WriteMatch(b: bool, rest: Output): Output {
    Number(Bit(b), Line, rest)
  }

  function WriteRecord(r: RecordBases, rest: Output): Output {
    Quoted(r.name, Blank, Number(|r.bases|, Line, WriteAll(r.bases, WriteString, rest)))
  }

  function WriteSource(s: SymbolSource, rest: Output): Output {
    WriteExtent(s.spelling, Number(Bit(s.expansion.Some?), Line,
      if s.expansion.Some? then WriteExtent(s.expansion.value, rest) else rest))
  }

  function WriteIdentity(i: Identity, rest: Output): Output {
    Quoted(i.configuration, Line, Quoted(i.usr, Line, Quoted(i.linkageName, Line, Quoted(i.translationUnit, Line,
      Quoted(i.fallbackAnchor, Line, Number(QualityCode(i.quality), Line, rest))))))
  }

  function WriteNames(s: Symbol, rest: Output): Output {
    Quoted(s.name, Line, Quoted(s.qualifiedName, Line, Quoted(s.className, Line, Quoted(s.signature, Line, rest))))
  }

  function WriteFlags(s: Symbol, rest: Output): Output {
    Number(KindCode(s.kind), Blank, Number(ScopeCode(s.scope), Blank,
      Number(Bit(s.defined), Blank, Number(Bit(s.internalLinkage), Blank, Number(Bit(s.isVirtual), Line, rest)))))
  }

  function WriteSymbol(s: Symbol, rest: Output): Output {
    Quoted(s.key, Line, WriteIdentity(s.identity, WriteNames(s, WriteFlags(s, WriteSource(s.source, rest)))))
  }

  function WriteFact(x: Fact<nat>, rest: Output): Output {
    match x
    case Edge(from, to, k, e) =>
      Number(from, Blank, Number(to, Blank, Number(EdgeKindRank(k), Line, WriteEvidence(e, rest))))
    case Root(symbol, k, e) =>
      Number(symbol, Blank, Number(RootKindRank(k), Line, WriteEvidence(e, rest)))
    case Escape(symbol, origin, k, e) =>
      Number(symbol, Blank, Number(Bit(origin.Some?), Blank, Number(if origin.Some? then origin.value else 0, Blank,
        Number(EscapeKindRank(k), Line, WriteEvidence(e, rest)))))
    case Suppression(symbol, e) =>
      Number(symbol, Line, WriteEvidence(e, rest))
  }

  /** A list is written as its length and its elements. */
  function WriteList<T>(list: seq<T>, write: (T, Output) -> Output, rest: Output): Output {
    Number(|list|, Line, WriteAll(list, write, rest))
  }

  function WriteGraph(c: Contents, rest: Output): Output {
    WriteList(c.symbols, WriteSymbol, WriteList(c.edges, WriteFact, WriteList(c.roots, WriteFact,
      WriteList(c.escapes, WriteFact, WriteList(c.suppressions, WriteFact, rest)))))
  }

  function WriteManifest(e: Entry, rest: Output): Output {
    WriteList(e.dependencies, WriteDependency, WriteList(e.ruleMatches, WriteMatch,
      WriteList(e.records, WriteRecord, WriteList(e.diagnostics, WriteString, rest))))
  }

  /** The entry stored under a key, with its graph canonicalized first; tail is what follows. */
  function WriteEntry(key: string, e: Entry, tail: string): Output {
    Word(MAGIC, Blank, Number(SCHEMA, Line, Quoted(key, Line,
      Number(e.astBytes, Blank, Number(e.factBytes, Line,
        WriteManifest(e, WriteGraph(Canonicalize(e.graph), End(tail))))))))
  }

  function EntryText(key: string, e: Entry): string {
    Render(WriteEntry(key, e, ""))
  }

  // ---- reading

  function ReadPoint(input: string): Reading<SourcePoint> {
    match ReadQuoted(input) case None => None case Some((file, r1)) =>
    match ReadSize(r1) case None => None case Some((line, r2)) =>
    match ReadSize(r2) case None => None case Some((column, r3)) =>
    match ReadSize(r3) case None => None case Some((offset, r4)) =>
    match ReadSize(r4) case None => None case Some((tokenLength, r5)) =>
    Some((SourcePoint(file, line, column, offset, tokenLength), r5))
  }

  function ReadExtent(input: string): Reading<SourceExtent> {
    match ReadPoint(input) case None => None case Some((location, r1)) =>
    match ReadPoint(r1) case None => None case Some((begin, r2)) =>
    match ReadPoint(r2) case None => None case Some((end, r3)) =>
    Some((SourceExtent(location, begin, end), r3))
  }

  function ReadEvidence(input: string): Reading<Evidence> {
    match ReadQuoted(input) case None => None case Some((provider, r1)) =>
    match ReadQuoted(r1) case None => None case Some((reason, r2)) =>
    Some((Evidence(provider, reason), r2))
  }

  function ReadDependency(input: string): Reading<Dependency> {
    match ReadQuoted(input) case None => None case Some((path, r1)) =>
    match ReadQuoted(r1) case None => None case Some((digest, r2)) =>
    Some((Dependency(path, digest), r2))
  }

  function ReadMatch(input: string): Reading<bool> {
    match ReadInt(input) case None => None case Some((n, rest)) =>
    if n == 0 || n == 1 then Some((n == 1, rest)) else None
  }

  function ReadRecord(input: string): Reading<RecordBases> {
    match ReadQuoted(input) case None => None case Some((name, r1)) =>
    match ReadSize(r1) case None => None case Some((n, r2)) =>
    if n > MAX_BASES then None else
    match ReadMany(n, ReadQuoted, r2) case None => None case Some((bases, r3)) =>
    Some((RecordBases(name, bases), r3))
  }

  function ReadSource(input: string): Reading<SymbolSource> {
    match ReadExtent(input) case None => None case Some((spelling, r1)) =>
    match ReadBool(r1) case None => None case Some((expanded, r2)) =>
    if !expanded then Some((SymbolSource(spelling, None), r2)) else
    match ReadExtent(r2) case None => None case Some((expansion, r3)) =>
    Some((SymbolSource(spelling, Some(expansion)), r3))
  }

  function ReadIdentity(input: string): Reading<Identity> {
    match ReadQuoted(input) case None => None case Some((configuration, r1)) =>
    match ReadQuoted(r1) case None => None case Some((usr, r2)) =>
    match ReadQuoted(r2) case None => None case Some((linkageName, r3)) =>
    match ReadQuoted(r3) case None => None case Some((translationUnit, r4)) =>
    match ReadQuoted(r4) case None => None case Some((fallbackAnchor, r5)) =>
    match ReadInt(r5) case None => None case Some((code, r6)) =>
    match QualityOf(code) case None => None case Some(quality) =>
    Some((Identity(configuration, usr, linkageName, translationUnit, fallbackAnchor, quality), r6))
  }

  datatype Names = Names(name: string, qualifiedName: string, className: string, signature: string)

  function ReadNames(input: string): Reading<Names> {
    match ReadQuoted(input) case None => None case Some((name, r1)) =>
    match ReadQuoted(r1) case None => None case Some((qualifiedName, r2)) =>
    match ReadQuoted(r2) case None => None case Some((className, r3)) =>
    match ReadQuoted(r3) case None => None case Some((signature, r4)) =>
    Some((Names(name, qualifiedName, className, signature), r4))
  }

  datatype Flags = Flags(kind: SymbolKind, scope: SymbolScope, defined: bool, internalLinkage: bool, isVirtual: bool)

  function ReadFlags(input: string): Reading<Flags> {
    match ReadInt(input) case None => None case Some((kindCode, r1)) =>
    match ReadInt(r1) case None => None case Some((scopeCode, r2)) =>
    match ReadBool(r2) case None => None case Some((defined, r3)) =>
    match ReadBool(r3) case None => None case Some((internalLinkage, r4)) =>
    match ReadBool(r4) case None => None case Some((isVirtual, r5)) =>
    match KindOf(kindCode) case None => None case Some(kind) =>
    match ScopeOf(scopeCode) case None => None case Some(scope) =>
    Some((Flags(kind, scope, defined, internalLinkage, isVirtual), r5))
  }

  function MakeSymbol(key: string, i: Identity, n: Names, f: Flags, s: SymbolSource): Symbol {
    Symbol(key, i, n.name, n.qualifiedName, n.className, n.signature, s,
           f.kind, f.scope, f.defined, f.internalLinkage, f.isVirtual)
  }

  function ReadSymbol(input: string): Reading<Symbol> {
    match ReadQuoted(input) case None => None case Some((key, r1)) =>
    match ReadIdentity(r1) case None => None case Some((identity, r2)) =>
    match ReadNames(r2) case None => None case Some((names, r3)) =>
    match ReadFlags(r3) case None => None case Some((flags, r4)) =>
    match ReadSource(r4) case None => None case Some((source, r5)) =>
    Some((MakeSymbol(key, identity, names, flags, source), r5))
  }

  function ReadEdge(input: string): Reading<Fact<nat>> {
    match ReadSize(input) case None => None case Some((from, r1)) =>
    match ReadSize(r1) case None => None case Some((to, r2)) =>
    match ReadInt(r2) case None => None case Some((code, r3)) =>
    match EdgeKindOf(code) case None => None case Some(kind) =>
    match ReadEvidence(r3) case None => None case Some((evidence, r4)) =>
    Some((Edge(from, to, kind, evidence), r4))
  }

  function ReadRoot(input: string): Reading<Fact<nat>> {
    match ReadSize(input) case None => None case Some((symbol, r1)) =>
    match ReadInt(r1) case None => None case Some((code, r2)) =>
    match RootKindOf(code) case None => None case Some(kind) =>
    match ReadEvidence(r2) case None => None case Some((evidence, r3)) =>
    Some((Root(symbol, kind, evidence), r3))
  }

  function ReadEscape(input: string): Reading<Fact<nat>> {
    match ReadSize(input) case None => None case Some((symbol, r1)) =>
    match ReadBool(r1) case None => None case Some((hasOrigin, r2)) =>
    match ReadSize(r2) case None => None case Some((origin, r3)) =>
    match ReadInt(r3) case None => None case Some((code, r4)) =>
    match EscapeKindOf(code) case None => None case Some(kind) =>
    match ReadEvidence(r4) case None => None case Some((evidence, r5)) =>
    Some((Escape(symbol, if hasOrigin then Some(origin) else None, kind, evidence), r5))
  }

  function ReadSuppression(input: string): Reading<Fact<nat>> {
    match ReadSize(input) case None => None case Some((symbol, r1)) =>
    match ReadEvidence(r1) case None => None case Some((evidence, r2)) =>
    Some((Suppression(symbol, evidence), r2))
  }

  function ReadList<T>(read: string -> Reading<T>, input: string): Reading<seq<T>> {
    match ReadSize(input) case None => None case Some((n, rest)) =>
    if n > MAX_COUNT then None else ReadMany(n, read, rest)
  }

  /** Each fact is added to the graph; one that names no symbol of the graph is an error. */
  function AddFacts(c: Contents, facts: seq<Fact<nat>>): Option<Contents> {
    if facts == [] then Some(c)
    else
      match AddFacts(c, facts[..|facts| - 1]) case None => None case Some(d) =>
      var x := facts[|facts| - 1];
      if InRange(x, |d.symbols|) then Some(With(d, x)) else None
  }

  function ReadFacts(c: Contents, read: string -> Reading<Fact<nat>>, input: string): Reading<Contents> {
    match ReadList(read, input) case None => None case Some((facts, rest)) =>
    match AddFacts(c, facts) case None => None case Some(d) => Some((d, rest))
  }

  function ReadSymbols(input: string): Reading<Contents> {
    match ReadList(ReadSymbol, input) case None => None case Some((symbols, rest)) =>
    var p := AddSymbols(NOTHING, symbols);
    if p.error.Some? then None else Some((p.contents, rest))
  }

  function ReadGraph(input: string): Reading<Contents> {
    match ReadSymbols(input) case None => None case Some((c, r1)) =>
    match ReadFacts(c, ReadEdge, r1) case None => None case Some((c1, r2)) =>
    match ReadFacts(c1, ReadRoot, r2) case None => None case Some((c2, r3)) =>
    match ReadFacts(c2, ReadEscape, r3) case None => None case Some((c3, r4)) =>
    ReadFacts(c3, ReadSuppression, r4)
  }

  function ReadHeader(input: string, key: string): Reading<()> {
    match ReadWord(input) case None => None case Some((magic, r1)) =>
    match ReadInt(r1) case None => None case Some((schema, r2)) =>
    match ReadQuoted(r2) case None => None case Some((k, r3)) =>
    if magic == MAGIC && schema == SCHEMA && k == key then Some(((), r3)) else None
  }

  function ReadManifest(input: string): Reading<Entry> {
    match ReadSize(input) case None => None case Some((astBytes, r1)) =>
    match ReadSize(r1) case None => None case Some((factBytes, r2)) =>
    match ReadList(ReadDependency, r2) case None => None case Some((dependencies, r3)) =>
    match ReadList(ReadMatch, r3) case None => None case Some((ruleMatches, r4)) =>
    match ReadList(ReadRecord, r4) case None => None case Some((records, r5)) =>
    match ReadList(ReadQuoted, r5) case None => None case Some((diagnostics, r6)) =>
    Some((Entry(NOTHING, diagnostics, ruleMatches, records, dependencies, astBytes, factBytes), r6))
  }

  /** What is stored in the text, if it is an entry for the key and nothing else. */
  function ReadEntry(input: string, key: string): Option<Entry> {
    match ReadHeader(input, key) case None => None case Some((_, r1)) =>
    match ReadManifest(r1) case None => None case Some((manifest, r2)) =>
    match ReadGraph(r2) case None => None case Some((graph, r3)) =>
    if SkipSpace(r3) == [] then Some(manifest.(graph := graph)) else None
  }
}
