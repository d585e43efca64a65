/** Reading a written cache entry gives the entry back, with its graph in canonical form. */
module CacheRoundTrip {
  import opened Wrappers
  import opened Symbols
  import opened Orders
  import opened Facts
  import opened Merging
  import opened Canonical
  import opened Streams
  import opened CacheText

  // ---- the widths and the count limits

  predicate PointFits(p: SourcePoint) {
    p.line < TWO_64 && p.column < TWO_64 && p.offset < TWO_64 && p.tokenLength < TWO_64
  }

  predicate ExtentFits(e: SourceExtent) {
    PointFits(e.location) && PointFits(e.begin) && PointFits(e.end)
  }

  predicate SourceFits(s: SymbolSource) {
    ExtentFits(s.spelling) && (s.expansion.Some? ==> ExtentFits(s.expansion.value))
  }

  predicate FactFits(x: Fact<nat>) {
    InRange(x, TWO_64)
  }

  /** Every size is a 64-bit value. */
  ghost predicate Sized(e: Entry) {
    Valid(e.graph) && e.astBytes < TWO_64 && e.factBytes < TWO_64 && SourcesFit(e.graph)
  }

  ghost predicate SourcesFit(c: Contents) {
    forall s :: s in c.symbols ==> SourceFits(s.source)
  }

  /** Every count is within the limit that the reader sets; the writer sets none. */
  ghost predicate CountsFit(e: Entry) {
    ListsFit(e) && GraphFits(e.graph)
  }

  ghost predicate ListsFit(e: Entry) {
    && |e.dependencies| <= 10_000_000 && |e.ruleMatches| <= 10_000_000
    && |e.records| <= 10_000_000 && |e.diagnostics| <= 10_000_000
    && forall r :: r in e.records ==> |r.bases| <= 1_000_000
  }

  predicate GraphFits(c: Contents) {
    && |c.symbols| <= 10_000_000 && |c.edges| <= 10_000_000 && |c.roots| <= 10_000_000
    && |c.escapes| <= 10_000_000 && |c.suppressions| <= 10_000_000
  }

  // ---- one value

  lemma PointBack(input: string, p: SourcePoint, rest: Output)
    requires PointFits(p) && At(input, WritePoint(p, rest))
    ensures Takes(ReadPoint(input), p, rest)
  {
    hide At, ReadQuoted, ReadSize;
    var t4 := Number(p.tokenLength, Line, rest);
    var t3 := Number(p.offset, Blank, t4);
    var t2 := Number(p.column, Blank, t3);
    var t1 := Number(p.line, Blank, t2);
    QuotedBack(input, p.file, Blank, t1);
    var r1 := ReadQuoted(input).value.1;
    SizeBack(r1, p.line, Blank, t2);
    var r2 := ReadSize(r1).value.1;
    SizeBack(r2, p.column, Blank, t3);
    var r3 := ReadSize(r2).value.1;
    SizeBack(r3, p.offset, Blank, t4);
    SizeBack(ReadSize(r3).value.1, p.tokenLength, Line, rest);
  }

  lemma ExtentBack(input: string, e: SourceExtent, rest: Output)
    requires ExtentFits(e) && At(input, WriteExtent(e, rest))
    ensures Takes(ReadExtent(input), e, rest)
  {
    hide At, ReadPoint, WritePoint, PointFits;
    PointBack(input, e.location, WritePoint(e.begin, WritePoint(e.end, rest)));
    var r1 := ReadPoint(input).value.1;
    PointBack(r1, e.begin, WritePoint(e.end, rest));
    PointBack(ReadPoint(r1).value.1, e.end, rest);
  }

  lemma EvidenceBack(input: string, e: Evidence, rest: Output)
    requires At(input, WriteEvidence(e, rest))
    ensures Takes(ReadEvidence(input), e, rest)
  {
    hide At, ReadQuoted;
    QuotedBack(input, e.provider, Blank, Quoted(e.reason, Line, rest));
    QuotedBack(ReadQuoted(input).value.1, e.reason, Line, rest);
  }

  lemma DependencyBack(input: string, d: Dependency, rest: Output)
    requires At(input, WriteDependency(d, rest))
    ensures Takes(ReadDependency(input), d, rest)
  {
    hide At, ReadQuoted;
    QuotedBack(input, d.path, Blank, Quoted(d.digest, Line, rest));
    QuotedBack(ReadQuoted(input).value.1, d.digest, Line, rest);
  }

  lemma RecordBack(input: string, r: RecordBases, rest: Output)
    requires |r.bases| <= MAX_BASES && At(input, WriteRecord(r, rest))
    ensures Takes(ReadRecord(input), r, rest)
  {
    hide At, ReadQuoted, ReadSize, ReadMany;
    var bases := WriteAll(r.bases, WriteString, rest);
    QuotedBack(input, r.name, Blank, Number(|r.bases|, Line, bases));
    var r1 := ReadQuoted(input).value.1;
    SizeBack(r1, |r.bases|, Line, bases);
    forall s ensures Inverse(WriteString, ReadQuoted, s) { StringInverse(s); }
    ManyBack(r.bases, WriteString, ReadQuoted, ReadSize(r1).value.1, rest);
  }

  lemma StringInverse(s: string)
    ensures Inverse(WriteString, ReadQuoted, s)
  {
    hide At, ReadQuoted;
    forall input, rest | At(input, WriteString(s, rest)) ensures Takes(ReadQuoted(input), s, rest) {
      QuotedBack(input, s, Line, rest);
    }
  }

  lemma SourceBack(input: string, s: SymbolSource, rest: Output)
    requires SourceFits(s) && At(input, WriteSource(s, rest))
    ensures Takes(ReadSource(input), s, rest)
  {
    hide At, ReadExtent, ReadBool, WriteExtent, ExtentFits;
    var tail := if s.expansion.Some? then WriteExtent(s.expansion.value, rest) else rest;
    ExtentBack(input, s.spelling, Number(Bit(s.expansion.Some?), Line, tail));
    var r1 := ReadExtent(input).value.1;
    BoolBack(r1, s.expansion.Some?, Line, tail);
    if s.expansion.Some? { ExtentBack(ReadBool(r1).value.1, s.expansion.value, rest); }
  }

  lemma IdentityBack(input: string, i: Identity, rest: Output)
    requires At(input, WriteIdentity(i, rest))
    ensures Takes(ReadIdentity(input), i, rest)
  {
    hide At, ReadQuoted, ReadInt;
    var t5 := Number(QualityCode(i.quality), Line, rest);
    var t4 := Quoted(i.fallbackAnchor, Line, t5);
    var t3 := Quoted(i.translationUnit, Line, t4);
    var t2 := Quoted(i.linkageName, Line, t3);
    var t1 := Quoted(i.usr, Line, t2);
    QuotedBack(input, i.configuration, Line, t1);
    var r1 := ReadQuoted(input).value.1;
    QuotedBack(r1, i.usr, Line, t2);
    var r2 := ReadQuoted(r1).value.1;
    QuotedBack(r2, i.linkageName, Line, t3);
    var r3 := ReadQuoted(r2).value.1;
    QuotedBack(r3, i.translationUnit, Line, t4);
    var r4 := ReadQuoted(r3).value.1;
    QuotedBack(r4, i.fallbackAnchor, Line, t5);
    IntBack(ReadQuoted(r4).value.1, QualityCode(i.quality), Line, rest);
  }

  function NamesOf(s: Symbol): Names {
    Names(s.name, s.qualifiedName, s.className, s.signature)
  }

  lemma NamesBack(input: string, s: Symbol, rest: Output)
    requires At(input, WriteNames(s, rest))
    ensures Takes(ReadNames(input), NamesOf(s), rest)
  {
    hide At, ReadQuoted;
    var t3 := Quoted(s.signature, Line, rest);
    var t2 := Quoted(s.className, Line, t3);
    var t1 := Quoted(s.qualifiedName, Line, t2);
    QuotedBack(input, s.name, Line, t1);
    var r1 := ReadQuoted(input).value.1;
    QuotedBack(r1, s.qualifiedName, Line, t2);
    var r2 := ReadQuoted(r1).value.1;
    QuotedBack(r2, s.className, Line, t3);
    QuotedBack(ReadQuoted(r2).value.1, s.signature, Line, rest);
  }

  function FlagsOf(s: Symbol): Flags {
    Flags(s.kind, s.scope, s.defined, s.internalLinkage, s.isVirtual)
  }

  lemma FlagsBack(input: string, s: Symbol, rest: Output)
    requires At(input, WriteFlags(s, rest))
    ensures Takes(ReadFlags(input), FlagsOf(s), rest)
  {
    hide At, ReadInt, ReadBool;
    var t4 := Number(Bit(s.isVirtual), Line, rest);
    var t3 := Number(Bit(s.internalLinkage), Blank, t4);
    var t2 := Number(Bit(s.defined), Blank, t3);
    var t1 := Number(ScopeCode(s.scope), Blank, t2);
    IntBack(input, KindCode(s.kind), Blank, t1);
    var r1 := ReadInt(input).value.1;
    IntBack(r1, ScopeCode(s.scope), Blank, t2);
    var r2 := ReadInt(r1).value.1;
    BoolBack(r2, s.defined, Blank, t3);
    var r3 := ReadBool(r2).value.1;
    BoolBack(r3, s.internalLinkage, Blank, t4);
    BoolBack(ReadBool(r3).value.1, s.isVirtual, Line, rest);
  }

  lemma SymbolBack(input: string, s: Symbol, rest: Output)
    requires SourceFits(s.source) && At(input, WriteSymbol(s, rest))
    ensures Takes(ReadSymbol(input), s, rest)
  {
    hide At, ReadQuoted, ReadIdentity, ReadNames, ReadFlags, ReadSource;
    hide WriteIdentity, WriteNames, WriteFlags, WriteSource, SourceFits;
    var t4 := WriteSource(s.source, rest);
    var t3 := WriteFlags(s, t4);
    var t2 := WriteNames(s, t3);
    var t1 := WriteIdentity(s.identity, t2);
    QuotedBack(input, s.key, Line, t1);
    var r1 := ReadQuoted(input).value.1;
    IdentityBack(r1, s.identity, t2);
    var r2 := ReadIdentity(r1).value.1;
    NamesBack(r2, s, t3);
    var r3 := ReadNames(r2).value.1;
    FlagsBack(r3, s, t4);
    SourceBack(ReadFlags(r3).value.1, s.source, rest);
  }

  lemma EdgeBack(input: string, x: Fact<nat>, rest: Output)
    requires x.Edge? && FactFits(x) && At(input, WriteFact(x, rest))
    ensures Takes(ReadEdge(input), x, rest)
  {
    hide At, ReadSize, ReadInt, ReadEvidence, WriteEvidence;
    var t3 := WriteEvidence(x.evidence, rest);
    var t2 := Number(EdgeKindRank(x.edgeKind), Line, t3);
    SizeBack(input, x.from, Blank, Number(x.to, Blank, t2));
    var r1 := ReadSize(input).value.1;
    SizeBack(r1, x.to, Blank, t2);
    var r2 := ReadSize(r1).value.1;
    IntBack(r2, EdgeKindRank(x.edgeKind), Line, t3);
    EvidenceBack(ReadInt(r2).value.1, x.evidence, rest);
  }

  lemma RootBack(input: string, x: Fact<nat>, rest: Output)
    requires x.Root? && FactFits(x) && At(input, WriteFact(x, rest))
    ensures Takes(ReadRoot(input), x, rest)
  {
    hide At, ReadSize, ReadInt, ReadEvidence, WriteEvidence;
    var t2 := WriteEvidence(x.evidence, rest);
    SizeBack(input, x.symbol, Blank, Number(RootKindRank(x.rootKind), Line, t2));
    var r1 := ReadSize(input).value.1;
    IntBack(r1, RootKindRank(x.rootKind), Line, t2);
    EvidenceBack(ReadInt(r1).value.1, x.evidence, rest);
  }

  lemma EscapeBack(input: string, x: Fact<nat>, rest: Output)
    requires x.Escape? && FactFits(x) && At(input, WriteFact(x, rest))
    ensures Takes(ReadEscape(input), x, rest)
  {
    hide At, ReadSize, ReadInt, ReadBool, ReadEvidence, WriteEvidence;
    var from := if x.origin.Some? then x.origin.value else 0;
    var t4 := WriteEvidence(x.evidence, rest);
    var t3 := Number(EscapeKindRank(x.escapeKind), Line, t4);
    var t2 := Number(from, Blank, t3);
    SizeBack(input, x.symbol, Blank, Number(Bit(x.origin.Some?), Blank, t2));
    var r1 := ReadSize(input).value.1;
    BoolBack(r1, x.origin.Some?, Blank, t2);
    var r2 := ReadBool(r1).value.1;
    SizeBack(r2, from, Blank, t3);
    var r3 := ReadSize(r2).value.1;
    IntBack(r3, EscapeKindRank(x.escapeKind), Line, t4);
    EvidenceBack(ReadInt(r3).value.1, x.evidence, rest);
  }

  lemma SuppressionBack(input: string, x: Fact<nat>, rest: Output)
    requires x.Suppression? && FactFits(x) && At(input, WriteFact(x, rest))
    ensures Takes(ReadSuppression(input), x, rest)
  {
    hide At, ReadSize, ReadEvidence, WriteEvidence;
    SizeBack(input, x.symbol, Line, WriteEvidence(x.evidence, rest));
    EvidenceBack(ReadSize(input).value.1, x.evidence, rest);
  }

  /** A record with too many bases is refused. */
  lemma RecordRefused(input: string, r: RecordBases, rest: Output)
    requires |r.bases| > MAX_BASES && At(input, WriteRecord(r, rest))
    ensures ReadRecord(input).None?
  {
    hide At, ReadQuoted, ReadMany;
    var bases := WriteAll(r.bases, WriteString, rest);
    QuotedBack(input, r.name, Blank, Number(|r.bases|, Line, bases));
    NumeralBack(ReadQuoted(input).value.1, |r.bases|, Line, bases);
  }

  // ---- lists

  lemma ListTooLong<T(!new)>(list: seq<T>, write: (T, Output) -> Output, read: string -> Reading<T>, input: string, rest: Output)
    requires |list| > MAX_COUNT && At(input, WriteList(list, write, rest))
    ensures ReadList(read, input).None?
  {
    hide At, ReadMany;
    NumeralBack(input, |list|, Line, WriteAll(list, write, rest));
  }

  /** A list that is too long, or has an element that is refused, is refused. */
  lemma ListRefused<T(!new)>(list: seq<T>, write: (T, Output) -> Output, read: string -> Reading<T>, input: string, rest: Output)
    requires forall x :: x in list ==> Inverse(write, read, x) || Stuck(write, read, x)
    requires |list| > MAX_COUNT || exists x :: x in list && Stuck(write, read, x)
    requires At(input, WriteList(list, write, rest))
    ensures ReadList(read, input).None?
  {
    hide At, ReadSize, ReadMany, Inverse, Stuck;
    if |list| > MAX_COUNT {
      ListTooLong(list, write, read, input, rest);
    } else {
      SizeBack(input, |list|, Line, WriteAll(list, write, rest));
      ManyStuck(list, write, read, ReadSize(input).value.1, rest);
    }
  }

  lemma ListBack<T(!new)>(list: seq<T>, write: (T, Output) -> Output, read: string -> Reading<T>, input: string, rest: Output)
    requires (forall x :: x in list ==> Inverse(write, read, x)) && |list| <= MAX_COUNT
    requires At(input, WriteList(list, write, rest))
    ensures Takes(ReadList(read, input), list, rest)
  {
    hide At, ReadSize, ReadMany, Inverse;
    SizeBack(input, |list|, Line, WriteAll(list, write, rest));
    ManyBack(list, write, read, ReadSize(input).value.1, rest);
  }

  lemma DependencyInverse(d: Dependency)
    ensures Inverse(WriteDependency, ReadDependency, d)
  {
    hide At, ReadDependency, WriteDependency;
    forall input, rest | At(input, WriteDependency(d, rest)) ensures Takes(ReadDependency(input), d, rest) {
      DependencyBack(input, d, rest);
    }
  }

  lemma MatchInverse(b: bool)
    ensures Inverse(WriteMatch, ReadMatch, b)
  {
    hide At, ReadInt;
    forall input, rest | At(input, WriteMatch(b, rest)) ensures Takes(ReadMatch(input), b, rest) {
      IntBack(input, Bit(b), Line, rest);
    }
  }

  lemma RecordInverse(r: RecordBases)
    requires |r.bases| <= MAX_BASES
    ensures Inverse(WriteRecord, ReadRecord, r)
  {
    hide At, ReadRecord, WriteRecord;
    forall input, rest | At(input, WriteRecord(r, rest)) ensures Takes(ReadRecord(input), r, rest) {
      RecordBack(input, r, rest);
    }
  }

  lemma RecordStuck(r: RecordBases)
    requires |r.bases| > MAX_BASES
    ensures Stuck(WriteRecord, ReadRecord, r)
  {
    hide At, ReadRecord, WriteRecord;
    forall input, rest | At(input, WriteRecord(r, rest)) ensures ReadRecord(input).None? {
      RecordRefused(input, r, rest);
    }
  }

  lemma SymbolInverse(s: Symbol)
    requires SourceFits(s.source)
    ensures Inverse(WriteSymbol, ReadSymbol, s)
  {
    hide At, ReadSymbol, WriteSymbol, SourceFits;
    forall input, rest | At(input, WriteSymbol(s, rest)) ensures Takes(ReadSymbol(input), s, rest) {
      SymbolBack(input, s, rest);
    }
  }

  lemma FactInverse(x: Fact<nat>)
    requires FactFits(x)
    ensures x.Edge? ==> Inverse(WriteFact, ReadEdge, x)
    ensures x.Root? ==> Inverse(WriteFact, ReadRoot, x)
    ensures x.Escape? ==> Inverse(WriteFact, ReadEscape, x)
    ensures x.Suppression? ==> Inverse(WriteFact, ReadSuppression, x)
  {
    hide At, FactFits, WriteFact, ReadEdge, ReadRoot, ReadEscape, ReadSuppression;
    forall input, rest | At(input, WriteFact(x, rest))
      ensures x.Edge? ==> Takes(ReadEdge(input), x, rest)
      ensures x.Root? ==> Takes(ReadRoot(input), x, rest)
      ensures x.Escape? ==> Takes(ReadEscape(input), x, rest)
      ensures x.Suppression? ==> Takes(ReadSuppression(input), x, rest)
    {
      match x
      case Edge(_, _, _, _) => EdgeBack(input, x, rest);
      case Root(_, _, _) => RootBack(input, x, rest);
      case Escape(_, _, _, _) => EscapeBack(input, x, rest);
      case Suppression(_, _) => SuppressionBack(input, x, rest);
    }
  }

  // ---- rebuilding the graph

  lemma {:induction false} AddDistinctSymbols(symbols: seq<Symbol>)
    requires DistinctKeys(symbols) && forall s :: s in symbols ==> Admissible(s)
    ensures var p := AddSymbols(NOTHING, symbols);
            p.error.None? && p.contents == NOTHING.(symbols := symbols)
  {
    hide MergeSymbol, Conflict;
    if symbols != [] {
      var init, last := symbols[..|symbols| - 1], symbols[|symbols| - 1];
      AddDistinctSymbols(init);
      assert last in symbols && init + [last] == symbols;
      forall i | 0 <= i < |init| ensures init[i].key != last.key {
        assert symbols[i].key != symbols[|init|].key;
      }
    }
  }

  datatype FactKind = Edges | Roots | Escapes | Suppressions

  function KindOfFact(x: Fact<nat>): FactKind {
    match x
    case Edge(_, _, _, _) => Edges
    case Root(_, _, _) => Roots
    case Escape(_, _, _, _) => Escapes
    case Suppression(_, _) => Suppressions
  }

  function ListOf(c: Contents, k: FactKind): seq<Fact<nat>> {
    match k
    case Edges => c.edges
    case Roots => c.roots
    case Escapes => c.escapes
    case Suppressions => c.suppressions
  }

  /** c with another list of facts of one kind. */
  function WithList(c: Contents, k: FactKind, facts: seq<Fact<nat>>): Contents {
    match k
    case Edges => c.(edges := facts)
    case Roots => c.(roots := facts)
    case Escapes => c.(escapes := facts)
    case Suppressions => c.(suppressions := facts)
  }

  predicate OneKind(facts: seq<Fact<nat>>, k: FactKind) {
    forall x: Fact<nat> :: x in facts ==> KindOfFact(x) == k
  }

  lemma {:induction false} AddDistinctFacts(c: Contents, k: FactKind, facts: seq<Fact<nat>>)
    requires Distinct(facts) && OneKind(facts, k) && ListOf(c, k) == []
    requires forall x: Fact<nat> :: x in facts ==> InRange(x, |c.symbols|)
    ensures AddFacts(c, facts) == Some(WithList(c, k, facts))
  {
    hide InRange;
    if facts == [] {
      assert WithList(c, k, facts) == c;
    } else {
      var init, last := facts[..|facts| - 1], facts[|facts| - 1];
      assert init + [last] == facts && last in facts;
      AddDistinctFacts(c, k, init);
      assert last !in init;
      assert With(WithList(c, k, init), last) == WithList(c, k, init + [last]);
    }
  }

  lemma FactsBack(c: Contents, facts: seq<Fact<nat>>, read: string -> Reading<Fact<nat>>, input: string, rest: Output,
                  k: FactKind)
    requires Distinct(facts) && OneKind(facts, k) && ListOf(c, k) == []
    requires forall x: Fact<nat> :: x in facts ==> InRange(x, |c.symbols|) && Inverse(WriteFact, read, x)
    requires |facts| <= MAX_COUNT && At(input, WriteList(facts, WriteFact, rest))
    ensures Takes(ReadFacts(c, read, input), WithList(c, k, facts), rest)
  {
    hide At, ReadList, AddFacts, WithList, ListOf, OneKind, InRange, Inverse, WriteList, Distinct;
    ListBack(facts, WriteFact, read, input, rest);
    AddDistinctFacts(c, k, facts);
  }

  lemma SymbolsBack(symbols: seq<Symbol>, input: string, rest: Output)
    requires DistinctKeys(symbols) && |symbols| <= MAX_COUNT
    requires forall s :: s in symbols ==> Admissible(s) && SourceFits(s.source)
    requires At(input, WriteList(symbols, WriteSymbol, rest))
    ensures Takes(ReadSymbols(input), NOTHING.(symbols := symbols), rest)
  {
    hide At, ReadList, AddSymbols, DistinctKeys, SourceFits, Inverse, WriteList;
    forall s | s in symbols ensures Inverse(WriteSymbol, ReadSymbol, s) { SymbolInverse(s); }
    ListBack(symbols, WriteSymbol, ReadSymbol, input, rest);
    AddDistinctSymbols(symbols);
  }

  lemma TooManySymbols(symbols: seq<Symbol>, input: string, rest: Output)
    requires |symbols| > MAX_COUNT && At(input, WriteList(symbols, WriteSymbol, rest))
    ensures ReadSymbols(input).None?
  {
    hide At, ReadList, AddSymbols, WriteList;
    ListTooLong(symbols, WriteSymbol, ReadSymbol, input, rest);
  }

  lemma TooManyFacts(c: Contents, facts: seq<Fact<nat>>, read: string -> Reading<Fact<nat>>, input: string, rest: Output)
    requires |facts| > MAX_COUNT && At(input, WriteList(facts, WriteFact, rest))
    ensures ReadFacts(c, read, input).None?
  {
    hide At, ReadList, AddFacts, WriteList;
    ListTooLong(facts, WriteFact, read, input, rest);
  }

  /** What the reader needs to know of a valid graph, fact by fact. */
  lemma FactsReadable(c: Contents, x: Fact<nat>)
    requires Valid(c) && |c.symbols| <= MAX_COUNT && x in c.All()
    ensures InRange(x, |c.symbols|)
    ensures x.Edge? ==> Inverse(WriteFact, ReadEdge, x)
    ensures x.Root? ==> Inverse(WriteFact, ReadRoot, x)
    ensures x.Escape? ==> Inverse(WriteFact, ReadEscape, x)
    ensures x.Suppression? ==> Inverse(WriteFact, ReadSuppression, x)
  {
    hide Inverse;
    FactInverse(x);
  }

  lemma GraphBack(c: Contents, input: string, rest: Output)
    requires Valid(c) && SourcesFit(c) && At(input, WriteGraph(c, rest))
    ensures GraphFits(c) ==> Takes(ReadGraph(input), c, rest)
    ensures !GraphFits(c) ==> ReadGraph(input).None?
  {
    hide At, ReadSymbols, ReadFacts, WriteList, Inverse, InRange, DistinctKeys, Distinct, SourceFits;
    var t4 := WriteList(c.suppressions, WriteFact, rest);
    var t3 := WriteList(c.escapes, WriteFact, t4);
    var t2 := WriteList(c.roots, WriteFact, t3);
    var t1 := WriteList(c.edges, WriteFact, t2);
    if |c.symbols| > MAX_COUNT { TooManySymbols(c.symbols, input, t1); return; }
    forall x: Fact<nat> | x in c.All()
      ensures InRange(x, |c.symbols|)
      ensures x.Edge? ==> Inverse(WriteFact, ReadEdge, x)
      ensures x.Root? ==> Inverse(WriteFact, ReadRoot, x)
      ensures x.Escape? ==> Inverse(WriteFact, ReadEscape, x)
      ensures x.Suppression? ==> Inverse(WriteFact, ReadSuppression, x)
    {
      FactsReadable(c, x);
    }
    SymbolsBack(c.symbols, input, t1);
    var r1 := ReadSymbols(input).value.1;
    var c0 := NOTHING.(symbols := c.symbols);
    if |c.edges| > MAX_COUNT { TooManyFacts(c0, c.edges, ReadEdge, r1, t2); return; }
    FactsBack(c0, c.edges, ReadEdge, r1, t2, Edges);
    var c1 := c0.(edges := c.edges);
    var r2 := ReadFacts(c0, ReadEdge, r1).value.1;
    if |c.roots| > MAX_COUNT { TooManyFacts(c1, c.roots, ReadRoot, r2, t3); return; }
    FactsBack(c1, c.roots, ReadRoot, r2, t3, Roots);
    var c2 := c1.(roots := c.roots);
    var r3 := ReadFacts(c1, ReadRoot, r2).value.1;
    if |c.escapes| > MAX_COUNT { TooManyFacts(c2, c.escapes, ReadEscape, r3, t4); return; }
    FactsBack(c2, c.escapes, ReadEscape, r3, t4, Escapes);
    var c3 := c2.(escapes := c.escapes);
    var r4 := ReadFacts(c2, ReadEscape, r3).value.1;
    if |c.suppressions| > MAX_COUNT { TooManyFacts(c3, c.suppressions, ReadSuppression, r4, rest); return; }
    FactsBack(c3, c.suppressions, ReadSuppression, r4, rest, Suppressions);
  }

  // ---- the entry

  lemma HeaderBack(input: string, key: string, rest: Output)
    requires At(input, Word(MAGIC, Blank, Number(SCHEMA, Line, Quoted(key, Line, rest))))
    ensures Takes(ReadHeader(input, key), (), rest)
  {
    hide At, ReadWord, ReadInt, ReadQuoted;
    var t2 := Quoted(key, Line, rest);
    WordBack(input, MAGIC, Blank, Number(SCHEMA, Line, t2));
    var r1 := ReadWord(input).value.1;
    IntBack(r1, SCHEMA, Line, t2);
    QuotedBack(ReadInt(r1).value.1, key, Line, rest);
  }

  lemma ManifestBack(e: Entry, input: string, rest: Output)
    requires e.astBytes < TWO_64 && e.factBytes < TWO_64
    requires At(input, Number(e.astBytes, Blank, Number(e.factBytes, Line, WriteManifest(e, rest))))
    ensures ListsFit(e) ==> Takes(ReadManifest(input), e.(graph := NOTHING), rest)
    ensures !ListsFit(e) ==> ReadManifest(input).None?
  {
    hide At, ReadSize, ReadList, WriteList, Inverse, Stuck;
    forall d ensures Inverse(WriteDependency, ReadDependency, d) { DependencyInverse(d); }
    forall b ensures Inverse(WriteMatch, ReadMatch, b) { MatchInverse(b); }
    forall r: RecordBases
      ensures |r.bases| <= MAX_BASES ==> Inverse(WriteRecord, ReadRecord, r)
      ensures |r.bases| > MAX_BASES ==> Stuck(WriteRecord, ReadRecord, r)
    {
      if |r.bases| <= MAX_BASES { RecordInverse(r); } else { RecordStuck(r); }
    }
    forall s ensures Inverse(WriteString, ReadQuoted, s) { StringInverse(s); }
    var t5 := WriteList(e.diagnostics, WriteString, rest);
    var t4 := WriteList(e.records, WriteRecord, t5);
    var t3 := WriteList(e.ruleMatches, WriteMatch, t4);
    var t2 := WriteList(e.dependencies, WriteDependency, t3);
    SizeBack(input, e.astBytes, Blank, Number(e.factBytes, Line, t2));
    var r1 := ReadSize(input).value.1;
    SizeBack(r1, e.factBytes, Line, t2);
    var r2 := ReadSize(r1).value.1;
    if |e.dependencies| > MAX_COUNT { ListTooLong(e.dependencies, WriteDependency, ReadDependency, r2, t3); return; }
    ListBack(e.dependencies, WriteDependency, ReadDependency, r2, t3);
    var r3 := ReadList(ReadDependency, r2).value.1;
    if |e.ruleMatches| > MAX_COUNT { ListTooLong(e.ruleMatches, WriteMatch, ReadMatch, r3, t4); return; }
    ListBack(e.ruleMatches, WriteMatch, ReadMatch, r3, t4);
    var r4 := ReadList(ReadMatch, r3).value.1;
    if |e.records| > MAX_COUNT || exists r :: r in e.records && |r.bases| > MAX_BASES {
      ListRefused(e.records, WriteRecord, ReadRecord, r4, t5);
      return;
    }
    ListBack(e.records, WriteRecord, ReadRecord, r4, t5);
    var r5 := ReadList(ReadRecord, r4).value.1;
    if |e.diagnostics| > MAX_COUNT { ListTooLong(e.diagnostics, WriteString, ReadQuoted, r5, rest); return; }
    ListBack(e.diagnostics, WriteString, ReadQuoted, r5, rest);
  }

  /** Canonical form changes no count and no symbol. */
  lemma CanonicalFits(c: Contents)
    requires Valid(c) && SourcesFit(c)
    ensures Valid(Canonicalize(c)) && SourcesFit(Canonicalize(c)) && (GraphFits(Canonicalize(c)) <==> GraphFits(c))
  {
    hide Valid, SourceFits, KeyLess, FactLess, Moved;
    SortMembers(KeyLess, c.symbols);
    CanonicalizeKeepsView(c);
  }

  /** Reading under the same key what was written and is followed by tail: the counts must be within
      the limits and only blanks may follow; then the entry comes back with its graph in canonical
      form. */
  lemma EntryWithTail(key: string, e: Entry, tail: string)
    requires Sized(e)
    ensures ReadEntry(Render(WriteEntry(key, e, tail)), key) ==
      if CountsFit(e) && SkipSpace(tail) == [] then Some(e.(graph := Canonicalize(e.graph))) else None
  {
    hide ReadHeader, ReadManifest, ReadGraph, WriteManifest, WriteGraph, Valid, GraphFits, ListsFit, SourcesFit, Canonicalize;
    var input := Render(WriteEntry(key, e, tail));
    var g := Canonicalize(e.graph);
    CanonicalFits(e.graph);
    var t3 := WriteGraph(g, End(tail));
    var t2 := Number(e.astBytes, Blank, Number(e.factBytes, Line, WriteManifest(e, t3)));
    HeaderBack(input, key, t2);
    var r1 := ReadHeader(input, key).value.1;
    ManifestBack(e, r1, t3);
    if ListsFit(e) { GraphBack(g, ReadManifest(r1).value.1, End(tail)); }
  }

  /** Reading what was written under the same key gives the entry with its graph in canonical
      form, unless a count is over its limit: such an entry is written and never read. */
  lemma EntryRoundTrip(key: string, e: Entry)
    requires Sized(e)
    ensures ReadEntry(EntryText(key, e), key) == if CountsFit(e) then Some(e.(graph := Canonicalize(e.graph))) else None
  {
    hide ReadEntry, WriteEntry, Sized, CountsFit, Canonicalize;
    EntryWithTail(key, e, "");
  }

  /** An entry written under one key is not read under another. */
  lemma OtherKeyRejected(key: string, other: string, e: Entry)
    requires other != key
    ensures ReadEntry(EntryText(key, e), other).None?
  {
    hide ReadManifest, ReadGraph, WriteManifest, WriteGraph, Canonicalize, ReadWord, ReadInt, ReadQuoted;
    var t2 := Number(e.astBytes, Blank, Number(e.factBytes, Line, WriteManifest(e, WriteGraph(Canonicalize(e.graph), End("")))));
    HeaderBack(EntryText(key, e), key, t2);
  }

  // ---- what is read is always a valid graph

  lemma NothingValid()
    ensures Valid(NOTHING)
  {
  }

  lemma {:induction false} SymbolsReadValid(symbols: seq<Symbol>)
    ensures Valid(AddSymbols(NOTHING, symbols).contents)
  {
    hide Valid, Conflict, MergeSymbol;
    if symbols == [] {
      NothingValid();
    } else {
      var init, last := symbols[..|symbols| - 1], symbols[|symbols| - 1];
      SymbolsReadValid(init);
      if Admissible(last) { AddSymbolView(AddSymbols(NOTHING, init).contents, last); }
    }
  }

  lemma {:induction false} FactsReadValid(c: Contents, facts: seq<Fact<nat>>)
    requires Valid(c)
    ensures AddFacts(c, facts).Some? ==> Valid(AddFacts(c, facts).value)
  {
    hide Valid, InRange;
    if facts != [] {
      FactsReadValid(c, facts[..|facts| - 1]);
      var d := AddFacts(c, facts[..|facts| - 1]);
      if d.Some? && InRange(facts[|facts| - 1], |d.value.symbols|) { WithView(d.value, facts[|facts| - 1]); }
    }
  }

  /** No text, however it was made, is read as an invalid graph. */
  lemma EntryReadValid(input: string, key: string)
    ensures ReadEntry(input, key).Some? ==> Valid(ReadEntry(input, key).value.graph)
  {
    hide ReadHeader, ReadManifest, ReadList, AddFacts, AddSymbols, Valid;
    if ReadEntry(input, key).Some? {
      var r2 := ReadManifest(ReadHeader(input, key).value.1).value.1;
      SymbolsReadValid(ReadList(ReadSymbol, r2).value.0);
      var (c, r3) := ReadSymbols(r2).value;
      FactsReadValid(c, ReadList(ReadEdge, r3).value.0);
      var (c1, r4) := ReadFacts(c, ReadEdge, r3).value;
      FactsReadValid(c1, ReadList(ReadRoot, r4).value.0);
      var (c2, r5) := ReadFacts(c1, ReadRoot, r4).value;
      FactsReadValid(c2, ReadList(ReadEscape, r5).value.0);
      var (c3, r6) := ReadFacts(c2, ReadEscape, r5).value;
      FactsReadValid(c3, ReadList(ReadSuppression, r6).value.0);
    }
  }
}
