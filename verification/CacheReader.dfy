/** The reader of cache entries as the program runs it: it walks the input and fills a graph. */
module CacheReader {
  import opened Wrappers
  import opened Symbols
  import opened Facts
  import opened Merging
  import opened Graphs
  import opened Streams
  import opened CacheText

  method ReadSeveral<T>(read: string -> Reading<T>, input: string) returns (r: Reading<seq<T>>)
    ensures r == ReadList(read, input)
  {
    var size := ReadSize(input);
    if size.None? { return None; }
    var (count, start) := size.value;
    if count > MAX_COUNT { return None; }
    var list: seq<T>, rest := [], start;
    for index := 0 to count
      invariant ReadMany(index, read, start) == Some((list, rest))
    {
      ReadManyStops(index + 1, count, read, start);
      var next := read(rest);
      if next.None? { return None; }
      list, rest := list + [next.value.0], next.value.1;
    }
    r := Some((list, rest));
  }

  /** The first n symbols have been read and added. */
  ghost predicate SymbolsSoFar(c: Contents, n: nat, start: string, rest: string) {
    && ReadMany(n, ReadSymbol, start).Some? && ReadMany(n, ReadSymbol, start).value.1 == rest
    && var p := AddSymbols(NOTHING, ReadMany(n, ReadSymbol, start).value.0);
    p.error.None? && p.contents == c
  }

  lemma {:induction false} AddSymbolsStops(symbols: seq<Symbol>, m: nat)
    requires m <= |symbols| && AddSymbols(NOTHING, symbols[..m]).error.Some?
    ensures AddSymbols(NOTHING, symbols).error.Some?
  {
    hide AddSymbol;
    if m < |symbols| {
      assert symbols[..|symbols| - 1][..m] == symbols[..m];
      AddSymbolsStops(symbols[..|symbols| - 1], m);
    } else {
      assert symbols[..m] == symbols;
    }
  }

  /** An error at one symbol makes the whole list fail. */
  lemma SymbolFails(n: nat, count: nat, start: string)
    requires n < count && ReadMany(n, ReadSymbol, start).Some?
    requires var (list, rest) := ReadMany(n, ReadSymbol, start).value;
             ReadSymbol(rest).None? || AddSymbols(NOTHING, list + [ReadSymbol(rest).value.0]).error.Some?
    ensures ReadMany(count, ReadSymbol, start).Some? ==>
              AddSymbols(NOTHING, ReadMany(count, ReadSymbol, start).value.0).error.Some?
  {
    hide ReadSymbol, AddSymbols;
    ReadManyStops(n + 1, count, ReadSymbol, start);
    if ReadMany(count, ReadSymbol, start).Some? {
      AddSymbolsStops(ReadMany(count, ReadSymbol, start).value.0, n + 1);
    }
  }

  lemma NextSymbol(c: Contents, n: nat, start: string, rest: string)
    requires SymbolsSoFar(c, n, start, rest) && ReadSymbol(rest).Some?
    ensures var (s, rest') := ReadSymbol(rest).value;
            var list := ReadMany(n, ReadSymbol, start).value.0;
            && (AddSymbol(c, s).Ok? ==> SymbolsSoFar(AddSymbol(c, s).value.0, n + 1, start, rest'))
            && (AddSymbol(c, s).Err? ==> AddSymbols(NOTHING, list + [s]).error.Some?)
  {
    hide ReadSymbol, AddSymbol;
    var (s, rest') := ReadSymbol(rest).value;
    var list := ReadMany(n, ReadSymbol, start).value.0;
    assert (list + [s])[..|list|] == list;
  }

  method FillSymbols(graph: Graph, input: string) returns (r: Option<string>)
    requires graph.Valid() && graph.Value() == NOTHING
    modifies graph
    ensures graph.Valid()
    ensures match ReadSymbols(input)
            case Some((c, rest)) => r == Some(rest) && graph.Value() == c
            case None => r == None
  {
    hide ReadSymbol, AddSymbol, AddSymbols, Facts.Valid, ReadMany;
    var size := ReadSize(input);
    if size.None? { return None; }
    var (count, rest) := size.value;
    if count > MAX_COUNT { return None; }
    ghost var start := rest;
    assert SymbolsSoFar(graph.Value(), 0, start, rest) by { NoSymbols(start); }
    for index := 0 to count
      invariant graph.Valid() && SymbolsSoFar(graph.Value(), index, start, rest)
    {
      var next := ReadSymbol(rest);
      if next.None? {
        SymbolFails(index, count, start);
        return None;
      }
      NextSymbol(graph.Value(), index, start, rest);
      var added := graph.AddOrMergeSymbol(next.value.0);
      if added.Err? {
        SymbolFails(index, count, start);
        return None;
      }
      rest := next.value.1;
    }
    r := Some(rest);
  }

  lemma NoSymbols(start: string)
    ensures SymbolsSoFar(NOTHING, 0, start, start)
  {
  }

  // ---- facts

  method AddFactTo(graph: Graph, x: Fact<nat>) returns (r: Result<(), GraphError>)
    requires graph.Valid()
    modifies graph
    ensures graph.Valid()
    ensures r.Ok? <==> InRange(x, |old(graph.symbols)|)
    ensures graph.Value() == if r.Ok? then With(old(graph.Value()), x) else old(graph.Value())
  {
    hide Facts.Valid, Graphs.Inverse;
    match x {
      case Edge(from, to, kind, evidence) => r := graph.AddEdge(from, to, kind, evidence);
      case Root(symbol, kind, evidence) => r := graph.AddRoot(symbol, kind, evidence);
      case Escape(symbol, origin, kind, evidence) => r := graph.AddEscape(symbol, kind, evidence, origin);
      case Suppression(symbol, evidence) => r := graph.AddSuppression(symbol, evidence);
    }
  }

  lemma {:induction false} AddFactsStops(c: Contents, facts: seq<Fact<nat>>, m: nat)
    requires m <= |facts| && AddFacts(c, facts[..m]).None?
    ensures AddFacts(c, facts).None?
  {
    if m < |facts| {
      assert facts[..|facts| - 1][..m] == facts[..m];
      AddFactsStops(c, facts[..|facts| - 1], m);
    } else {
      assert facts[..m] == facts;
    }
  }

  ghost predicate FactsSoFar(c0: Contents, c: Contents, read: string -> Reading<Fact<nat>>, n: nat, start: string, rest: string) {
    && ReadMany(n, read, start).Some? && ReadMany(n, read, start).value.1 == rest
    && AddFacts(c0, ReadMany(n, read, start).value.0) == Some(c)
  }

  lemma FactFails(c: Contents, read: string -> Reading<Fact<nat>>, n: nat, count: nat, start: string)
    requires n < count && ReadMany(n, read, start).Some?
    requires var (list, rest) := ReadMany(n, read, start).value;
             read(rest).None? || AddFacts(c, list + [read(rest).value.0]).None?
    ensures ReadMany(count, read, start).Some? ==> AddFacts(c, ReadMany(count, read, start).value.0).None?
  {
    hide AddFacts;
    ReadManyStops(n + 1, count, read, start);
    if ReadMany(count, read, start).Some? {
      AddFactsStops(c, ReadMany(count, read, start).value.0, n + 1);
    }
  }

  lemma NextFact(c0: Contents, c: Contents, read: string -> Reading<Fact<nat>>, n: nat, start: string, rest: string)
    requires FactsSoFar(c0, c, read, n, start, rest) && read(rest).Some?
    ensures var (x, rest') := read(rest).value;
            var list := ReadMany(n, read, start).value.0;
            && (InRange(x, |c.symbols|) ==> FactsSoFar(c0, With(c, x), read, n + 1, start, rest'))
            && (!InRange(x, |c.symbols|) ==> AddFacts(c0, list + [x]).None?)
  {
    hide With, InRange;
    var (x, rest') := read(rest).value;
    var list := ReadMany(n, read, start).value.0;
    assert (list + [x])[..|list|] == list;
  }

  method FillFacts(graph: Graph, read: string -> Reading<Fact<nat>>, input: string) returns (r: Option<string>)
    requires graph.Valid()
    modifies graph
    ensures graph.Valid()
    ensures match ReadFacts(old(graph.Value()), read, input)
            case Some((c, rest)) => r == Some(rest) && graph.Value() == c
            case None => r == None
  {
    hide AddFacts, With, InRange, Facts.Valid, ReadMany;
    var size := ReadSize(input);
    if size.None? { return None; }
    var (count, rest) := size.value;
    if count > MAX_COUNT { return None; }
    ghost var c0, start := graph.Value(), rest;
    assert FactsSoFar(c0, graph.Value(), read, 0, start, rest) by { NoFacts(c0, read, start); }
    for index := 0 to count
      invariant graph.Valid() && FactsSoFar(c0, graph.Value(), read, index, start, rest)
    {
      var next := read(rest);
      if next.None? {
        FactFails(c0, read, index, count, start);
        return None;
      }
      NextFact(c0, graph.Value(), read, index, start, rest);
      var added := AddFactTo(graph, next.value.0);
      if added.Err? {
        FactFails(c0, read, index, count, start);
        return None;
      }
      rest := next.value.1;
    }
    r := Some(rest);
  }

  lemma NoFacts(c: Contents, read: string -> Reading<Fact<nat>>, start: string)
    ensures FactsSoFar(c, c, read, 0, start, start)
  {
  }

  // ---- the entry

  method FillGraph(graph: Graph, input: string) returns (r: Option<string>)
    requires graph.Valid() && graph.Value() == NOTHING
    modifies graph
    ensures graph.Valid()
    ensures match ReadGraph(input)
            case Some((c, rest)) => r == Some(rest) && graph.Value() == c
            case None => r == None
  {
    hide ReadSymbols, ReadFacts, Facts.Valid, Graphs.Inverse;
    var rest := FillSymbols(graph, input);
    if rest.None? { return None; }
    rest := FillFacts(graph, ReadEdge, rest.value);
    if rest.None? { return None; }
    rest := FillFacts(graph, ReadRoot, rest.value);
    if rest.None? { return None; }
    rest := FillFacts(graph, ReadEscape, rest.value);
    if rest.None? { return None; }
    r := FillFacts(graph, ReadSuppression, rest.value);
  }

  /** Reads the entry stored for a key. */
  method Read(input: string, key: string) returns (r: Option<Entry>)
    ensures r == ReadEntry(input, key)
  {
    hide ReadHeader, ReadSize, ReadList, ReadGraph;
    var header := ReadHeader(input, key);
    if header.None? { return None; }
    var astBytes := ReadSize(header.value.1);
    if astBytes.None? { return None; }
    var factBytes := ReadSize(astBytes.value.1);
    if factBytes.None? { return None; }
    var dependencies := ReadSeveral(ReadDependency, factBytes.value.1);
    if dependencies.None? { return None; }
    var matches := ReadSeveral(ReadMatch, dependencies.value.1);
    if matches.None? { return None; }
    var records := ReadSeveral(ReadRecord, matches.value.1);
    if records.None? { return None; }
    var diagnostics := ReadSeveral(ReadQuoted, records.value.1);
    if diagnostics.None? { return None; }
    var graph := new Graph();
    var rest := FillGraph(graph, diagnostics.value.1);
    if rest.None? || SkipSpace(rest.value) != [] { return None; }
    r := Some(Entry(graph.Value(), diagnostics.value.0, matches.value.0, records.value.0, dependencies.value.0,
                    astBytes.value.0, factBytes.value.0));
  }
}
