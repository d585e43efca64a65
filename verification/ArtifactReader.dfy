/** The artifact reader as it runs: it parses the document and fills a graph, with an index from
    symbol ids to positions. */
module ArtifactReader {
  import opened Wrappers
  import opened Symbols
  import opened Identities
  import opened Facts
  import opened Merging
  import opened Canonical
  import opened Graphs
  import opened Json
  import opened Artifact
  import JsonParser

  /** ids holds the position of every symbol of the graph. */
  ghost predicate Indexes(ids: map<string, nat>, symbols: seq<Symbol>) {
    forall k :: (if k in ids then Some(ids[k]) else None) == Find(symbols, k)
  }

  lemma {:induction false} SymbolsStop(items: seq<Value>, i: nat, configuration: string, numbers: Numbers)
    requires i <= |items| && ReadSymbols(items[..i], configuration, numbers).Err?
    ensures ReadSymbols(items, configuration, numbers) == ReadSymbols(items[..i], configuration, numbers)
  {
    hide ReadSymbol, AddSymbol;
    if i < |items| {
      assert items[..|items| - 1][..i] == items[..i];
      SymbolsStop(items[..|items| - 1], i, configuration, numbers);
    } else {
      assert items[..i] == items;
    }
  }

  lemma {:induction false} FactsStop(items: seq<Value>, i: nat, kind: FactKind, c: Contents)
    requires i <= |items| && ReadFacts(items[..i], kind, c).Err?
    ensures ReadFacts(items, kind, c) == ReadFacts(items[..i], kind, c)
  {
    hide ReadFact, Positioned, With;
    if i < |items| {
      assert items[..|items| - 1][..i] == items[..i];
      FactsStop(items[..|items| - 1], i, kind, c);
    } else {
      assert items[..i] == items;
    }
  }

  lemma NextSymbol(items: seq<Value>, i: nat, configuration: string, numbers: Numbers, c: Contents)
    requires i < |items| && ReadSymbols(items[..i], configuration, numbers) == Ok(c)
    ensures ReadSymbols(items[..i + 1], configuration, numbers) ==
      match ReadSymbol(items[i], numbers)
      case Err(e) => Err(e)
      case Ok(s) =>
        if s.identity.configuration != configuration then Err(ConfigurationMismatch)
        else if Find(c.symbols, s.key).Some? then Err(DuplicateSymbol)
        else match AddSymbol(c, s)
          case Ok((d, _)) => Ok(d)
          case Err(_) => Err(BadSymbol)
  {
    hide ReadSymbol, AddSymbol, Find;
    assert items[..i + 1][..i] == items[..i];
  }

  lemma NextIndex(ids: map<string, nat>, c: Contents, s: Symbol)
    requires Indexes(ids, c.symbols) && Find(c.symbols, s.key).None? && AddSymbol(c, s).Ok?
    ensures Indexes(ids[s.key := |c.symbols|], AddSymbol(c, s).value.0.symbols)
  {
    var d := AddSymbol(c, s).value.0;
    assert d.symbols[..|d.symbols| - 1] == c.symbols;
  }

  method FillSymbols(graph: Graph, items: seq<Value>, configuration: string, numbers: Numbers)
    returns (r: Result<(), Flaw>, ids: map<string, nat>)
    requires graph.Valid() && graph.Value() == NOTHING
    modifies graph
    ensures graph.Valid()
    ensures match ReadSymbols(items, configuration, numbers)
            case Ok(c) => r == Ok(()) && graph.Value() == c && Indexes(ids, c.symbols)
            case Err(e) => r == Err(e)
  {
    hide Facts.Valid, Graphs.Inverse, ReadSymbol, AddSymbol, ReadSymbols;
    ids := map[];
    NoSymbols(configuration, numbers);
    for i := 0 to |items|
      invariant graph.Valid() && Indexes(ids, graph.symbols)
      invariant ReadSymbols(items[..i], configuration, numbers) == Ok(graph.Value())
    {
      NextSymbol(items, i, configuration, numbers, graph.Value());
      if ReadSymbols(items[..i + 1], configuration, numbers).Err? { SymbolsStop(items, i + 1, configuration, numbers); }
      var symbol := ReadSymbol(items[i], numbers);
      if symbol.Err? { return Err(symbol.error), ids; }
      var s := symbol.value;
      if s.identity.configuration != configuration { return Err(ConfigurationMismatch), ids; }
      if s.key in ids { return Err(DuplicateSymbol), ids; }
      ghost var before := graph.Value();
      var added := graph.AddOrMergeSymbol(s);
      if added.Err? { return Err(BadSymbol), ids; }
      NewPosition(before, s);
      NextIndex(ids, before, s);
      ids := ids[s.key := added.value];
    }
    assert items[..|items|] == items;
    r := Ok(());
  }

  lemma NoSymbols(configuration: string, numbers: Numbers)
    ensures forall items: seq<Value> :: items == [] ==> ReadSymbols(items, configuration, numbers) == Ok(NOTHING)
  {
  }

  lemma NewPosition(c: Contents, s: Symbol)
    requires Find(c.symbols, s.key).None? && AddSymbol(c, s).Ok?
    ensures AddSymbol(c, s).value.1 == |c.symbols|
  {
    hide Conflict, MergeSymbol;
  }

  /** The fact between the positions that the index gives. */
  function Located(ids: map<string, nat>, x: Fact<string>): Option<Fact<nat>> {
    match x
    case Edge(from, to, k, e) => if from in ids && to in ids then Some(Edge(ids[from], ids[to], k, e)) else None
    case Root(symbol, k, e) => if symbol in ids then Some(Root(ids[symbol], k, e)) else None
    case Escape(symbol, origin, k, e) =>
      if symbol !in ids || (origin.Some? && origin.value !in ids) then None
      else Some(Escape(ids[symbol], if origin.Some? then Some(ids[origin.value]) else None, k, e))
    case Suppression(symbol, e) => if symbol in ids then Some(Suppression(ids[symbol], e)) else None
  }

  lemma LocatedIsPositioned(ids: map<string, nat>, symbols: seq<Symbol>, x: Fact<string>)
    requires Indexes(ids, symbols)
    ensures Located(ids, x) == Positioned(symbols, x)
    ensures Located(ids, x).Some? ==> InRange(Located(ids, x).value, |symbols|)
  {
  }

  lemma NextFact(items: seq<Value>, i: nat, kind: FactKind, c0: Contents, c: Contents)
    requires i < |items| && ReadFacts(items[..i], kind, c0) == Ok(c)
    ensures ReadFacts(items[..i + 1], kind, c0) ==
      match ReadFact(items[i], kind)
      case Err(e) => Err(e)
      case Ok(x) =>
        match Positioned(c.symbols, x)
        case Some(y) => Ok(With(c, y))
        case None => Err(UnknownSymbol)
  {
    hide ReadFact, Positioned, With;
    assert items[..i + 1][..i] == items[..i];
  }

  method AddOne(graph: Graph, x: Fact<nat>)
    requires graph.Valid() && InRange(x, |graph.symbols|)
    modifies graph
    ensures graph.Valid() && graph.symbols == old(graph.symbols) && graph.Value() == With(old(graph.Value()), x)
  {
    hide Facts.Valid, Graphs.Inverse;
    match x {
      case Edge(from, to, kind, evidence) => var _ := graph.AddEdge(from, to, kind, evidence);
      case Root(symbol, kind, evidence) => var _ := graph.AddRoot(symbol, kind, evidence);
      case Escape(symbol, origin, kind, evidence) => var _ := graph.AddEscape(symbol, kind, evidence, origin);
      case Suppression(symbol, evidence) => var _ := graph.AddSuppression(symbol, evidence);
    }
  }

  method FillFacts(graph: Graph, items: seq<Value>, kind: FactKind, ids: map<string, nat>) returns (r: Result<(), Flaw>)
    requires graph.Valid() && Indexes(ids, graph.symbols)
    modifies graph
    ensures graph.Valid() && graph.symbols == old(graph.symbols)
    ensures match ReadFacts(items, kind, old(graph.Value()))
            case Ok(c) => r == Ok(()) && graph.Value() == c
            case Err(e) => r == Err(e)
  {
    hide Facts.Valid, Graphs.Inverse, ReadFact, Positioned, Located, With, ReadFacts, InRange, Indexes;
    ghost var c0 := graph.Value();
    NoFacts(kind, c0);
    for i := 0 to |items|
      invariant graph.Valid() && graph.symbols == c0.symbols
      invariant ReadFacts(items[..i], kind, c0) == Ok(graph.Value())
    {
      NextFact(items, i, kind, c0, graph.Value());
      if ReadFacts(items[..i + 1], kind, c0).Err? { FactsStop(items, i + 1, kind, c0); }
      var x := ReadFact(items[i], kind);
      if x.Err? { return Err(x.error); }
      LocatedIsPositioned(ids, graph.symbols, x.value);
      var y := Located(ids, x.value);
      if y.None? { return Err(UnknownSymbol); }
      AddOne(graph, y.value);
    }
    assert items[..|items|] == items;
    r := Ok(());
  }

  lemma NoFacts(kind: FactKind, c: Contents)
    ensures forall items: seq<Value> :: items == [] ==> ReadFacts(items, kind, c) == Ok(c)
  {
  }

  /** Reads a whole artifact. */
  method ReadArtifact(text: string, numbers: Numbers) returns (r: Result<Artifact, Flaw>)
    ensures r == Read(text, numbers)
  {
    hide Facts.Valid, Graphs.Inverse, Indexes, ReadSymbols, ReadFacts, ReadMetadata, RequireKeys, SizeField, ArrayField;
    hide ReadStrings, Canonical.Canonicalize, ParseDocument;
    var parser := new JsonParser.Parser(text, numbers.representable);
    var document := parser.ReadDocument();
    if document.Err? { return Err(NotJson); }
    var m :- RequireKeys(document.value, DOCUMENT_KEYS);
    var schema :- SizeField(m, "artifact_schema_version", numbers);
    var identities :- SizeField(m, "identity_schema_version", numbers);
    if schema != ARTIFACT_SCHEMA || identities != IDENTITY_SCHEMA { return Err(UnsupportedSchema); }
    var metadata :- ReadMetadata(m, numbers);
    var graph := new Graph();
    var symbols :- ArrayField(m, "symbols");
    var filled, ids := FillSymbols(graph, symbols, metadata.configurationId, numbers);
    if filled.Err? { return Err(filled.error); }
    var edges :- ArrayField(m, "edges");
    filled := FillFacts(graph, edges, Edges, ids);
    if filled.Err? { return Err(filled.error); }
    var roots :- ArrayField(m, "roots");
    filled := FillFacts(graph, roots, Roots, ids);
    if filled.Err? { return Err(filled.error); }
    var escapes :- ArrayField(m, "escapes");
    filled := FillFacts(graph, escapes, Escapes, ids);
    if filled.Err? { return Err(filled.error); }
    var suppressions :- ArrayField(m, "suppressions");
    filled := FillFacts(graph, suppressions, Suppressions, ids);
    if filled.Err? { return Err(filled.error); }
    var messages :- ArrayField(m, "diagnostics");
    var diagnostics :- ReadStrings(messages);
    graph.Canonicalize();
    r := Ok(Artifact(graph.Value(), metadata, diagnostics));
  }
}
