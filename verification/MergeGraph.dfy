/** Merging a batch of facts into a graph, symbol by symbol and fact by fact. */
module MergeGraphs {
  import opened Wrappers
  import opened Symbols
  import opened Facts
  import opened Merging
  import opened Graphs

  /** Adds one renumbered fact of a source graph. */
  method AddMoved(g: Graph, positions: seq<nat>, x: Fact<nat>)
    requires g.Valid() && InRange(Moved(positions, x), |g.symbols|)
    modifies g`edges, g`roots, g`escapes, g`suppressions
    ensures g.Valid() && g.Value() == With(old(g.Value()), Moved(positions, x))
  {
    match x {
      case Edge(from, to, k, e) =>
        var _ := g.AddEdge(Move(positions, from), Move(positions, to), k, e);
      case Root(symbol, k, e) =>
        var _ := g.AddRoot(Move(positions, symbol), k, e);
      case Escape(symbol, origin, k, e) =>
        var _ := g.AddEscape(Move(positions, symbol), k, e,
                             if origin.Some? then Some(Move(positions, origin.value)) else None);
      case Suppression(symbol, e) =>
        var _ := g.AddSuppression(Move(positions, symbol), e);
    }
  }

  method AddMovedList(g: Graph, positions: seq<nat>, symbols: seq<Symbol>, ghost before: Contents,
                      ghost done: seq<Fact<nat>>, list: seq<Fact<nat>>)
    requires Facts.Valid(before) && Placed(before, positions, symbols)
    requires forall x: Fact<nat> :: x in done + list ==> InRange(x, |symbols|)
    requires g.Valid() && g.Value() == WithAll(before, positions, done)
    modifies g`edges, g`roots, g`escapes, g`suppressions
    ensures g.Valid() && g.Value() == WithAll(before, positions, done + list)
  {
    hide Facts.Valid, Inverse;
    assert done + [] == done;
    for i := 0 to |list|
      invariant g.Valid() && g.Value() == WithAll(before, positions, done + list[..i])
    {
      var x := list[i];
      assert done + list[..i + 1] == (done + list[..i]) + [x];
      assert x in done + list;
      forall y: Fact<nat> | y in done + list[..i] ensures InRange(y, |symbols|) { assert y in done + list; }
      WithAllView(before, positions, symbols, done + list[..i]);
      MovedKeyed(before, positions, symbols, x);
      AddMoved(g, positions, x);
    }
    assert list[..|list|] == list;
  }

  /** Merges a batch into the destination. On a conflict the symbols merged before it stay. */
  method MergeGraph(destination: Graph, source: Contents) returns (r: Result<(), GraphError>)
    requires destination.Valid() && Facts.Valid(source)
    modifies destination
    ensures destination.Valid()
    ensures match Merge(old(destination.Value()), source)
            case Ok(c) => r == Ok(()) && destination.Value() == c
            case Err(e) => r == Err(e) && destination.Value() == AddSymbols(old(destination.Value()), source.symbols).contents
  {
    hide Facts.Valid, Inverse, AddSymbol, Conflict, MergeSymbol, Placed;
    ghost var before := destination.Value();
    var positions: seq<nat> := [];
    for i := 0 to |source.symbols|
      invariant destination.Valid()
      invariant AddSymbols(before, source.symbols[..i]) == Progress(destination.Value(), positions, None)
    {
      assert source.symbols[..i + 1][..i] == source.symbols[..i];
      ghost var here := destination.Value();
      var added := destination.AddOrMergeSymbol(source.symbols[i]);
      match added {
        case Err(e) =>
          assert AddSymbols(before, source.symbols[..i + 1]) == Progress(here, positions, Some(e));
          ErrorStays(before, source.symbols, i + 1);
          return Err(e);
        case Ok(id) => positions := positions + [id];
      }
    }
    assert source.symbols[..|source.symbols|] == source.symbols;
    ghost var middle := destination.Value();
    SourceSymbols(before, source);
    AddMovedList(destination, positions, source.symbols, middle, [], source.edges);
    assert [] + source.edges == source.edges;
    AddMovedList(destination, positions, source.symbols, middle, source.edges, source.roots);
    AddMovedList(destination, positions, source.symbols, middle, source.edges + source.roots, source.escapes);
    AddMovedList(destination, positions, source.symbols, middle, source.edges + source.roots + source.escapes, source.suppressions);
    r := Ok(());
  }

  lemma {:induction false} ErrorStays(c: Contents, symbols: seq<Symbol>, i: nat)
    requires i <= |symbols| && AddSymbols(c, symbols[..i]).error.Some?
    ensures AddSymbols(c, symbols) == AddSymbols(c, symbols[..i])
  {
    if i == |symbols| {
      assert symbols[..i] == symbols;
    } else {
      var init := symbols[..|symbols| - 1];
      assert init[..i] == symbols[..i];
      ErrorStays(c, init, i);
    }
  }

  lemma SourceSymbols(before: Contents, source: Contents)
    requires Facts.Valid(before) && Facts.Valid(source) && AddSymbols(before, source.symbols).error.None?
    ensures var p := AddSymbols(before, source.symbols);
            Facts.Valid(p.contents) && Placed(p.contents, p.positions, source.symbols)
    ensures forall x: Fact<nat> :: x in source.All() ==> InRange(x, |source.symbols|)
  {
    AddSymbolsView(before, source.symbols);
  }
}
