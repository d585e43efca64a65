/** The mutable graph: vectors of symbols and facts, and an index from key to position. */
module Graphs {
  import opened Wrappers
  import opened Orders
  import opened Symbols
  import opened Facts
  import opened Merging
  import opened Canonical

  class Graph {
    var symbols: seq<Symbol>
    var edges: seq<Fact<nat>>
    var roots: seq<Fact<nat>>
    var escapes: seq<Fact<nat>>
    var suppressions: seq<Fact<nat>>
    var keyToId: map<string, nat>

    function Value(): Contents
      reads this
    {
      Contents(symbols, edges, roots, escapes, suppressions)
    }

    /** The index is the exact inverse of the symbol keys, and the contents are valid. */
    ghost predicate Valid()
      reads this
    {
      Facts.Valid(Value()) && Inverse(symbols, keyToId)
    }

    constructor ()
      ensures Valid() && Value() == NOTHING
    {
      symbols, edges, roots, escapes, suppressions, keyToId := [], [], [], [], [], map[];
    }

    method AddOrMergeSymbol(s: Symbol) returns (r: Result<nat, GraphError>)
      requires Valid()
      modifies this
      ensures Valid()
      ensures match AddSymbol(old(Value()), s)
              case Ok((c, id)) => r == Ok(id) && Value() == c
              case Err(e) => r == Err(e) && Value() == old(Value())
    {
      hide Conflict, MergeSymbol, Facts.Valid;
      if s.key == [] { return Err(EmptyKey); }
      if s.scope == Excluded { return Err(ExcludedSymbol); }
      InverseFind(symbols, keyToId, s.key);
      AddSymbolKeepsValid(Value(), s);
      if AddSymbol(Value(), s).Ok? { InverseAfterAdd(Value(), s, keyToId); }
      if s.key in keyToId {
        var id := keyToId[s.key];
        match Conflict(symbols[id], s) {
          case Some(field) => return Err(Incompatible(field));
          case None =>
            assert keyToId[s.key := id] == keyToId;
            symbols := symbols[id := MergeSymbol(symbols[id], s)];
            r := Ok(id);
        }
      } else {
        keyToId := keyToId[s.key := |symbols|];
        symbols := symbols + [s];
        r := Ok(|symbols| - 1);
      }
    }

    method AddEdge(from: nat, to: nat, kind: EdgeKind, evidence: Evidence) returns (r: Result<(), GraphError>)
      requires Valid()
      modifies this`edges
      ensures Valid()
      ensures r == if from < |symbols| && to < |symbols| then Ok(()) else Err(OutOfRange)
      ensures Value() == if r.Ok? then With(old(Value()), Edge(from, to, kind, evidence)) else old(Value())
    {
      if from >= |symbols| || to >= |symbols| { return Err(OutOfRange); }
      var x := Edge(from, to, kind, evidence);
      WithView(Value(), x);
      if x !in edges { edges := edges + [x]; }
      r := Ok(());
    }

    method AddRoot(id: nat, kind: RootKind, evidence: Evidence) returns (r: Result<(), GraphError>)
      requires Valid()
      modifies this`roots
      ensures Valid()
      ensures r == if id < |symbols| then Ok(()) else Err(OutOfRange)
      ensures Value() == if r.Ok? then With(old(Value()), Root(id, kind, evidence)) else old(Value())
    {
      if id >= |symbols| { return Err(OutOfRange); }
      var x := Root(id, kind, evidence);
      WithView(Value(), x);
      if x !in roots { roots := roots + [x]; }
      r := Ok(());
    }

    method AddEscape(id: nat, kind: EscapeKind, evidence: Evidence, origin: Option<nat>) returns (r: Result<(), GraphError>)
      requires Valid()
      modifies this`escapes
      ensures Valid()
      ensures r == if id < |symbols| && (origin.Some? ==> origin.value < |symbols|) then Ok(()) else Err(OutOfRange)
      ensures Value() == if r.Ok? then With(old(Value()), Escape(id, origin, kind, evidence)) else old(Value())
    {
      if id >= |symbols| || (origin.Some? && origin.value >= |symbols|) { return Err(OutOfRange); }
      var x := Escape(id, origin, kind, evidence);
      WithView(Value(), x);
      if x !in escapes { escapes := escapes + [x]; }
      r := Ok(());
    }

    method AddSuppression(id: nat, evidence: Evidence) returns (r: Result<(), GraphError>)
      requires Valid()
      modifies this`suppressions
      ensures Valid()
      ensures r == if id < |symbols| then Ok(()) else Err(OutOfRange)
      ensures Value() == if r.Ok? then With(old(Value()), Suppression(id, evidence)) else old(Value())
    {
      if id >= |symbols| { return Err(OutOfRange); }
      var x: Fact<nat> := Suppression(id, evidence);
      WithView(Value(), x);
      if x !in suppressions { suppressions := suppressions + [x]; }
      r := Ok(());
    }

    method FindByKey(key: string) returns (r: Option<nat>)
      requires Valid()
      ensures r == Find(symbols, key)
    {
      InverseFind(symbols, keyToId, key);
      r := if key in keyToId then Some(keyToId[key]) else None;
    }

    /** Sorts the positions by key, moves the symbols, renumbers every fact and sorts the
        fact vectors. */
    method Canonicalize()
      requires Valid()
      modifies this
      ensures Valid()
      ensures Value() == Canonical.Canonicalize(old(Value()))
    {
      hide Facts.Valid, SortFacts, IsCanonical, KeyLess, StrictlySortedBy, Rebuilt, IndexOf;
      ghost var c := Value();
      ValidKeys(c);
      var sortedSymbols, remap, order := SortSymbols(symbols);
      symbols := sortedSymbols;
      edges := SortFacts(remap, edges);
      roots := SortFacts(remap, roots);
      escapes := SortFacts(remap, escapes);
      suppressions := SortFacts(remap, suppressions);
      ReorderedIsRebuilt(c, Value(), order, remap);
      RebuiltIsCanonicalize(c, Value(), remap);
      CanonicalizeKeepsView(c);
      ValidKeys(Value());
      keyToId := BuildIndex(symbols);
      IndexIsInverse(symbols, keyToId);
    }
  }

  /** Sorts the positions by key and moves the symbols; remap says where each one went. */
  method SortSymbols(symbols: seq<Symbol>) returns (sorted: seq<Symbol>, remap: seq<nat>, ghost order: seq<nat>)
    requires DistinctKeys(symbols)
    ensures IsOrder(symbols, order)
    ensures |sorted| == |remap| == |symbols|
    ensures forall j :: 0 <= j < |symbols| ==> sorted[j] == symbols[order[j]] && remap[order[j]] == j
  {
    hide Sort, Ids, IdOrder, KeyLess;
    var n := |symbols|;
    var ids := Sort(IdOrder(symbols), Ids(n));
    order := ids;
    OrderSpec(symbols, order);
    remap := seq(n, _ => 0 as nat);
    sorted := [];
    for id := 0 to n
      invariant |remap| == n && |sorted| == id
      invariant forall j :: 0 <= j < id ==> sorted[j] == symbols[ids[j]] && remap[ids[j]] == j
    {
      remap := remap[ids[id] := id];
      sorted := sorted + [symbols[ids[id]]];
    }
  }

  method BuildIndex(symbols: seq<Symbol>) returns (keyToId: map<string, nat>)
    requires DistinctKeys(symbols)
    ensures IndexOf(symbols, keyToId, |symbols|)
  {
    keyToId := map[];
    for id := 0 to |symbols|
      invariant IndexOf(symbols, keyToId, id)
    {
      keyToId := keyToId[symbols[id].key := id];
    }
  }

  ghost predicate Inverse(symbols: seq<Symbol>, keyToId: map<string, nat>) {
    && (forall i :: 0 <= i < |symbols| ==> symbols[i].key in keyToId && keyToId[symbols[i].key] == i)
    && (forall k :: k in keyToId ==> keyToId[k] < |symbols| && symbols[keyToId[k]].key == k)
  }

  lemma InverseFind(symbols: seq<Symbol>, keyToId: map<string, nat>, key: string)
    requires Inverse(symbols, keyToId)
    ensures Find(symbols, key) == if key in keyToId then Some(keyToId[key]) else None
  {
  }

  lemma InverseAfterAdd(c: Contents, s: Symbol, keyToId: map<string, nat>)
    requires Inverse(c.symbols, keyToId) && AddSymbol(c, s).Ok?
    ensures var (d, id) := AddSymbol(c, s).value; Inverse(d.symbols, keyToId[s.key := id])
  {
    hide Conflict, MergeIdentity, SourceBefore, PrimaryExtent;
    InverseFind(c.symbols, keyToId, s.key);
  }

  lemma AddSymbolKeepsValid(c: Contents, s: Symbol)
    requires Facts.Valid(c) && Admissible(s)
    ensures AddSymbol(c, s).Ok? ==> Facts.Valid(AddSymbol(c, s).value.0)
  {
    AddSymbolView(c, s);
  }

  predicate IdLess(symbols: seq<Symbol>, a: nat, b: nat) {
    StringLess(KeyAt(symbols, a), KeyAt(symbols, b))
  }

  function IdOrder(symbols: seq<Symbol>): (nat, nat) -> bool {
    (a: nat, b: nat) => IdLess(symbols, a, b)
  }

  function Ids(n: nat): seq<nat> {
    seq(n, i => i)
  }

  lemma IdOrderWeak(symbols: seq<Symbol>)
    ensures StrictWeak(IdOrder(symbols))
  {
    hide StringLess;
    var less := IdOrder(symbols);
    forall a: nat, b: nat, c: nat
      ensures less(a, b) && less(b, c) ==> less(a, c)
      ensures !less(a, b) && !less(b, c) ==> !less(a, c)
    {
      StringTrans(KeyAt(symbols, a), KeyAt(symbols, b), KeyAt(symbols, c));
    }
    forall a: nat ensures !less(a, a) { StringTotal(KeyAt(symbols, a), KeyAt(symbols, a)); }
  }

  ghost predicate IsOrder(symbols: seq<Symbol>, order: seq<nat>) {
    && |order| == |symbols|
    && Distinct(order)
    && (forall i :: 0 <= i < |order| ==> order[i] < |symbols|)
    && (forall i: nat :: i < |symbols| ==> i in order)
    && (forall i, j :: 0 <= i < j < |order| ==> KeyLess(symbols[order[i]], symbols[order[j]]))
  }

  lemma IdLessIsKeyLess(symbols: seq<Symbol>, a: nat, b: nat)
    requires DistinctKeys(symbols) && a < |symbols| && b < |symbols| && a != b
    requires !IdOrder(symbols)(b, a)
    ensures KeyLess(symbols[a], symbols[b])
  {
    StringTotal(symbols[a].key, symbols[b].key);
  }

  lemma OrderSpec(symbols: seq<Symbol>, order: seq<nat>)
    requires DistinctKeys(symbols)
    requires order == Sort(IdOrder(symbols), Ids(|symbols|))
    ensures IsOrder(symbols, order)
  {
    hide IdLess, StringLess, Sort;
    var less, ids := IdOrder(symbols), Ids(|symbols|);
    IdOrderWeak(symbols);
    SortIsSorted(less, ids);
    SortDistinct(less, ids);
    SortMembers(less, ids);
    forall i | 0 <= i < |order| ensures order[i] < |symbols| { assert order[i] in ids; }
    forall i: nat | i < |symbols| ensures i in order { assert ids[i] in ids; }
    forall i, j | 0 <= i < j < |order| ensures KeyLess(symbols[order[i]], symbols[order[j]]) {
      assert !less(order[j], order[i]);
      IdLessIsKeyLess(symbols, order[i], order[j]);
    }
  }

  /** The keys of the first n symbols have been entered. */
  ghost predicate IndexOf(symbols: seq<Symbol>, keyToId: map<string, nat>, n: nat) {
    && n <= |symbols|
    && (forall k :: k in keyToId ==> keyToId[k] < n && symbols[keyToId[k]].key == k)
    && (forall i :: 0 <= i < n ==> symbols[i].key in keyToId)
  }

  lemma IndexIsInverse(symbols: seq<Symbol>, keyToId: map<string, nat>)
    requires DistinctKeys(symbols) && IndexOf(symbols, keyToId, |symbols|)
    ensures Inverse(symbols, keyToId)
  {
  }

  lemma ReorderedIsRebuilt(c: Contents, d: Contents, order: seq<nat>, remap: seq<nat>)
    requires IsOrder(c.symbols, order) && |remap| == |c.symbols| == |d.symbols|
    requires forall j :: 0 <= j < |c.symbols| ==> d.symbols[j] == c.symbols[order[j]] && remap[order[j]] == j
    requires d.edges == SortFacts(remap, c.edges) && d.roots == SortFacts(remap, c.roots)
    requires d.escapes == SortFacts(remap, c.escapes) && d.suppressions == SortFacts(remap, c.suppressions)
    ensures Rebuilt(c, d, remap)
  {
    hide SortFacts;
    forall i | 0 <= i < |remap| ensures remap[i] < |d.symbols| && d.symbols[remap[i]].key == c.symbols[i].key {
      assert (i as nat) in order;
      var j :| 0 <= j < |order| && order[j] == i;
    }
    forall s ensures s in d.symbols <==> s in c.symbols {
      if s in c.symbols {
        var i: nat :| i < |c.symbols| && c.symbols[i] == s;
        assert i in order;
        var j :| 0 <= j < |order| && order[j] == i;
        assert d.symbols[j] == s;
      }
    }
  }
}
