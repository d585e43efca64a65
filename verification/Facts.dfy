/** The contents of a graph as a value, its by-key view, and the operations on it. */
module Facts {
  import opened Wrappers
  import opened Orders
  import opened Symbols

  datatype Contents = Contents(
    symbols: seq<Symbol>,
    edges: seq<Fact<nat>>,
    roots: seq<Fact<nat>>,
    escapes: seq<Fact<nat>>,
    suppressions: seq<Fact<nat>>)
  {
    function All(): seq<Fact<nat>> {
      edges + roots + escapes + suppressions
    }
  }

  const NOTHING := Contents([], [], [], [], [])

  /** What a graph says, with symbols named by key and without any order. */
  datatype View = View(symbols: map<string, Symbol>, facts: set<Fact<string>>)

  // ---- validity

  predicate InRange(x: Fact<nat>, n: nat) {
    match x
    case Edge(from, to, _, _) => from < n && to < n
    case Root(symbol, _, _) => symbol < n
    case Escape(symbol, origin, _, _) => symbol < n && (origin.Some? ==> origin.value < n)
    case Suppression(symbol, _) => symbol < n
  }

  ghost predicate DistinctKeys(symbols: seq<Symbol>) {
    forall i, j :: 0 <= i < j < |symbols| ==> symbols[i].key != symbols[j].key
  }

  predicate Admissible(s: Symbol) {
    s.key != [] && s.scope != Excluded
  }

  ghost predicate Valid(c: Contents) {
    && DistinctKeys(c.symbols)
    && (forall i :: 0 <= i < |c.symbols| ==> Admissible(c.symbols[i]))
    && (forall x: Fact<nat> :: x in c.All() ==> InRange(x, |c.symbols|))
    && (forall x: Fact<nat> :: x in c.edges ==> x.Edge?)
    && (forall x: Fact<nat> :: x in c.roots ==> x.Root?)
    && (forall x: Fact<nat> :: x in c.escapes ==> x.Escape?)
    && (forall x: Fact<nat> :: x in c.suppressions ==> x.Suppression?)
    && Distinct(c.edges) && Distinct(c.roots) && Distinct(c.escapes) && Distinct(c.suppressions)
  }

  // ---- the view

  function KeyAt(symbols: seq<Symbol>, i: nat): string {
    if i < |symbols| then symbols[i].key else ""
  }

  function Keyed(symbols: seq<Symbol>, x: Fact<nat>): Fact<string> {
    match x
    case Edge(from, to, k, e) => Edge(KeyAt(symbols, from), KeyAt(symbols, to), k, e)
    case Root(symbol, k, e) => Root(KeyAt(symbols, symbol), k, e)
    case Escape(symbol, origin, k, e) =>
      Escape(KeyAt(symbols, symbol), if origin.Some? then Some(KeyAt(symbols, origin.value)) else None, k, e)
    case Suppression(symbol, e) => Suppression(KeyAt(symbols, symbol), e)
  }

  function SymbolMap(symbols: seq<Symbol>): map<string, Symbol> {
    if symbols == [] then map[]
    else SymbolMap(symbols[..|symbols| - 1])[symbols[|symbols| - 1].key := symbols[|symbols| - 1]]
  }

  function KeyedFacts(symbols: seq<Symbol>, facts: seq<Fact<nat>>): set<Fact<string>> {
    set x | x in facts :: Keyed(symbols, x)
  }

  function ViewOf(c: Contents): View {
    View(SymbolMap(c.symbols), KeyedFacts(c.symbols, c.All()))
  }

  lemma {:induction false} SymbolMapSpec(symbols: seq<Symbol>)
    requires DistinctKeys(symbols)
    ensures forall i :: 0 <= i < |symbols| ==> symbols[i].key in SymbolMap(symbols) && SymbolMap(symbols)[symbols[i].key] == symbols[i]
    ensures forall k :: k in SymbolMap(symbols) ==> SymbolMap(symbols)[k] in symbols && SymbolMap(symbols)[k].key == k
  {
    if symbols != [] {
      var init, last := symbols[..|symbols| - 1], symbols[|symbols| - 1];
      SymbolMapSpec(init);
      forall i | 0 <= i < |symbols|
        ensures symbols[i].key in SymbolMap(symbols) && SymbolMap(symbols)[symbols[i].key] == symbols[i]
      {
        if i < |init| { assert init[i] == symbols[i]; }
      }
      forall k | k in SymbolMap(symbols)
        ensures SymbolMap(symbols)[k] in symbols && SymbolMap(symbols)[k].key == k
      {
        if k != last.key { assert SymbolMap(init)[k] in init; }
      }
    }
  }

  // ---- looking up a key

  function Find(symbols: seq<Symbol>, key: string): (r: Option<nat>)
    ensures r.Some? ==> r.value < |symbols| && symbols[r.value].key == key
    ensures r.None? ==> forall i :: 0 <= i < |symbols| ==> symbols[i].key != key
  {
    if symbols == [] then None
    else if symbols[|symbols| - 1].key == key then Some(|symbols| - 1)
    else Find(symbols[..|symbols| - 1], key)
  }

  lemma FindUnique(symbols: seq<Symbol>, i: nat)
    requires DistinctKeys(symbols) && i < |symbols|
    ensures Find(symbols, symbols[i].key) == Some(i)
  {
  }

  lemma FindInMap(symbols: seq<Symbol>, key: string)
    requires DistinctKeys(symbols)
    ensures Find(symbols, key).Some? <==> key in SymbolMap(symbols)
    ensures Find(symbols, key).Some? ==> SymbolMap(symbols)[key] == symbols[Find(symbols, key).value]
  {
    SymbolMapSpec(symbols);
    if key in SymbolMap(symbols) {
      assert SymbolMap(symbols)[key] in symbols;
    }
  }

  /** With distinct keys, naming symbols by key loses nothing. */
  lemma KeyedInjective(symbols: seq<Symbol>, x: Fact<nat>, y: Fact<nat>)
    requires DistinctKeys(symbols) && InRange(x, |symbols|) && InRange(y, |symbols|)
    requires Keyed(symbols, x) == Keyed(symbols, y)
    ensures x == y
  {
    forall i: nat, j: nat | i < |symbols| && j < |symbols| && KeyAt(symbols, i) == KeyAt(symbols, j) ensures i == j {
      FindUnique(symbols, i);
      FindUnique(symbols, j);
    }
  }

  // ---- adding facts

  function AddFact(list: seq<Fact<nat>>, x: Fact<nat>): seq<Fact<nat>> {
    if x in list then list else list + [x]
  }

  function With(c: Contents, x: Fact<nat>): Contents {
    match x
    case Edge(_, _, _, _) => c.(edges := AddFact(c.edges, x))
    case Root(_, _, _) => c.(roots := AddFact(c.roots, x))
    case Escape(_, _, _, _) => c.(escapes := AddFact(c.escapes, x))
    case Suppression(_, _) => c.(suppressions := AddFact(c.suppressions, x))
  }

  lemma WithMembers(c: Contents, x: Fact<nat>)
    ensures forall y: Fact<nat> :: y in With(c, x).All() <==> y in c.All() || y == x
  {
  }

  lemma WithView(c: Contents, x: Fact<nat>)
    requires Valid(c) && InRange(x, |c.symbols|)
    ensures Valid(With(c, x)) && With(c, x).symbols == c.symbols
    ensures ViewOf(With(c, x)) == View(ViewOf(c).symbols, ViewOf(c).facts + {Keyed(c.symbols, x)})
  {
    WithMembers(c, x);
    assert With(c, x).symbols == c.symbols;
  }
}
