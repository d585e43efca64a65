/** The canonical form of a graph: symbols sorted by key, facts sorted by their fields. */
module Canonical {
  import opened Wrappers
  import opened Orders
  import opened Symbols
  import opened Facts
  import opened Merging

  // ---- orders

  predicate KeyLess(a: Symbol, b: Symbol) {
    StringLess(a.key, b.key)
  }

  predicate EvidenceLess(a: Evidence, b: Evidence) {
    StringLess(a.provider, b.provider) || (a.provider == b.provider && StringLess(a.reason, b.reason))
  }

  function EdgeKindRank(k: EdgeKind): nat {
    match k
    case DirectCall => 0 case Constructs => 1 case VirtualDispatch => 2 case CallbackEdge => 3 case ProviderEdge => 4
  }

  function RootKindRank(k: RootKind): nat {
    match k
    case ApplicationEntryPoint => 0 case GlobalInitializer => 1 case Manual => 2
    case CallbackRoot => 3 case ProviderRoot => 4 case PublicApi => 5
  }

  function EscapeKindRank(k: EscapeKind): nat {
    match k
    case AddressTaken => 0 case CallableObject => 1 case ProviderEscape => 2
  }

  /** The fields compared before the evidence. The first component keeps facts of different
      kinds apart; one list holds facts of one kind. A missing origin comes before any other. */
  datatype Head = Head(kind: nat, first: nat, second: nat, third: nat)

  function HeadOf(x: Fact<nat>): Head {
    match x
    case Edge(from, to, k, _) => Head(0, from, to, EdgeKindRank(k))
    case Root(symbol, k, _) => Head(1, symbol, RootKindRank(k), 0)
    case Escape(symbol, origin, k, _) =>
      Head(2, symbol, if origin.Some? then origin.value + 1 else 0, EscapeKindRank(k))
    case Suppression(symbol, _) => Head(3, symbol, 0, 0)
  }

  predicate HeadLess(a: Head, b: Head) {
    a.kind < b.kind || (a.kind == b.kind && (a.first < b.first || (a.first == b.first &&
      (a.second < b.second || (a.second == b.second && a.third < b.third)))))
  }

  predicate FactLess(x: Fact<nat>, y: Fact<nat>) {
    HeadLess(HeadOf(x), HeadOf(y)) || (HeadOf(x) == HeadOf(y) && EvidenceLess(x.evidence, y.evidence))
  }

  lemma FactDetermined(x: Fact<nat>, y: Fact<nat>)
    requires HeadOf(x) == HeadOf(y) && x.evidence == y.evidence
    ensures x == y
  {
  }

  lemma EvidenceTrans(a: Evidence, b: Evidence, c: Evidence)
    ensures EvidenceLess(a, b) && EvidenceLess(b, c) ==> EvidenceLess(a, c)
    ensures !EvidenceLess(a, b) && !EvidenceLess(b, c) ==> !EvidenceLess(a, c)
    ensures EvidenceLess(a, b) || a == b || EvidenceLess(b, a)
    ensures !EvidenceLess(a, a)
  {
    StringTrans(a.provider, b.provider, c.provider);
    StringTrans(a.reason, b.reason, c.reason);
    StringTotal(a.provider, b.provider);
    StringTotal(b.provider, c.provider);
    StringTotal(a.provider, c.provider);
    StringTotal(a.reason, b.reason);
    StringTrans(b.provider, a.provider, c.provider);
    StringTrans(a.provider, c.provider, b.provider);
  }

  lemma FactTrans(x: Fact<nat>, y: Fact<nat>, z: Fact<nat>)
    ensures FactLess(x, y) && FactLess(y, z) ==> FactLess(x, z)
    ensures !FactLess(x, y) && !FactLess(y, z) ==> !FactLess(x, z)
    ensures FactLess(x, y) || x == y || FactLess(y, x)
    ensures !FactLess(x, x)
  {
    hide HeadOf, EvidenceLess;
    EvidenceTrans(x.evidence, y.evidence, z.evidence);
    EvidenceTrans(x.evidence, x.evidence, x.evidence);
    if HeadOf(x) == HeadOf(y) && x.evidence == y.evidence { FactDetermined(x, y); }
  }

  lemma FactOrder()
    ensures StrictTotal(FactLess)
  {
    hide FactLess;
    forall x, y, z
      ensures FactLess(x, y) && FactLess(y, z) ==> FactLess(x, z)
      ensures !FactLess(x, y) && !FactLess(y, z) ==> !FactLess(x, z)
    {
      FactTrans(x, y, z);
    }
    forall x, y ensures (FactLess(x, y) || x == y || FactLess(y, x)) && !FactLess(x, x) {
      FactTrans(x, y, y);
    }
  }

  lemma KeyOrder()
    ensures StrictWeak(KeyLess)
  {
    StringOrder();
    forall a, b, c
      ensures KeyLess(a, b) && KeyLess(b, c) ==> KeyLess(a, c)
      ensures !KeyLess(a, b) && !KeyLess(b, c) ==> !KeyLess(a, c)
    {
      StringTrans(a.key, b.key, c.key);
    }
    forall a ensures !KeyLess(a, a) { StringTotal(a.key, a.key); }
  }

  // ---- the canonical form

  /** Where each of the given symbols is in another vector. */
  function Positions(symbols: seq<Symbol>, target: seq<Symbol>): seq<nat> {
    seq(|symbols|, i requires 0 <= i < |symbols| =>
      match Find(target, symbols[i].key) case Some(j) => j case None => 0)
  }

  function MoveAll(positions: seq<nat>, list: seq<Fact<nat>>): seq<Fact<nat>> {
    seq(|list|, i requires 0 <= i < |list| => Moved(positions, list[i]))
  }

  function SortFacts(positions: seq<nat>, list: seq<Fact<nat>>): seq<Fact<nat>> {
    Sort(FactLess, MoveAll(positions, list))
  }

  function Canonicalize(c: Contents): Contents {
    var sorted := Sort(KeyLess, c.symbols);
    var positions := Positions(c.symbols, sorted);
    Contents(sorted, SortFacts(positions, c.edges), SortFacts(positions, c.roots),
             SortFacts(positions, c.escapes), SortFacts(positions, c.suppressions))
  }

  ghost predicate IsCanonical(c: Contents) {
    && StrictlySortedBy(KeyLess, c.symbols)
    && StrictlySortedBy(FactLess, c.edges) && StrictlySortedBy(FactLess, c.roots)
    && StrictlySortedBy(FactLess, c.escapes) && StrictlySortedBy(FactLess, c.suppressions)
  }

  // ---- symbols

  lemma DistinctKeysDistinct(symbols: seq<Symbol>)
    requires DistinctKeys(symbols)
    ensures Distinct(symbols)
  {
    forall i, j | 0 <= i < j < |symbols| ensures symbols[i] != symbols[j] {
      assert symbols[i].key != symbols[j].key;
    }
  }

  /** Reordering symbols keeps the map from keys to symbols. */
  lemma SameMembersSameMap(a: seq<Symbol>, b: seq<Symbol>)
    requires DistinctKeys(a) && Distinct(b) && (forall s :: s in a <==> s in b)
    ensures DistinctKeys(b) && SymbolMap(a) == SymbolMap(b)
  {
    forall i, j | 0 <= i < j < |b| ensures b[i].key != b[j].key {
      assert b[i] in a && b[j] in a;
    }
    SymbolMapSpec(a);
    SymbolMapSpec(b);
    forall k ensures k in SymbolMap(a) <==> k in SymbolMap(b) {
      if k in SymbolMap(a) { assert SymbolMap(a)[k] in b; }
      if k in SymbolMap(b) { assert SymbolMap(b)[k] in a; }
    }
    forall k | k in SymbolMap(a) ensures SymbolMap(a)[k] == SymbolMap(b)[k] {
      assert SymbolMap(a)[k] in b;
    }
  }

  lemma SortedSymbols(symbols: seq<Symbol>)
    requires DistinctKeys(symbols)
    ensures var sorted := Sort(KeyLess, symbols);
            StrictlySortedBy(KeyLess, sorted) && DistinctKeys(sorted) && SymbolMap(sorted) == SymbolMap(symbols)
            && (forall s :: s in sorted <==> s in symbols)
  {
    var sorted := Sort(KeyLess, symbols);
    DistinctKeysDistinct(symbols);
    SortDistinct(KeyLess, symbols);
    SortMembers(KeyLess, symbols);
    SameMembersSameMap(symbols, sorted);
    KeyOrder();
    SortIsSorted(KeyLess, symbols);
    forall i, j | 0 <= i < j < |sorted| ensures KeyLess(sorted[i], sorted[j]) {
      StringTotal(sorted[i].key, sorted[j].key);
    }
  }

  lemma SortedPositions(c: Contents, symbols: seq<Symbol>)
    requires DistinctKeys(symbols) && c.symbols == Sort(KeyLess, symbols)
    ensures Placed(c, Positions(symbols, c.symbols), symbols)
  {
    hide Sort, KeyLess, Find;
    SortedSymbols(symbols);
    SameMultisetSameMembers(c.symbols, symbols);
    forall i | 0 <= i < |symbols| ensures Find(c.symbols, symbols[i].key).Some? {
      assert symbols[i] in c.symbols;
      var j :| 0 <= j < |c.symbols| && c.symbols[j] == symbols[i];
    }
  }

  // ---- facts

  lemma MovedInjective(c: Contents, positions: seq<nat>, symbols: seq<Symbol>, x: Fact<nat>, y: Fact<nat>)
    requires DistinctKeys(symbols) && Placed(c, positions, symbols)
    requires InRange(x, |symbols|) && InRange(y, |symbols|) && Moved(positions, x) == Moved(positions, y)
    ensures x == y
  {
    MovedKeyed(c, positions, symbols, x);
    MovedKeyed(c, positions, symbols, y);
    KeyedInjective(symbols, x, y);
  }

  lemma SortedImage(positions: seq<nat>, list: seq<Fact<nat>>)
    ensures forall y: Fact<nat> :: y in SortFacts(positions, list) <==> exists x: Fact<nat> :: x in list && y == Moved(positions, x)
  {
    hide FactLess, Moved;
    var m, r := MoveAll(positions, list), SortFacts(positions, list);
    assert multiset(r) == multiset(m);
    forall x: Fact<nat> | x in list ensures Moved(positions, x) in r {
      var i :| 0 <= i < |list| && list[i] == x;
      assert m[i] in multiset(m);
      assert m[i] in multiset(r);
    }
    forall y: Fact<nat> | y in r ensures exists x: Fact<nat> :: x in list && y == Moved(positions, x) {
      assert y in multiset(r);
      assert y in multiset(m);
      var i :| 0 <= i < |m| && m[i] == y;
      assert list[i] in list;
    }
  }

  lemma SortFactsSpec(c: Contents, positions: seq<nat>, symbols: seq<Symbol>, list: seq<Fact<nat>>)
    requires DistinctKeys(symbols) && Placed(c, positions, symbols)
    requires Distinct(list) && forall x: Fact<nat> :: x in list ==> InRange(x, |symbols|)
    ensures var r := SortFacts(positions, list);
            && StrictlySortedBy(FactLess, r) && Distinct(r)
            && (forall y: Fact<nat> :: y in r <==> exists x: Fact<nat> :: x in list && y == Moved(positions, x))
            && (forall y: Fact<nat> :: y in r ==> InRange(y, |c.symbols|))
            && KeyedFacts(c.symbols, r) == KeyedFacts(symbols, list)
  {
    hide FactLess, Moved, Keyed, InRange, DistinctKeys, Placed;
    var m := MoveAll(positions, list);
    assert forall i :: 0 <= i < |list| ==> m[i] == Moved(positions, list[i]);
    forall i, j | 0 <= i < j < |m| ensures m[i] != m[j] {
      assert list[i] in list && list[j] in list;
      if m[i] == m[j] { MovedInjective(c, positions, symbols, list[i], list[j]); }
    }
    FactOrder();
    SortStrict(FactLess, m);
    SortDistinct(FactLess, m);
    SortMembers(FactLess, m);
    var r := SortFacts(positions, list);
    SortedImage(positions, list);
    forall x: Fact<nat> | x in list
      ensures InRange(Moved(positions, x), |c.symbols|) && Keyed(c.symbols, Moved(positions, x)) == Keyed(symbols, x)
    {
      MovedKeyed(c, positions, symbols, x);
    }
    KeyedFactsMoved(c, positions, symbols, list, r);
  }

  lemma KeyedFactsMoved(c: Contents, positions: seq<nat>, symbols: seq<Symbol>, list: seq<Fact<nat>>, r: seq<Fact<nat>>)
    requires forall y: Fact<nat> :: y in r <==> exists x: Fact<nat> :: x in list && y == Moved(positions, x)
    requires forall x: Fact<nat> :: x in list ==> Keyed(c.symbols, Moved(positions, x)) == Keyed(symbols, x)
    ensures KeyedFacts(c.symbols, r) == KeyedFacts(symbols, list)
  {
    hide Moved, Keyed;
    forall k | k in KeyedFacts(symbols, list) ensures k in KeyedFacts(c.symbols, r) {
      var x :| x in list && k == Keyed(symbols, x);
      assert Moved(positions, x) in r;
    }
  }

  lemma KeyedFactsUnion(symbols: seq<Symbol>, a: seq<Fact<nat>>, b: seq<Fact<nat>>)
    ensures KeyedFacts(symbols, a + b) == KeyedFacts(symbols, a) + KeyedFacts(symbols, b)
  {
    hide Keyed;
  }

  lemma KeyedAll(c: Contents)
    ensures KeyedFacts(c.symbols, c.All()) ==
            KeyedFacts(c.symbols, c.edges) + KeyedFacts(c.symbols, c.roots)
            + KeyedFacts(c.symbols, c.escapes) + KeyedFacts(c.symbols, c.suppressions)
  {
    hide KeyedFacts;
    KeyedFactsUnion(c.symbols, c.edges, c.roots);
    KeyedFactsUnion(c.symbols, c.edges + c.roots, c.escapes);
    KeyedFactsUnion(c.symbols, c.edges + c.roots + c.escapes, c.suppressions);
  }

  /** d is c with its symbols in key order, and positions says where each symbol went. */
  ghost predicate Rebuilt(c: Contents, d: Contents, positions: seq<nat>) {
    && StrictlySortedBy(KeyLess, d.symbols)
    && (forall s :: s in d.symbols <==> s in c.symbols)
    && Placed(d, positions, c.symbols)
    && d.edges == SortFacts(positions, c.edges) && d.roots == SortFacts(positions, c.roots)
    && d.escapes == SortFacts(positions, c.escapes) && d.suppressions == SortFacts(positions, c.suppressions)
  }

  lemma RebuiltList(c: Contents, d: Contents, positions: seq<nat>, list: seq<Fact<nat>>)
    requires Valid(c) && Placed(d, positions, c.symbols)
    requires list == c.edges || list == c.roots || list == c.escapes || list == c.suppressions
    ensures var r := SortFacts(positions, list);
            && StrictlySortedBy(FactLess, r) && Distinct(r)
            && (forall y: Fact<nat> :: y in r ==> InRange(y, |d.symbols|))
            && (forall y: Fact<nat> :: y in r ==> exists x: Fact<nat> :: x in list && y == Moved(positions, x))
            && KeyedFacts(d.symbols, r) == KeyedFacts(c.symbols, list)
  {
    hide FactLess, Moved, Keyed, InRange, Placed, KeyedFacts, SortFacts;
    SortFactsSpec(d, positions, c.symbols, list);
  }

  lemma StrictKeysDistinct(symbols: seq<Symbol>)
    requires StrictlySortedBy(KeyLess, symbols)
    ensures DistinctKeys(symbols) && Distinct(symbols)
  {
    forall i, j | 0 <= i < j < |symbols| ensures symbols[i].key != symbols[j].key {
      assert KeyLess(symbols[i], symbols[j]);
      StringTotal(symbols[i].key, symbols[j].key);
    }
    DistinctKeysDistinct(symbols);
  }

  lemma RebuiltKeepsView(c: Contents, d: Contents, positions: seq<nat>)
    requires Valid(c) && Rebuilt(c, d, positions)
    ensures Valid(d) && IsCanonical(d) && ViewOf(d) == ViewOf(c)
  {
    hide FactLess, KeyLess, Keyed, InRange, KeyedFacts, SortFacts, SymbolMap;
    StrictKeysDistinct(d.symbols);
    SameMembersSameMap(c.symbols, d.symbols);
    RebuiltList(c, d, positions, c.edges);
    RebuiltList(c, d, positions, c.roots);
    RebuiltList(c, d, positions, c.escapes);
    RebuiltList(c, d, positions, c.suppressions);
    KeyedAll(c);
    KeyedAll(d);
    forall i | 0 <= i < |d.symbols| ensures Admissible(d.symbols[i]) {
      assert d.symbols[i] in c.symbols;
    }
  }

  /** Canonicalizing changes nothing that can be said by key, and puts the graph in canonical
      form. */
  lemma CanonicalizeKeepsView(c: Contents)
    requires Valid(c)
    ensures Valid(Canonicalize(c)) && IsCanonical(Canonicalize(c))
    ensures ViewOf(Canonicalize(c)) == ViewOf(c)
  {
    hide Valid, IsCanonical, ViewOf, SortFacts, Positions, SymbolMap, KeyLess, DistinctKeys, Placed;
    var d := Canonicalize(c);
    assert DistinctKeys(c.symbols) by { ValidKeys(c); }
    SortedSymbols(c.symbols);
    SortedPositions(d, c.symbols);
    RebuiltKeepsView(c, d, Positions(c.symbols, d.symbols));
  }

  lemma ValidKeys(c: Contents)
    requires Valid(c)
    ensures DistinctKeys(c.symbols)
  {
  }

  // ---- uniqueness

  lemma SymbolsFromMap(symbols: seq<Symbol>, s: Symbol)
    requires DistinctKeys(symbols)
    ensures s in symbols <==> s.key in SymbolMap(symbols) && SymbolMap(symbols)[s.key] == s
  {
    SymbolMapSpec(symbols);
  }

  lemma SymbolsUnique(a: seq<Symbol>, b: seq<Symbol>)
    requires DistinctKeys(a) && DistinctKeys(b) && SymbolMap(a) == SymbolMap(b)
    requires StrictlySortedBy(KeyLess, a) && StrictlySortedBy(KeyLess, b)
    ensures a == b
  {
    forall s ensures s in a <==> s in b {
      SymbolsFromMap(a, s);
      SymbolsFromMap(b, s);
    }
    KeyOrder();
    StrictUnique(KeyLess, a, b);
  }

  lemma KeyedMember(a: Contents, b: Contents, x: Fact<nat>)
    requires Valid(a) && Valid(b) && a.symbols == b.symbols
    requires KeyedFacts(a.symbols, a.All()) == KeyedFacts(b.symbols, b.All()) && x in a.All()
    ensures x in b.All()
  {
    hide DistinctKeys, InRange, Keyed;
    assert Keyed(a.symbols, x) in KeyedFacts(b.symbols, b.All());
    var y: Fact<nat> :| y in b.All() && Keyed(b.symbols, y) == Keyed(a.symbols, x);
    KeyedInjective(a.symbols, x, y);
  }

  lemma SameLists(a: Contents, b: Contents, x: Fact<nat>)
    requires Valid(a) && Valid(b) && a.symbols == b.symbols
    requires KeyedFacts(a.symbols, a.All()) == KeyedFacts(b.symbols, b.All())
    ensures x in a.edges <==> x in b.edges
    ensures x in a.roots <==> x in b.roots
    ensures x in a.escapes <==> x in b.escapes
    ensures x in a.suppressions <==> x in b.suppressions
  {
    hide DistinctKeys, InRange, KeyedFacts;
    if x in a.All() { KeyedMember(a, b, x); }
    if x in b.All() { KeyedMember(b, a, x); }
  }

  /** Two canonical graphs that say the same by key are equal. */
  lemma CanonicalUnique(a: Contents, b: Contents)
    requires Valid(a) && Valid(b) && IsCanonical(a) && IsCanonical(b)
    requires ViewOf(a) == ViewOf(b)
    ensures a == b
  {
    hide FactLess, KeyLess, SymbolMap, KeyedFacts, InRange, Admissible;
    SymbolsUnique(a.symbols, b.symbols);
    forall x: Fact<nat>
      ensures (x in a.edges <==> x in b.edges) && (x in a.roots <==> x in b.roots)
      ensures (x in a.escapes <==> x in b.escapes) && (x in a.suppressions <==> x in b.suppressions)
    {
      SameLists(a, b, x);
    }
    FactOrder();
    StrictUnique(FactLess, a.edges, b.edges);
    StrictUnique(FactLess, a.roots, b.roots);
    StrictUnique(FactLess, a.escapes, b.escapes);
    StrictUnique(FactLess, a.suppressions, b.suppressions);
  }

  /** The canonical form is a normal form: it depends on the view only. */
  lemma CanonicalNormalForm(c: Contents, d: Contents)
    requires Valid(c) && Valid(d)
    ensures Canonicalize(c) == Canonicalize(d) <==> ViewOf(c) == ViewOf(d)
  {
    hide Canonicalize, IsCanonical, Valid, ViewOf;
    CanonicalizeKeepsView(c);
    CanonicalizeKeepsView(d);
    if ViewOf(c) == ViewOf(d) {
      CanonicalUnique(Canonicalize(c), Canonicalize(d));
    }
  }

  /** However the symbols are brought into key order, the outcome is the canonical form. */
  lemma RebuiltIsCanonicalize(c: Contents, d: Contents, positions: seq<nat>)
    requires Valid(c) && Rebuilt(c, d, positions)
    ensures d == Canonicalize(c)
  {
    hide Canonicalize, IsCanonical, Valid, ViewOf, Rebuilt;
    RebuiltKeepsView(c, d, positions);
    CanonicalizeKeepsView(c);
    CanonicalUnique(d, Canonicalize(c));
  }

  lemma CanonicalizeIdempotent(c: Contents)
    requires Valid(c)
    ensures Canonicalize(Canonicalize(c)) == Canonicalize(c)
  {
    hide Canonicalize, IsCanonical, Valid, ViewOf;
    CanonicalizeKeepsView(c);
    CanonicalNormalForm(c, Canonicalize(c));
  }

  /** Merging a canonicalized batch gives the same graph as merging the batch itself. */
  lemma MergeCanonicalized(d: Contents, f: Contents)
    requires Valid(d) && Valid(f)
    ensures Merge(d, Canonicalize(f)).Ok? <==> Merge(d, f).Ok?
    ensures Merge(d, f).Ok? ==> Canonicalize(Merge(d, Canonicalize(f)).value) == Canonicalize(Merge(d, f).value)
  {
    hide Canonicalize, IsCanonical, Valid, ViewOf, Merge, MergeView;
    CanonicalizeKeepsView(f);
    MergeRefinesView(d, f);
    MergeRefinesView(d, Canonicalize(f));
    if Merge(d, f).Ok? {
      CanonicalNormalForm(Merge(d, Canonicalize(f)).value, Merge(d, f).value);
    }
  }
}
