/** Reachability in terms of keys, and what it does and does not depend on. */
module KeyedAnalysis {
  import opened Wrappers
  import opened Digraph
  import opened Symbols
  import opened Facts
  import opened Merging
  import opened Canonical
  import opened MergeOrder
  import opened Analysis
  import Traversal

  predicate IsLiveKeyed(v: View, x: Fact<string>) {
    x.Edge? && Traversable(x.edgeKind) && x.from in v.symbols && HasIndexedBody(v.symbols[x.from].scope)
  }

  ghost function KeyArcs(v: View): set<(string, string)> {
    set x | x in v.facts && IsLiveKeyed(v, x) :: (x.from, x.to)
  }

  ghost predicate ReachableKey(v: View, key: string) {
    exists x :: x in v.facts && x.Root? && Reach(KeyArcs(v), x.symbol, key)
  }

  lemma ArcToKeys(c: Contents, x: nat, y: nat)
    requires Valid(c) && (x, y) in LiveArcs(c)
    ensures x < |c.symbols| && y < |c.symbols| && (KeyAt(c.symbols, x), KeyAt(c.symbols, y)) in KeyArcs(ViewOf(c))
  {
    hide Traversable, HasIndexedBody;
    var e: Fact<nat> :| e in c.edges && IsLive(c, e) && (e.from, e.to) == (x, y);
    assert e in c.All();
    var k := Keyed(c.symbols, e);
    assert k in ViewOf(c).facts;
    SymbolMapSpec(c.symbols);
    assert IsLiveKeyed(ViewOf(c), k);
  }

  lemma KeysToArc(c: Contents, a: string, b: string)
    requires Valid(c) && (a, b) in KeyArcs(ViewOf(c))
    ensures (IdOf(c.symbols, a), IdOf(c.symbols, b)) in LiveArcs(c)
    ensures Find(c.symbols, a).Some? && Find(c.symbols, b).Some?
  {
    hide Traversable, HasIndexedBody;
    var k :| k in ViewOf(c).facts && IsLiveKeyed(ViewOf(c), k) && (k.from, k.to) == (a, b);
    var e: Fact<nat> :| e in c.All() && Keyed(c.symbols, e) == k;
    assert e.Edge? && e in c.edges && InRange(e, |c.symbols|);
    FindUnique(c.symbols, e.from);
    FindUnique(c.symbols, e.to);
    SymbolMapSpec(c.symbols);
    assert IsLive(c, e);
  }

  function IdOf(symbols: seq<Symbol>, key: string): nat {
    match Find(symbols, key) case Some(i) => i case None => 0
  }

  /** Reachability by position is reachability by key. */
  lemma ReachByKey(c: Contents, x: nat, y: nat)
    requires Valid(c) && x < |c.symbols| && y < |c.symbols|
    ensures Reach(LiveArcs(c), x, y) <==> Reach(KeyArcs(ViewOf(c)), c.symbols[x].key, c.symbols[y].key)
  {
    hide Reach, Valid, ViewOf, KeyArcs, LiveArcs;
    assert DistinctKeys(c.symbols) by { ValidKeys(c); }
    var E, F := LiveArcs(c), KeyArcs(ViewOf(c));
    var key, id := (i: nat) => KeyAt(c.symbols, i), (k: string) => IdOf(c.symbols, k);
    if Reach(E, x, y) {
      forall a: nat, b: nat | (a, b) in E ensures (key(a), key(b)) in F { ArcToKeys(c, a, b); }
      ReachMap(E, F, key, x, y);
    }
    if Reach(F, c.symbols[x].key, c.symbols[y].key) {
      forall a, b | (a, b) in F ensures (id(a), id(b)) in E { KeysToArc(c, a, b); }
      ReachMap(F, E, id, c.symbols[x].key, c.symbols[y].key);
      FindUnique(c.symbols, x);
      FindUnique(c.symbols, y);
    }
  }

  /** A symbol is reachable exactly when its key is. */
  lemma ReachableByKey(c: Contents, v: nat)
    requires Valid(c) && v < |c.symbols|
    ensures Reachable(c, v) <==> ReachableKey(ViewOf(c), c.symbols[v].key)
  {
    hide Reach, DistinctKeys, LiveArcs, KeyArcs;
    if Reachable(c, v) {
      var r: nat :| r in RootIds(c) && Reach(LiveArcs(c), r, v);
      var x: Fact<nat> :| x in c.roots && x.Root? && x.symbol == r;
      assert x in c.All() && InRange(x, |c.symbols|);
      assert Keyed(c.symbols, x) in ViewOf(c).facts;
      ReachByKey(c, r, v);
    }
    if ReachableKey(ViewOf(c), c.symbols[v].key) {
      var k :| k in ViewOf(c).facts && k.Root? && Reach(KeyArcs(ViewOf(c)), k.symbol, c.symbols[v].key);
      var x: Fact<nat> :| x in c.All() && Keyed(c.symbols, x) == k;
      assert x.Root? && x in c.roots && InRange(x, |c.symbols|);
      ReachByKey(c, x.symbol, v);
      assert x.symbol in RootIds(c);
    }
  }

  /** Canonicalizing a graph keeps its live symbols. */
  lemma CanonicalizeKeepsReachable(c: Contents, i: nat, j: nat)
    requires Valid(c) && i < |c.symbols| && j < |Canonicalize(c).symbols|
    requires c.symbols[i].key == Canonicalize(c).symbols[j].key
    ensures Reachable(c, i) <==> Reachable(Canonicalize(c), j)
  {
    hide Valid, Canonicalize, ViewOf, Reachable, ReachableKey, IsCanonical;
    CanonicalizeKeepsView(c);
    ReachableByKey(c, i);
    ReachableByKey(Canonicalize(c), j);
  }

  /** The fields that depend on arrival order play no part in reachability. */
  lemma SameCoreSameReachable(v: View, w: View, key: string)
    requires SameCore(v, w)
    ensures ReachableKey(v, key) <==> ReachableKey(w, key)
  {
    hide Reach, Traversable, HasIndexedBody;
    forall x | x in v.facts ensures IsLiveKeyed(v, x) <==> IsLiveKeyed(w, x) {
      if x.Edge? && x.from in v.symbols {
        assert CoreOf(v.symbols[x.from]) == CoreOf(w.symbols[x.from]);
      }
    }
    assert KeyArcs(v) == KeyArcs(w);
  }

  /** Whatever the order in which compatible translation units are merged, the same keys are
      live. */
  lemma MergeOrderKeepsReachable(xs: seq<Contents>, ys: seq<Contents>, key: string)
    requires ValidBatches(xs) && PairwiseCompatible(xs)
    requires forall b :: b in xs <==> b in ys
    ensures MergeAll(xs).Ok? && MergeAll(ys).Ok?
    ensures ReachableKey(ViewOf(MergeAll(xs).value), key) <==> ReachableKey(ViewOf(MergeAll(ys).value), key)
  {
    hide ViewOf, MergeAll, ReachableKey, SameCore, ValidBatches, PairwiseCompatible;
    MergeOrderIrrelevant(xs, ys);
    SameCoreSameReachable(ViewOf(MergeAll(xs).value), ViewOf(MergeAll(ys).value), key);
  }

  // ---- the provider-only region

  ghost predicate ProviderOnly(c: Contents, v: nat) {
    Reachable(c, v) && !StructurallyReachable(c, v)
  }

  /** The ways into the provider-only region: a provider edge from a live symbol, or a
      provider root. */
  ghost predicate EntersByEdge(c: Contents, e: Fact<nat>, v: nat) {
    && e in c.edges && IsLive(c, e) && IsProviderEdge(e.edgeKind)
    && Reachable(c, e.from) && ProviderOnly(c, e.to) && Reach(LiveArcs(c), e.to, v)
  }

  ghost predicate EntersByRoot(c: Contents, r: Fact<nat>, v: nat) {
    && r in c.roots && r.Root? && IsProviderRoot(r.rootKind)
    && ProviderOnly(c, r.symbol) && Reach(LiveArcs(c), r.symbol, v)
  }

  lemma StructuralIsReachable(c: Contents, v: nat)
    requires StructurallyReachable(c, v)
    ensures Reachable(c, v)
  {
    hide Reach, Traversable, IsProviderEdge;
    var r: nat :| r in StructuralRootIds(c) && Reach(StructuralArcs(c), r, v);
    assert r in RootIds(c);
    assert StructuralArcs(c) <= LiveArcs(c);
    ReachMono(StructuralArcs(c), LiveArcs(c), r, v);
  }

  lemma StructuralStep(c: Contents, a: nat, b: nat)
    requires StructurallyReachable(c, a) && (a, b) in StructuralArcs(c)
    ensures StructurallyReachable(c, b)
  {
    hide Reach, StructuralArcs;
    var r: nat :| r in StructuralRootIds(c) && Reach(StructuralArcs(c), r, a);
    ReachArc(StructuralArcs(c), a, b);
    ReachTrans(StructuralArcs(c), r, a, b);
  }

  lemma ReachableStep(c: Contents, a: nat, b: nat)
    requires Reachable(c, a) && Reach(LiveArcs(c), a, b)
    ensures Reachable(c, b)
  {
    hide Reach, LiveArcs;
    var r: nat :| r in RootIds(c) && Reach(LiveArcs(c), r, a);
    ReachTrans(LiveArcs(c), r, a, b);
  }

  /** A live symbol that no provider-free path reaches is reached through a provider edge or a
      provider root that enters the provider-only region. */
  lemma ProviderOnlyHasEntry(c: Contents, v: nat) returns (x: Fact<nat>)
    requires ProviderOnly(c, v)
    ensures EntersByEdge(c, x, v) || EntersByRoot(c, x, v)
  {
    hide Reach, Traversable, IsProviderEdge, IsProviderRoot, StructurallyReachable, LiveArcs, StructuralArcs;
    var r: nat :| r in RootIds(c) && Reach(LiveArcs(c), r, v);
    ReachRefl(LiveArcs(c), r);
    if StructurallyReachable(c, r) {
      x := FirstProviderEdge(c, r, v);
    } else {
      x :| x in c.roots && x.Root? && x.symbol == r;
      if !IsProviderRoot(x.rootKind) { StructuralRootReachable(c, x); }
    }
  }

  lemma StructuralRootReachable(c: Contents, x: Fact<nat>)
    requires x in c.roots && x.Root? && !IsProviderRoot(x.rootKind)
    ensures StructurallyReachable(c, x.symbol)
  {
    hide Reach;
    ReachRefl(StructuralArcs(c), x.symbol);
    assert x.symbol in StructuralRootIds(c);
  }

  lemma FirstProviderEdge(c: Contents, r: nat, v: nat) returns (e: Fact<nat>)
    requires StructurallyReachable(c, r) && !StructurallyReachable(c, v) && Reach(LiveArcs(c), r, v)
    ensures EntersByEdge(c, e, v)
  {
    hide Reach, Traversable, IsProviderEdge, StructurallyReachable, Reachable;
    var S := iset z: nat | StructurallyReachable(c, z);
    var a, b := ReachCrossing(LiveArcs(c), r, v, S);
    e :| e in c.edges && IsLive(c, e) && e.from == a && e.to == b;
    assert IsProviderEdge(e.edgeKind) by {
      if !IsProviderEdge(e.edgeKind) {
        assert (a, b) in StructuralArcs(c);
        StructuralStep(c, a, b);
      }
    }
    StructuralIsReachable(c, a);
    ReachArc(LiveArcs(c), a, b);
    ReachableStep(c, a, b);
  }
}
