/** The order in which translation units are merged. */
module MergeOrder {
  import opened Wrappers
  import opened Orders
  import opened Symbols
  import opened Facts
  import opened Merging

  /** The fields of a merged symbol that do not depend on arrival order. */
  datatype Core = Core(identity: Identity, qualifiedName: string, className: string, kind: SymbolKind,
                       scope: SymbolScope, defined: bool, internalLinkage: bool, isVirtual: bool)

  function CoreOf(s: Symbol): Core {
    Core(s.identity, s.qualifiedName, s.className, s.kind, s.scope, s.defined, s.internalLinkage, s.isVirtual)
  }

  // ---- the join of a set of declarations, described field by field

  ghost predicate JoinsText(v: string, values: set<string>) {
    (forall x :: x in values ==> x == [] || x == v) && v in values
  }

  ghost predicate LeastAnchor(v: string, values: set<string>) {
    && v in values
    && (v == [] ==> forall x :: x in values ==> x == [])
    && (forall x :: x in values && x != [] ==> !StringLess(x, v))
  }

  ghost predicate JoinsNames(c: Core, all: set<Symbol>) {
    && JoinsText(c.qualifiedName, set s | s in all :: s.qualifiedName)
    && JoinsText(c.className, set s | s in all :: s.className)
    && JoinsText(c.identity.usr, set s | s in all :: s.identity.usr)
    && LeastAnchor(c.identity.fallbackAnchor, set s | s in all :: s.identity.fallbackAnchor)
  }

  ghost predicate JoinsFlags(c: Core, all: set<Symbol>) {
    && (c.identity.quality == Stable <==> exists s :: s in all && s.identity.quality == Stable)
    && (c.defined <==> exists s :: s in all && s.defined)
    && (c.isVirtual <==> exists s :: s in all && s.isVirtual)
    && (exists s :: s in all && s.scope == c.scope)
    && (forall s :: s in all ==> ScopeRank(s.scope) <= ScopeRank(c.scope))
  }

  ghost predicate SharesDomain(c: Core, s: Symbol) {
    && s.kind == c.kind && s.internalLinkage == c.internalLinkage
    && s.identity.configuration == c.identity.configuration
    && s.identity.linkageName == c.identity.linkageName
    && s.identity.translationUnit == c.identity.translationUnit
  }

  /** c is what the declarations say together: the names some of them give, the least fallback
      anchor, the strongest scope, and the union of the flags. */
  ghost predicate IsJoin(c: Core, all: set<Symbol>) {
    JoinsNames(c, all) && JoinsFlags(c, all) && forall s :: s in all ==> SharesDomain(c, s)
  }

  lemma JoinUnique(c: Core, d: Core, all: set<Symbol>)
    requires all != {} && IsJoin(c, all) && IsJoin(d, all)
    ensures c == d
  {
    var s :| s in all;
    assert SharesDomain(c, s) && SharesDomain(d, s);
    StringTotal(c.identity.fallbackAnchor, d.identity.fallbackAnchor);
    var x :| x in all && x.scope == c.scope;
    var y :| y in all && y.scope == d.scope;
    assert c.identity == d.identity;
  }

  lemma JoinOne(s: Symbol)
    ensures IsJoin(CoreOf(s), {s})
  {
    StringTotal(s.identity.fallbackAnchor, s.identity.fallbackAnchor);
    assert s in {s};
  }

  lemma JoinText(t: string, values: set<string>, s: string)
    requires JoinsText(t, values) && Agree(t, s)
    ensures JoinsText(OrElse(t, s), values + {s})
  {
  }

  lemma JoinAnchor(t: Identity, values: set<string>, s: Identity)
    requires LeastAnchor(t.fallbackAnchor, values)
    ensures LeastAnchor(MergeIdentity(t, s).fallbackAnchor, values + {s.fallbackAnchor})
  {
    forall x | x in values ensures x != [] ==> !StringLess(x, MergeIdentity(t, s).fallbackAnchor) {
      StringTrans(x, s.fallbackAnchor, t.fallbackAnchor);
    }
    StringTotal(s.fallbackAnchor, s.fallbackAnchor);
  }

  lemma FieldSets(all: set<Symbol>, s: Symbol)
    ensures (set x | x in all + {s} :: x.qualifiedName) == (set x | x in all :: x.qualifiedName) + {s.qualifiedName}
    ensures (set x | x in all + {s} :: x.className) == (set x | x in all :: x.className) + {s.className}
    ensures (set x | x in all + {s} :: x.identity.usr) == (set x | x in all :: x.identity.usr) + {s.identity.usr}
    ensures (set x | x in all + {s} :: x.identity.fallbackAnchor) ==
            (set x | x in all :: x.identity.fallbackAnchor) + {s.identity.fallbackAnchor}
  {
  }

  lemma MergedNames(t: Symbol, s: Symbol)
    requires Compatible(t, s)
    ensures Agree(t.qualifiedName, s.qualifiedName) && Agree(t.className, s.className) && Agree(t.identity.usr, s.identity.usr)
    ensures var m := CoreOf(MergeSymbol(t, s));
            && m.qualifiedName == OrElse(t.qualifiedName, s.qualifiedName)
            && m.className == OrElse(t.className, s.className)
            && m.identity.usr == OrElse(t.identity.usr, s.identity.usr)
            && m.identity.fallbackAnchor == MergeIdentity(t.identity, s.identity).fallbackAnchor
  {
    hide SourceBefore, PrimaryExtent;
  }

  lemma JoinNames(t: Symbol, all: set<Symbol>, s: Symbol)
    requires JoinsNames(CoreOf(t), all) && Compatible(t, s)
    ensures JoinsNames(CoreOf(MergeSymbol(t, s)), all + {s})
  {
    hide MergeSymbol, JoinsText, LeastAnchor, MergeIdentity, Conflict, Agree, OrElse;
    MergedNames(t, s);
    FieldSets(all, s);
    JoinText(t.qualifiedName, set x | x in all :: x.qualifiedName, s.qualifiedName);
    JoinText(t.className, set x | x in all :: x.className, s.className);
    JoinText(t.identity.usr, set x | x in all :: x.identity.usr, s.identity.usr);
    JoinAnchor(t.identity, set x | x in all :: x.identity.fallbackAnchor, s.identity);
  }

  lemma UsrMerged(t: Identity, s: Identity)
    ensures MergeIdentity(t, s).usr == OrElse(t.usr, s.usr)
    ensures MergeIdentity(t, s).quality == if s.quality == Stable then Stable else t.quality
  {
  }

  lemma JoinFlags(t: Symbol, all: set<Symbol>, s: Symbol)
    requires JoinsFlags(CoreOf(t), all)
    ensures JoinsFlags(CoreOf(MergeSymbol(t, s)), all + {s})
  {
    hide SourceBefore, PrimaryExtent, OrElse, MergeIdentity;
    var m, more := MergeSymbol(t, s), all + {s};
    UsrMerged(t.identity, s.identity);
    assert s in more && forall x :: x in all ==> x in more;
    assert forall x :: x in more ==> x in all || x == s;
    assert m.identity.quality == Stable <==> exists x :: x in more && x.identity.quality == Stable;
    assert m.defined <==> exists x :: x in more && x.defined;
    assert m.isVirtual <==> exists x :: x in more && x.isVirtual;
    assert exists x :: x in more && x.scope == m.scope;
  }

  lemma JoinMerge(t: Symbol, all: set<Symbol>, s: Symbol)
    requires IsJoin(CoreOf(t), all) && Compatible(t, s)
    ensures IsJoin(CoreOf(MergeSymbol(t, s)), all + {s})
  {
    JoinNames(t, all, s);
    JoinFlags(t, all, s);
    hide JoinsNames, JoinsFlags, SourceBefore, PrimaryExtent, OrElse;
  }

  // ---- sequences of batches

  ghost predicate ValidBatches(batches: seq<Contents>) {
    forall i :: 0 <= i < |batches| ==> Valid(batches[i])
  }

  function MergeAll(batches: seq<Contents>): Result<Contents, GraphError> {
    if batches == [] then Ok(NOTHING)
    else match MergeAll(batches[..|batches| - 1])
      case Ok(c) => Merge(c, batches[|batches| - 1])
      case Err(e) => Err(e)
  }

  /** The declarations that the batches give for a key. */
  ghost function Declared(batches: seq<Contents>, key: string): set<Symbol> {
    set b | b in batches && key in ViewOf(b).symbols :: ViewOf(b).symbols[key]
  }

  ghost function AllFacts(batches: seq<Contents>): set<Fact<string>> {
    set b, x | b in batches && x in ViewOf(b).facts :: x
  }

  ghost predicate PairwiseCompatible(batches: seq<Contents>) {
    forall a, b :: a in batches && b in batches ==> ViewCompatible(ViewOf(a).symbols, ViewOf(b).symbols)
  }

  ghost predicate NameFrom(s: Symbol, all: set<Symbol>) {
    exists x :: x in all && x.name == s.name
  }

  /** The merged graph says exactly what the batches say together. */
  ghost predicate Joined(c: Contents, batches: seq<Contents>) {
    && Valid(c)
    && ViewOf(c).facts == AllFacts(batches)
    && (forall k :: k in ViewOf(c).symbols <==> Declared(batches, k) != {})
    && (forall k :: k in ViewOf(c).symbols ==> JoinedAt(ViewOf(c).symbols[k], Declared(batches, k)))
  }

  ghost predicate JoinedAt(s: Symbol, all: set<Symbol>) {
    IsJoin(CoreOf(s), all) && NameFrom(s, all)
  }

  lemma JoinedTextAgrees(v: string, values: set<string>, s: string)
    requires JoinsText(v, values) && forall x :: x in values ==> Agree(x, s)
    ensures Agree(v, s)
  {
  }

  /** A declaration compatible with each of several is compatible with their join. */
  lemma JoinedCompatible(t: Symbol, all: set<Symbol>, s: Symbol)
    requires all != {} && JoinedAt(t, all) && forall x :: x in all ==> Compatible(x, s)
    ensures Compatible(t, s)
  {
    var x :| x in all;
    assert SharesDomain(CoreOf(t), x) && Compatible(x, s);
    var y :| y in all && y.name == t.name;
    assert Compatible(y, s);
    JoinedTextAgrees(t.qualifiedName, set x | x in all :: x.qualifiedName, s.qualifiedName);
    JoinedTextAgrees(t.className, set x | x in all :: x.className, s.className);
    JoinedTextAgrees(t.identity.usr, set x | x in all :: x.identity.usr, s.identity.usr);
  }

  lemma {:induction false} DeclaredLast(init: seq<Contents>, last: Contents, key: string)
    ensures Declared(init + [last], key) ==
            Declared(init, key) + (if key in ViewOf(last).symbols then {ViewOf(last).symbols[key]} else {})
    ensures AllFacts(init + [last]) == AllFacts(init) + ViewOf(last).facts
  {
    hide ViewOf;
    assert forall b :: b in init + [last] <==> b in init || b == last;
  }

  lemma JoinedStepAt(c: View, init: seq<Contents>, last: Contents, key: string)
    requires key in c.symbols <==> Declared(init, key) != {}
    requires key in c.symbols ==> JoinedAt(c.symbols[key], Declared(init, key))
    requires key in c.symbols && key in ViewOf(last).symbols ==> Compatible(c.symbols[key], ViewOf(last).symbols[key])
    ensures var m := MergeSymbols(c.symbols, ViewOf(last).symbols);
            && (key in m <==> Declared(init + [last], key) != {})
            && (key in m ==> JoinedAt(m[key], Declared(init + [last], key)))
  {
    hide ViewOf, IsJoin, CoreOf, MergeIdentity, PrimaryExtent, SourceBefore, Conflict, Declared;
    DeclaredLast(init, last, key);
    var l := ViewOf(last).symbols;
    if key in l {
      assert l[key] in Declared(init + [last], key);
      if key in c.symbols {
        JoinMerge(c.symbols[key], Declared(init, key), l[key]);
        var x :| x in Declared(init, key) && x.name == c.symbols[key].name;
        assert x in Declared(init + [last], key);
      } else {
        assert Declared(init + [last], key) == {l[key]};
        JoinOne(l[key]);
      }
    } else {
      assert Declared(init + [last], key) == Declared(init, key);
    }
  }

  lemma LastCompatible(c: View, init: seq<Contents>, last: Contents, key: string)
    requires key in c.symbols && key in ViewOf(last).symbols
    requires Declared(init, key) != {} && JoinedAt(c.symbols[key], Declared(init, key))
    requires PairwiseCompatible(init + [last])
    ensures Compatible(c.symbols[key], ViewOf(last).symbols[key])
  {
    hide ViewOf, IsJoin, Conflict, NameFrom, JoinedAt, Compatible;
    var l := ViewOf(last).symbols;
    forall x | x in Declared(init, key) ensures Compatible(x, l[key]) {
      var b :| b in init && key in ViewOf(b).symbols && x == ViewOf(b).symbols[key];
      assert b in init + [last] && last in init + [last];
      assert ViewCompatible(ViewOf(b).symbols, l);
    }
    JoinedCompatible(c.symbols[key], Declared(init, key), l[key]);
  }

  lemma JoinedStep(c: Contents, init: seq<Contents>, last: Contents)
    requires Joined(c, init) && Valid(last) && PairwiseCompatible(init + [last])
    ensures Merge(c, last).Ok? && Joined(Merge(c, last).value, init + [last])
  {
    hide Valid, ViewOf, PairwiseCompatible, JoinedAt, Declared, AllFacts, MergeSymbols, Compatible, Merge;
    var v, l := ViewOf(c), ViewOf(last);
    MergeRefinesView(c, last);
    forall k | k in v.symbols && k in l.symbols ensures Compatible(v.symbols[k], l.symbols[k]) {
      LastCompatible(v, init, last, k);
    }
    forall k
      ensures k in MergeSymbols(v.symbols, l.symbols) <==> Declared(init + [last], k) != {}
      ensures k in MergeSymbols(v.symbols, l.symbols) ==>
                JoinedAt(MergeSymbols(v.symbols, l.symbols)[k], Declared(init + [last], k))
    {
      if k in v.symbols && k in l.symbols { assert Compatible(v.symbols[k], l.symbols[k]); }
      JoinedStepAt(v, init, last, k);
    }
    DeclaredLast(init, last, "");
  }

  lemma NothingJoined()
    ensures Joined(NOTHING, [])
  {
    assert NOTHING.All() == [];
    assert ViewOf(NOTHING).facts == AllFacts([]);
    assert forall k :: Declared([], k) == {};
  }

  /** If equal-key symbols of the batches are pairwise compatible, merging succeeds and the
      outcome is the join of the batches. */
  lemma {:induction false} MergeAllJoins(batches: seq<Contents>)
    requires ValidBatches(batches) && PairwiseCompatible(batches)
    ensures MergeAll(batches).Ok? && Joined(MergeAll(batches).value, batches)
  {
    if batches == [] {
      NothingJoined();
    } else {
      hide Joined, ViewCompatible, Valid, Merge;
      var init, last := batches[..|batches| - 1], batches[|batches| - 1];
      assert batches == init + [last];
      MergeAllJoins(init);
      JoinedStep(MergeAll(init).value, init, last);
    }
  }

  /** Equal in everything but the fields that depend on arrival order. */
  ghost predicate SameCore(v: View, w: View) {
    && v.facts == w.facts
    && v.symbols.Keys == w.symbols.Keys
    && (forall k :: k in v.symbols ==> CoreOf(v.symbols[k]) == CoreOf(w.symbols[k]))
  }

  /** Merging compatible batches in any order, and any number of times, gives the same keys,
      identities, scopes, flags and facts. */
  lemma MergeOrderIrrelevant(xs: seq<Contents>, ys: seq<Contents>)
    requires ValidBatches(xs) && PairwiseCompatible(xs)
    requires forall b :: b in xs <==> b in ys
    ensures MergeAll(xs).Ok? && MergeAll(ys).Ok?
    ensures SameCore(ViewOf(MergeAll(xs).value), ViewOf(MergeAll(ys).value))
  {
    hide Valid, ViewOf, MergeAll, CoreOf, IsJoin, ViewCompatible, NameFrom;
    forall i | 0 <= i < |ys| ensures Valid(ys[i]) { assert ys[i] in xs; }
    MergeAllJoins(xs);
    MergeAllJoins(ys);
    var v, w := ViewOf(MergeAll(xs).value), ViewOf(MergeAll(ys).value);
    assert AllFacts(xs) == AllFacts(ys);
    forall k ensures Declared(xs, k) == Declared(ys, k) {}
    forall k | k in v.symbols ensures CoreOf(v.symbols[k]) == CoreOf(w.symbols[k]) {
      assert Declared(xs, k) == Declared(ys, k);
      JoinUnique(CoreOf(v.symbols[k]), CoreOf(w.symbols[k]), Declared(xs, k));
    }
  }

  // ---- exactly when every order is accepted

  lemma SelfCompatible(s: Symbol)
    ensures Compatible(s, s)
  {
  }

  lemma ConflictRejected(a: Contents, b: Contents, rest: seq<Contents>)
    requires Valid(a) && Valid(b) && !ViewCompatible(ViewOf(a).symbols, ViewOf(b).symbols)
    ensures MergeAll([a, b] + rest).Err?
    decreases |rest|
  {
    hide Valid, ViewOf, ViewCompatible, Merge;
    if rest == [] {
      assert [a, b] + rest == [a, b] && [a, b][..1] == [a] && [a][..0] == [];
      MergeAllOne(a);
      MergeRefinesView(MergeAll([a]).value, b);
    } else {
      var init := rest[..|rest| - 1];
      assert ([a, b] + rest)[..|rest| + 1] == [a, b] + init;
      ConflictRejected(a, b, init);
    }
  }

  lemma MergeAllOne(a: Contents)
    requires Valid(a)
    ensures MergeAll([a]).Ok? && Valid(MergeAll([a]).value)
    ensures ViewOf(MergeAll([a]).value) == ViewOf(a)
  {
    hide KeyedFacts, Keyed, SymbolMap, Merge, AddSymbol, DistinctKeys, InRange;
    assert [a][..0] == [];
    NothingJoined();
    EmptyView();
    MergeRefinesView(NOTHING, a);
    assert MergeSymbols(map[], ViewOf(a).symbols) == ViewOf(a).symbols;
  }

  lemma EmptyView()
    ensures ViewOf(NOTHING) == View(map[], {})
  {
    assert NOTHING.All() == [];
  }

  /** Taking two elements to the front permutes a sequence. */
  lemma TwoToFront(bs: seq<Contents>, i: nat, j: nat)
    requires i < j < |bs|
    ensures multiset([bs[i], bs[j]] + (bs[..i] + bs[i + 1..j] + bs[j + 1..])) == multiset(bs)
  {
    assert bs == bs[..i] + [bs[i]] + bs[i + 1..j] + [bs[j]] + bs[j + 1..];
  }

  lemma CompatibleSymmetric(a: View, b: View)
    ensures ViewCompatible(a.symbols, b.symbols) <==> ViewCompatible(b.symbols, a.symbols)
  {
  }

  lemma PairwiseByPosition(bs: seq<Contents>) returns (i: nat, j: nat)
    requires !PairwiseCompatible(bs)
    ensures i < j < |bs| && !ViewCompatible(ViewOf(bs[i]).symbols, ViewOf(bs[j]).symbols)
  {
    hide ViewOf, Conflict;
    var a, b :| a in bs && b in bs && !ViewCompatible(ViewOf(a).symbols, ViewOf(b).symbols);
    var k :| k in ViewOf(a).symbols && k in ViewOf(b).symbols && !Compatible(ViewOf(a).symbols[k], ViewOf(b).symbols[k]);
    SelfCompatible(ViewOf(a).symbols[k]);
    var m :| 0 <= m < |bs| && bs[m] == a;
    var n :| 0 <= n < |bs| && bs[n] == b;
    CompatibleSymmetric(ViewOf(a), ViewOf(b));
    i, j := if m < n then m else n, if m < n then n else m;
  }

  ghost predicate AcceptedInEveryOrder(bs: seq<Contents>) {
    forall cs :: multiset(cs) == multiset(bs) ==> MergeAll(cs).Ok?
  }

  lemma SomeOrderRejected(bs: seq<Contents>) returns (cs: seq<Contents>)
    requires ValidBatches(bs) && !PairwiseCompatible(bs)
    ensures multiset(cs) == multiset(bs) && MergeAll(cs).Err?
  {
    hide Valid, ViewOf, MergeAll, ViewCompatible, PairwiseCompatible;
    var i, j := PairwiseByPosition(bs);
    TwoToFront(bs, i, j);
    ConflictRejected(bs[i], bs[j], bs[..i] + bs[i + 1..j] + bs[j + 1..]);
    cs := [bs[i], bs[j]] + (bs[..i] + bs[i + 1..j] + bs[j + 1..]);
  }

  /** The batches merge in every order exactly when their equal-key symbols are pairwise
      compatible. */
  lemma EveryOrderIff(bs: seq<Contents>)
    requires ValidBatches(bs)
    ensures AcceptedInEveryOrder(bs) <==> PairwiseCompatible(bs)
  {
    hide MergeAll, PairwiseCompatible, SameCore, ValidBatches;
    if PairwiseCompatible(bs) {
      forall cs | multiset(cs) == multiset(bs) ensures MergeAll(cs).Ok? {
        SameMultisetSameMembers(cs, bs);
        MergeOrderIrrelevant(bs, cs);
      }
    } else {
      var _ := SomeOrderRejected(bs);
    }
  }

  const NOWHERE := SourcePoint("", 0, 0, 0, 0)

  function Named(name: string): Contents {
    var extent := SourceExtent(NOWHERE, NOWHERE, NOWHERE);
    NOTHING.(symbols := [Symbol("k", Identity("c", "", "l", "", "", Stable), name, "", "", "", SymbolSource(extent, None),
                                Function, Reportable, false, false, false)])
  }

  /** In one order a conflict can go unnoticed: a declaration without a name, merged first,
      keeps the name empty, and the two names merged after it are never compared. */
  lemma ConflictCanHide()
    ensures MergeAll([Named(""), Named("x"), Named("y")]).Ok?
    ensures MergeAll([Named("x"), Named("y"), Named("")]).Err?
  {
    hide Merge;
    var n, x, y := Named(""), Named("x"), Named("y");
    assert [n, x, y][..2] == [n, x] && [n, x][..1] == [n] && [n][..0] == [];
    assert [x, y, n][..2] == [x, y] && [x, y][..1] == [x] && [x][..0] == [];
    NamedMerges(NOTHING, "");
    NamedMerges(n, "x");
    NamedMerges(n, "y");
    NamedMerges(NOTHING, "x");
    NamedConflict(x, y);
    assert MergeAll([]) == Ok(NOTHING);
    assert MergeAll([n]) == Ok(n) && MergeAll([x]) == Ok(x);
    assert MergeAll([n, x]) == Ok(n) && MergeAll([x, y]).Err?;
  }

  lemma NamedAdds(c: Contents, name: string)
    requires c == NOTHING || c == Named("")
    ensures AddSymbol(c, Named(name).symbols[0]) == Ok((if c == NOTHING then Named(name) else c, 0))
  {
    var s := Named(name).symbols[0];
    if c == NOTHING {
      assert c.symbols + [s] == [s];
    } else {
      assert c.symbols[..0] == [];
      assert MergeSymbol(c.symbols[0], s) == c.symbols[0];
      assert c.symbols[0 := c.symbols[0]] == c.symbols;
    }
  }

  lemma NamedMerges(c: Contents, name: string)
    requires c == NOTHING || c == Named("")
    ensures Merge(c, Named(name)) == Ok(if c == NOTHING then Named(name) else c)
  {
    hide AddSymbol, MergeSymbol;
    var n := Named(name);
    NamedAdds(c, name);
    assert n.symbols[..0] == [];
    assert AddSymbols(c, []) == Progress(c, [], None);
    assert n.All() == [];
  }

  lemma NamedConflict(x: Contents, y: Contents)
    requires x == Named("x") && y == Named("y")
    ensures Merge(x, y).Err?
  {
    assert y.symbols[..0] == [];
    assert "x"[0] != "y"[0];
  }
}
