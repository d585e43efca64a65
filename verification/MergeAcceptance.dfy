/** Exactly when the batches are accepted in the order in which they arrive. */
module MergeAcceptance {
  import opened Wrappers
  import opened Symbols
  import opened Facts
  import opened Merging
  import opened Declarations
  import opened MergeOrder
  import opened MergePlace

  // ---- the declarations of one key

  ghost predicate AllAgreeButName(ds: seq<Symbol>) {
    forall i, j :: 0 <= i < j < |ds| ==> OneEntityButName(ds[i], ds[j])
  }

  /** The first declaration has no name, or no other one has a different name. */
  predicate FirstNameHolds(ds: seq<Symbol>) {
    ds != [] && ds[0].name != [] ==> forall i :: 0 <= i < |ds| ==> ds[i].name == [] || ds[i].name == ds[0].name
  }

  ghost predicate AcceptedInOrder(ds: seq<Symbol>) {
    AllAgreeButName(ds) && FirstNameHolds(ds)
  }

  lemma CompatibleByName(t: Symbol, s: Symbol)
    ensures Compatible(t, s) <==> OneEntityButName(t, s) && Agree(t.name, s.name)
  {
    hide Conflict, OneEntityButName, OneText;
    CompatibleIff(t, s);
    OneTextIff(t.name, s.name);
  }

  lemma OrElseAgrees(a: string, b: string, c: string)
    requires OneText(a, b)
    ensures OneText(OrElse(a, b), c) <==> OneText(a, c) && OneText(b, c)
  {
    hide OneText;
    OneTextIff(a, b);
    OneTextIff(a, c);
    OneTextIff(b, c);
    OneTextIff(OrElse(a, b), c);
  }

  lemma MergedAgrees(t: Symbol, s: Symbol, x: Symbol)
    requires OneEntityButName(t, s)
    ensures OneEntityButName(MergeSymbol(t, s), x) <==> OneEntityButName(t, x) && OneEntityButName(s, x)
  {
    hide SourceBefore, PrimaryExtent, OneText, OrElse;
    OrElseAgrees(t.qualifiedName, s.qualifiedName, x.qualifiedName);
    OrElseAgrees(t.className, s.className, x.className);
    OrElseAgrees(t.identity.usr, s.identity.usr, x.identity.usr);
  }

  /** The symbol merged so far has the first name, and agrees with whatever all of them agree with. */
  lemma {:induction false} MergedSoFar(ds: seq<Symbol>, x: Symbol)
    requires ds != [] && AllAgreeButName(ds)
    ensures MergeInto(ds).name == ds[0].name
    ensures OneEntityButName(MergeInto(ds), x) <==> forall i :: 0 <= i < |ds| ==> OneEntityButName(ds[i], x)
  {
    hide OneEntityButName, MergeSymbol;
    if |ds| > 1 {
      var init, last := ds[..|ds| - 1], ds[|ds| - 1];
      MergedSoFar(init, x);
      MergedSoFar(init, last);
      MergedName(MergeInto(init), last);
      MergedAgrees(MergeInto(init), last, x);
      assert forall i :: 0 <= i < |init| ==> ds[i] == init[i];
    }
  }

  lemma MergedName(t: Symbol, s: Symbol)
    ensures MergeSymbol(t, s).name == t.name
  {
  }

  lemma AcceptedNext(ds: seq<Symbol>, s: Symbol)
    requires ds != []
    ensures AcceptedInOrder(ds + [s]) <==> AcceptedInOrder(ds) && Compatible(MergeInto(ds), s)
  {
    hide OneEntityButName, MergeInto, Compatible;
    var es := ds + [s];
    assert forall i :: 0 <= i < |ds| ==> es[i] == ds[i];
    assert es[|ds|] == s;
    if AllAgreeButName(ds) {
      MergedSoFar(ds, s);
      CompatibleByName(MergeInto(ds), s);
    }
  }

  lemma AcceptedOne(s: Symbol)
    ensures AcceptedInOrder([s]) && AcceptedInOrder([])
  {
  }

  // ---- the batches

  /** What the batches declare for a key, in their order. A batch has one declaration at most. */
  ghost function DeclaredInOrder(batches: seq<Contents>, key: string): seq<Symbol> {
    if batches == [] then []
    else
      var last := ViewOf(batches[|batches| - 1]).symbols;
      DeclaredInOrder(batches[..|batches| - 1], key) + if key in last then [last[key]] else []
  }

  /** At each key stands what its declarations are merged into. */
  ghost predicate MergedFrom(m: map<string, Symbol>, batches: seq<Contents>) {
    forall key :: MergedFromAt(m, DeclaredInOrder(batches, key), key)
  }

  ghost predicate AllAccepted(batches: seq<Contents>) {
    forall key :: AcceptedInOrder(DeclaredInOrder(batches, key))
  }

  ghost predicate MergedFromAt(m: map<string, Symbol>, ds: seq<Symbol>, key: string) {
    (key in m <==> ds != []) && (key in m ==> m[key] == MergeInto(ds))
  }

  lemma MergedFromStep(m: map<string, Symbol>, init: seq<Contents>, last: Contents, key: string)
    requires MergedFromAt(m, DeclaredInOrder(init, key), key)
    ensures MergedFromAt(MergeSymbols(m, ViewOf(last).symbols), DeclaredInOrder(init + [last], key), key)
  {
    hide ViewOf, MergeSymbol;
    assert (init + [last])[..|init|] == init;
    var l, ds := ViewOf(last).symbols, DeclaredInOrder(init, key);
    assert DeclaredInOrder(init + [last], key) == ds + if key in l then [l[key]] else [];
    if key in l && key in m {
      MergeIntoNext(ds, l[key]);
    } else if key in l {
      assert ds + [l[key]] == [l[key]];
    } else {
      assert ds + [] == ds;
    }
  }

  lemma MergedFromNext(m: map<string, Symbol>, init: seq<Contents>, last: Contents)
    requires MergedFrom(m, init)
    ensures MergedFrom(MergeSymbols(m, ViewOf(last).symbols), init + [last])
  {
    hide ViewOf, MergeSymbols, DeclaredInOrder, MergedFromAt;
    forall key ensures MergedFromAt(MergeSymbols(m, ViewOf(last).symbols), DeclaredInOrder(init + [last], key), key) {
      MergedFromStep(m, init, last, key);
    }
  }

  lemma MergeIntoNext(ds: seq<Symbol>, s: Symbol)
    requires ds != []
    ensures MergeInto(ds + [s]) == MergeSymbol(MergeInto(ds), s)
  {
    assert (ds + [s])[..|ds|] == ds;
  }

  lemma AllAcceptedNext(m: map<string, Symbol>, init: seq<Contents>, last: Contents)
    requires MergedFrom(m, init)
    ensures AllAccepted(init + [last]) <==> AllAccepted(init) && ViewCompatible(m, ViewOf(last).symbols)
  {
    hide ViewOf, AcceptedInOrder, Compatible, MergeInto;
    assert (init + [last])[..|init|] == init;
    var l := ViewOf(last).symbols;
    forall key ensures AcceptedInOrder(DeclaredInOrder(init + [last], key))
      <==> AcceptedInOrder(DeclaredInOrder(init, key)) && (key in l && key in m ==> Compatible(m[key], l[key]))
    {
      AcceptedStep(m, init, last, key);
    }
  }

  lemma AcceptedStep(m: map<string, Symbol>, init: seq<Contents>, last: Contents, key: string)
    requires MergedFrom(m, init)
    ensures AcceptedInOrder(DeclaredInOrder(init + [last], key)) <==>
      && AcceptedInOrder(DeclaredInOrder(init, key))
      && (key in ViewOf(last).symbols && key in m ==> Compatible(m[key], ViewOf(last).symbols[key]))
  {
    hide ViewOf, AcceptedInOrder, Compatible, MergeInto;
    assert (init + [last])[..|init|] == init && MergedFromAt(m, DeclaredInOrder(init, key), key);
    var l, ds := ViewOf(last).symbols, DeclaredInOrder(init, key);
    if key in l {
      AcceptedOne(l[key]);
      if key in m { AcceptedNext(ds, l[key]); } else { assert ds + [l[key]] == [l[key]]; }
    } else {
      assert ds + [] == ds;
    }
  }

  lemma StillRejected(init: seq<Contents>, last: Contents)
    requires !AllAccepted(init)
    ensures !AllAccepted(init + [last])
  {
    hide ViewOf, Compatible;
    assert (init + [last])[..|init|] == init;
    var key :| !AcceptedInOrder(DeclaredInOrder(init, key));
    var ds, es := DeclaredInOrder(init, key), DeclaredInOrder(init + [last], key);
    assert forall i :: 0 <= i < |ds| ==> es[i] == ds[i];
    assert !AcceptedInOrder(es);
  }

  /** The batches are accepted in their order exactly when, at every key, the declarations agree in
      all but the name, and the first of them has no name or the others have none or the same. Then
      each symbol is what its declarations are merged into. */
  lemma {:induction false} MergeAllIff(batches: seq<Contents>)
    requires ValidBatches(batches)
    ensures MergeAll(batches).Ok? <==> AllAccepted(batches)
    ensures MergeAll(batches).Ok? ==> Valid(MergeAll(batches).value) && MergedFrom(ViewOf(MergeAll(batches).value).symbols, batches)
  {
    hide Valid, ViewOf, Merge, ViewCompatible, AllAccepted, MergedFrom;
    if batches == [] {
      NothingMerged();
    } else {
      var init, last := batches[..|batches| - 1], batches[|batches| - 1];
      assert batches == init + [last];
      MergeAllIff(init);
      if MergeAll(init).Ok? {
        var c := MergeAll(init).value;
        MergeRefinesView(c, last);
        AllAcceptedNext(ViewOf(c).symbols, init, last);
        MergedFromNext(ViewOf(c).symbols, init, last);
      } else {
        StillRejected(init, last);
      }
    }
  }

  lemma NothingMerged()
    ensures Valid(NOTHING) && AllAccepted([]) && MergedFrom(ViewOf(NOTHING).symbols, [])
  {
  }

  // ---- conflicts of names

  predicate NameClash(ds: seq<Symbol>) {
    exists i, j :: 0 <= i < j < |ds| && ds[i].name != [] && ds[j].name != [] && ds[i].name != ds[j].name
  }

  /** The names do not conflict, or the first declaration has none. */
  predicate ClashUnnoticed(ds: seq<Symbol>) {
    NameClash(ds) ==> ds[0].name == []
  }

  ghost predicate ClashesUnnoticed(batches: seq<Contents>) {
    forall key :: ClashUnnoticed(DeclaredInOrder(batches, key))
  }

  /** Where all else agrees, the merge in this order succeeds, and so a name conflict goes unnoticed,
      exactly when at every key with such a conflict the first declaration has no name. */
  lemma NameConflictUnnoticedIff(batches: seq<Contents>)
    requires ValidBatches(batches) && forall key :: AllAgreeButName(DeclaredInOrder(batches, key))
    ensures MergeAll(batches).Ok? <==> ClashesUnnoticed(batches)
  {
    hide *;
    MergeAllIff(batches);
    AcceptedByNames(batches);
  }

  lemma AcceptedByNames(batches: seq<Contents>)
    requires forall key :: AllAgreeButName(DeclaredInOrder(batches, key))
    ensures AllAccepted(batches) <==> ClashesUnnoticed(batches)
  {
    forall key ensures AcceptedInOrder(DeclaredInOrder(batches, key)) <==> ClashUnnoticed(DeclaredInOrder(batches, key)) {
      ClashAt(DeclaredInOrder(batches, key));
    }
  }

  lemma ClashAt(ds: seq<Symbol>)
    ensures FirstNameHolds(ds) <==> ClashUnnoticed(ds)
  {
    if !FirstNameHolds(ds) {
      var i :| 0 <= i < |ds| && ds[i].name != [] && ds[i].name != ds[0].name;
      assert ds[0].name != [] && 0 < i;
      assert NameClash(ds);
    }
  }

  // ---- every order

  /** Equal-key declarations of any two batches are of one entity, the name included. */
  ghost predicate OneEntityThroughout(batches: seq<Contents>) {
    forall a, b, s, t :: a in batches && b in batches && s in a.symbols && t in b.symbols && s.key == t.key ==> OneEntity(s, t)
  }

  /** The batches are accepted in every order exactly when all their declarations of a key are of one
      entity, the name included. */
  lemma EveryOrderOneEntity(batches: seq<Contents>)
    requires ValidBatches(batches)
    ensures AcceptedInEveryOrder(batches) <==> OneEntityThroughout(batches)
  {
    hide AcceptedInEveryOrder, OneEntity, Compatible;
    EveryOrderIff(batches);
    forall a, b | a in batches && b in batches
      ensures ViewCompatible(ViewOf(a).symbols, ViewOf(b).symbols) <==>
        forall s, t :: s in a.symbols && t in b.symbols && s.key == t.key ==> OneEntity(s, t)
    {
      OneEntityOfTwo(a, b);
    }
  }

  lemma OneEntityOfTwo(a: Contents, b: Contents)
    requires Valid(a) && Valid(b)
    ensures ViewCompatible(ViewOf(a).symbols, ViewOf(b).symbols) <==>
      forall s, t :: s in a.symbols && t in b.symbols && s.key == t.key ==> OneEntity(s, t)
  {
    hide OneEntity, Compatible;
    var m, n := ViewOf(a).symbols, ViewOf(b).symbols;
    SymbolMapSpec(a.symbols);
    SymbolMapSpec(b.symbols);
    forall s, t ensures Compatible(s, t) <==> OneEntity(s, t) { CompatibleIff(s, t); }
    forall s, t | s in a.symbols && t in b.symbols && s.key == t.key ensures s.key in m && s.key in n && m[s.key] == s && n[s.key] == t {
    }
  }
}
