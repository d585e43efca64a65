/** Where a merged symbol is said to be: the one field whose value can depend on the order in which
    translation units arrive, and when it does not. */
module MergePlace {
  import opened Wrappers
  import opened Orders
  import opened Symbols
  import opened Merging

  predicate HasPlace(s: Symbol) {
    PrimaryExtent(s).location.file != []
  }

  lemma BeforeTrans(a: SymbolSource, b: SymbolSource, c: SymbolSource)
    ensures SourceBefore(a, b) && SourceBefore(b, c) ==> SourceBefore(a, c)
    ensures !SourceBefore(a, b) && !SourceBefore(b, c) ==> !SourceBefore(a, c)
    ensures !SourceBefore(a, a)
  {
    var p := (if a.expansion.Some? then a.expansion.value else a.spelling).location.file;
    var q := (if b.expansion.Some? then b.expansion.value else b.spelling).location.file;
    var r := (if c.expansion.Some? then c.expansion.value else c.spelling).location.file;
    StringTrans(p, q, r);
    StringTotal(p, q);
    StringTotal(q, r);
    StringTotal(p, r);
    StringTotal(p, p);
  }

  // ---- two declarations

  /** Of two declarations that have a place, the merged symbol takes that of the definition; if
      neither or both define it, that of the stronger scope; and otherwise the earlier one. It does
      not matter which of the two came first. */
  lemma PlaceOfTwo(t: Symbol, s: Symbol)
    requires HasPlace(t) && HasPlace(s)
    ensures MergeSymbol(t, s).source == MergeSymbol(s, t).source ||
      (t.defined == s.defined && t.scope == s.scope && !SourceBefore(t.source, s.source) && !SourceBefore(s.source, t.source))
    ensures t.defined && !s.defined ==> MergeSymbol(t, s).source == t.source
    ensures t.defined == s.defined && ScopeRank(t.scope) > ScopeRank(s.scope) ==> MergeSymbol(t, s).source == t.source
    ensures t.defined == s.defined && t.scope == s.scope && SourceBefore(t.source, s.source) ==>
      MergeSymbol(t, s).source == t.source
  {
    BeforeTrans(t.source, s.source, t.source);
  }

  /** If both also have a signature, it comes from the declaration that gives the place. */
  lemma SignatureOfTwo(t: Symbol, s: Symbol)
    requires HasPlace(t) && HasPlace(s) && t.signature != []
    ensures var m := MergeSymbol(t, s);
            (m.source == t.source && m.signature == t.signature) || (m.source == s.source && m.signature == s.signature)
    ensures t.source != s.source && t.signature != s.signature ==>
      (MergeSymbol(t, s).signature == s.signature <==> MergeSymbol(t, s).source == s.source)
  {
    hide StringLess;
  }

  /** What makes a declaration the better one: it defines the symbol, or it is of stronger scope, or
      it comes first in the order of places. */
  predicate Better(s: Symbol, t: Symbol) {
    || (s.defined && !t.defined)
    || (s.defined == t.defined && ScopeRank(s.scope) > ScopeRank(t.scope))
    || (s.defined == t.defined && s.scope == t.scope && SourceBefore(s.source, t.source))
  }

  ghost predicate FromOne(m: Symbol, t: Symbol, s: Symbol) {
    (m.source == t.source && m.signature == t.signature) || (m.source == s.source && m.signature == s.signature)
  }

  /** Exactly when place and signature come from one declaration: when s gives both, as the better
      one or to a declaration that has neither, or gives none. Otherwise the places, or the
      signatures, must be alike. */
  lemma SignatureFollowsPlaceIff(t: Symbol, s: Symbol)
    ensures FromOne(MergeSymbol(t, s), t, s) <==>
      || t.source == s.source || t.signature == s.signature
      || ((HasPlace(s) && (!HasPlace(t) || Better(s, t))) <==> (t.signature == [] || Better(s, t)))
  {
    hide SourceBefore;
  }

  /** A peer without a place has no say in the place, but it replaces the signature: the empty file
      name comes first in the order of places. */
  lemma PlacelessGivesSignature(t: Symbol, s: Symbol)
    requires HasPlace(t) && !HasPlace(s) && t.defined == s.defined && t.scope == s.scope
    ensures MergeSymbol(t, s).source == t.source && MergeSymbol(t, s).signature == s.signature
  {
    StringTotal([], PrimaryExtent(t).location.file);
    assert SourceBefore(s.source, t.source);
  }

  // ---- any number of declarations

  function MergeInto(ds: seq<Symbol>): Symbol
    requires ds != []
  {
    if |ds| == 1 then ds[0] else MergeSymbol(MergeInto(ds[..|ds| - 1]), ds[|ds| - 1])
  }

  /** If all declarations have a place and a signature, those of the merged symbol come from one of
      them, however many there are. */
  lemma {:induction false} SignatureFollowsPlace(ds: seq<Symbol>)
    requires ds != [] && forall d :: d in ds ==> HasPlace(d) && d.signature != []
    ensures HasPlace(MergeInto(ds)) && MergeInto(ds).signature != []
    ensures exists d :: d in ds && MergeInto(ds).source == d.source && MergeInto(ds).signature == d.signature
  {
    hide HasPlace, MergeSymbol;
    if |ds| == 1 {
      assert ds[0] in ds;
    } else {
      var init, last := ds[..|ds| - 1], ds[|ds| - 1];
      SignatureFollowsPlace(init);
      var d :| d in init && MergeInto(init).source == d.source && MergeInto(init).signature == d.signature;
      assert d in ds && last in ds;
      SignatureOfTwo(MergeInto(init), last);
      MergedFields(MergeInto(init), last);
    }
  }

  ghost predicate Defining(ds: seq<Symbol>) {
    exists d :: d in ds && d.defined
  }

  ghost predicate Placed(ds: seq<Symbol>) {
    exists d :: d in ds && HasPlace(d)
  }

  ghost predicate IsTop(ds: seq<Symbol>, x: Symbol) {
    x in ds && forall d :: d in ds ==> ScopeRank(d.scope) <= ScopeRank(x.scope)
  }

  /** x cannot take the place from d, but its scope may keep others from doing so: it is d itself,
      or has no place, or is a mere declaration beside definitions. */
  ghost predicate Backs(ds: seq<Symbol>, d: Symbol, x: Symbol) {
    x == d || !HasPlace(x) || (Defining(ds) && !x.defined)
  }

  ghost predicate Backed(ds: seq<Symbol>, d: Symbol) {
    exists x :: IsTop(ds, x) && Backs(ds, d, x)
  }

  /** d, or a declaration without a place, is a definition if there is one at all. */
  ghost predicate Defended(ds: seq<Symbol>, d: Symbol) {
    Defining(ds) ==> d.defined || exists u :: u in ds && !HasPlace(u) && u.defined
  }

  ghost predicate Challenged(ds: seq<Symbol>, d: Symbol) {
    exists e :: IsTop(ds, e) && HasPlace(e) && e.defined == Defining(ds) && SourceBefore(e.source, d.source)
  }

  /** In some merge order, d gives the place. */
  ghost predicate CanGivePlace(ds: seq<Symbol>, d: Symbol) {
    d in ds && (Placed(ds) ==> HasPlace(d) && Backed(ds, d) && Defended(ds, d) && !Challenged(ds, d))
  }

  // ---- what the merged symbol has besides its place

  /** m is defined if any declaration is, and has the strongest of their scopes. */
  ghost predicate Sums(m: Symbol, ds: seq<Symbol>) {
    && (m.defined <==> Defining(ds))
    && (exists x :: IsTop(ds, x) && x.scope == m.scope)
  }

  lemma {:induction false} MergedSums(ds: seq<Symbol>)
    requires ds != []
    ensures Sums(MergeInto(ds), ds)
    ensures HasPlace(MergeInto(ds)) <==> Placed(ds)
  {
    hide HasPlace, SourceBefore;
    if |ds| == 1 {
      assert ds[0] in ds && IsTop(ds, ds[0]);
    } else {
      MergedSums(ds[..|ds| - 1]);
      SumsNext(ds[..|ds| - 1], MergeInto(ds[..|ds| - 1]), ds[|ds| - 1]);
      assert ds == ds[..|ds| - 1] + [ds[|ds| - 1]];
    }
  }

  lemma MergedFields(m: Symbol, s: Symbol)
    ensures MergeSymbol(m, s).defined == (m.defined || s.defined)
    ensures MergeSymbol(m, s).scope == if ScopeRank(s.scope) > ScopeRank(m.scope) then s.scope else m.scope
    ensures HasPlace(MergeSymbol(m, s)) == (HasPlace(m) || HasPlace(s))
  {
    hide SourceBefore;
  }

  lemma SumsNext(init: seq<Symbol>, m: Symbol, s: Symbol)
    requires Sums(m, init) && (HasPlace(m) <==> Placed(init))
    ensures Sums(MergeSymbol(m, s), init + [s])
    ensures HasPlace(MergeSymbol(m, s)) <==> Placed(init + [s])
  {
    hide MergeSymbol, HasPlace, ScopeRank;
    MergedFields(m, s);
    var ds := init + [s];
    assert s in ds && forall d :: d in init ==> d in ds;
    var x :| IsTop(init, x) && x.scope == m.scope;
    if ScopeRank(s.scope) > ScopeRank(m.scope) { assert IsTop(ds, s); } else { assert IsTop(ds, x); }
  }

  /** What one more declaration does to the place. */
  lemma PlaceNext(m: Symbol, s: Symbol)
    ensures MergeSymbol(m, s).source == if HasPlace(s) && (!HasPlace(m) || Better(s, m)) then s.source else m.source
  {
    hide SourceBefore;
  }

  // ---- whatever gives the place could

  /** The declaration that gave the place so far could still give it when s is not taken. */
  lemma KeepsGiving(init: seq<Symbol>, d: Symbol, m: Symbol, s: Symbol)
    requires Placed(init) && CanGivePlace(init, d) && m.source == d.source && Sums(m, init)
    requires !HasPlace(s) || !Better(s, m)
    ensures CanGivePlace(init + [s], d)
  {
    hide SourceBefore, HasPlace;
    var ds := init + [s];
    assert s in ds && forall e :: e in init ==> e in ds;
    var top :| IsTop(init, top) && top.scope == m.scope;
    var x :| IsTop(init, x) && Backs(init, d, x);
    assert ScopeRank(x.scope) == ScopeRank(m.scope);
    if ScopeRank(s.scope) > ScopeRank(m.scope) {
      assert IsTop(ds, s) && Backs(ds, d, s);
    } else {
      assert IsTop(ds, x) && Backs(ds, d, x);
    }
    assert Defended(ds, d) by {
      if s.defined && HasPlace(s) { assert m.defined && Defining(init); }
    }
    if Challenged(ds, d) {
      var e :| IsTop(ds, e) && HasPlace(e) && e.defined == Defining(ds) && SourceBefore(e.source, d.source);
      NoChallenger(init, d, m, s, e);
    }
  }

  lemma NoChallenger(init: seq<Symbol>, d: Symbol, m: Symbol, s: Symbol, e: Symbol)
    requires Placed(init) && CanGivePlace(init, d) && m.source == d.source && Sums(m, init)
    requires !HasPlace(s) || !Better(s, m)
    requires IsTop(init + [s], e) && HasPlace(e) && e.defined == Defining(init + [s])
    ensures !SourceBefore(e.source, d.source)
  {
    hide SourceBefore, HasPlace;
    var ds := init + [s];
    assert s in ds && forall e :: e in init ==> e in ds;
    var top :| IsTop(init, top) && top.scope == m.scope;
    if e in init {
      assert IsTop(init, e);
    } else {
      assert e == s;
      SameRankSameScope(s, m);
    }
  }

  lemma SameRankSameScope(s: Symbol, m: Symbol)
    ensures ScopeRank(s.scope) == ScopeRank(m.scope) ==> s.scope == m.scope
  {
  }

  /** A declaration that is taken could give the place. */
  lemma StartsGiving(init: seq<Symbol>, d: Symbol, m: Symbol, s: Symbol)
    requires Sums(m, init) && HasPlace(s)
    requires Placed(init) ==> CanGivePlace(init, d) && m.source == d.source && Better(s, m)
    ensures CanGivePlace(init + [s], s)
  {
    hide SourceBefore, HasPlace;
    var ds := init + [s];
    assert s in ds && forall e :: e in init ==> e in ds;
    var top :| IsTop(init, top) && top.scope == m.scope;
    assert Backed(ds, s) by {
      if ScopeRank(s.scope) >= ScopeRank(top.scope) {
        assert IsTop(ds, s) && Backs(ds, s, s);
      } else {
        assert IsTop(ds, top);
        if Placed(init) {
          var x :| IsTop(init, x) && Backs(init, d, x);
          assert s.defined && !m.defined;
          assert IsTop(ds, x) && !x.defined;
          assert Backs(ds, s, x);
        } else {
          assert Backs(ds, s, top);
        }
      }
    }
    assert Defended(ds, s) by {
      if !s.defined && Defining(ds) {
        var u :| u in ds && u.defined;
        assert u in init;
        assert !HasPlace(u);
      }
    }
    BeforeTrans(s.source, s.source, s.source);
    if Challenged(ds, s) {
      var e :| IsTop(ds, e) && HasPlace(e) && e.defined == Defining(ds) && SourceBefore(e.source, s.source);
      NoEarlier(init, d, m, s, e);
    }
  }

  lemma NoEarlier(init: seq<Symbol>, d: Symbol, m: Symbol, s: Symbol, e: Symbol)
    requires Sums(m, init) && HasPlace(s)
    requires Placed(init) ==> CanGivePlace(init, d) && m.source == d.source && Better(s, m)
    requires IsTop(init + [s], e) && HasPlace(e) && e.defined == Defining(init + [s])
    ensures !SourceBefore(e.source, s.source)
  {
    hide SourceBefore, HasPlace;
    var ds := init + [s];
    assert s in ds && forall e :: e in init ==> e in ds;
    BeforeTrans(s.source, s.source, s.source);
    if e in init {
      var top :| IsTop(init, top) && top.scope == m.scope;
      assert IsTop(init, e) && Placed(init);
      if s.defined == m.defined {
        assert e.defined == Defining(init);
        assert !SourceBefore(e.source, d.source);
        BeforeTrans(e.source, s.source, d.source);
        assert ScopeRank(e.scope) == ScopeRank(m.scope) >= ScopeRank(s.scope);
      }
    } else {
      assert e == s;
    }
  }

  lemma {:induction false} GiverCan(ds: seq<Symbol>) returns (d: Symbol)
    requires ds != []
    ensures CanGivePlace(ds, d) && d.source == MergeInto(ds).source
  {
    hide SourceBefore, HasPlace, MergeSymbol, CanGivePlace, Better, Sums;
    if |ds| == 1 {
      d := ds[0];
      OneCan(d);
      assert ds == [d];
    } else {
      var init, s := ds[..|ds| - 1], ds[|ds| - 1];
      assert ds == init + [s];
      d := GiverCan(init);
      var m := MergeInto(init);
      MergedSums(init);
      PlaceNext(m, s);
      if HasPlace(s) && (!HasPlace(m) || Better(s, m)) {
        StartsGiving(init, d, m, s);
        d := s;
      } else if Placed(init) {
        KeepsGiving(init, d, m, s);
      } else {
        PlacelessCan(init, d, s);
      }
    }
  }

  lemma OneCan(d: Symbol)
    ensures CanGivePlace([d], d)
  {
    hide SourceBefore, HasPlace;
    BeforeTrans(d.source, d.source, d.source);
    assert IsTop([d], d);
    assert Backs([d], d, d);
    assert forall e :: e in [d] ==> e == d;
  }

  lemma PlacelessCan(init: seq<Symbol>, d: Symbol, s: Symbol)
    requires !Placed(init) && !HasPlace(s) && CanGivePlace(init, d)
    ensures CanGivePlace(init + [s], d)
  {
    hide SourceBefore, HasPlace;
  }

  // ---- and whatever could give it does so in some order

  /** Declarations without a place come first, then mere declarations, then definitions. */
  function Turn(s: Symbol): nat {
    if !HasPlace(s) then 0 else if !s.defined then 1 else 2
  }

  function WithTurn(ds: seq<Symbol>, turn: nat): seq<Symbol> {
    if ds == [] then []
    else WithTurn(ds[..|ds| - 1], turn) + if Turn(ds[|ds| - 1]) == turn then [ds[|ds| - 1]] else []
  }

  lemma {:induction false} WithTurnMembers(ds: seq<Symbol>, turn: nat)
    ensures forall x :: x in WithTurn(ds, turn) <==> x in ds && Turn(x) == turn
  {
    hide Turn;
    if ds != [] {
      WithTurnMembers(ds[..|ds| - 1], turn);
      assert ds == ds[..|ds| - 1] + [ds[|ds| - 1]];
    }
  }

  lemma {:induction false} TurnsAreAll(ds: seq<Symbol>)
    ensures multiset(WithTurn(ds, 0)) + multiset(WithTurn(ds, 1)) + multiset(WithTurn(ds, 2)) == multiset(ds)
  {
    if ds == [] {
    } else {
      TurnsAreAll(ds[..|ds| - 1]);
      TurnsAreAllNext(ds[..|ds| - 1], ds[|ds| - 1]);
      assert ds == ds[..|ds| - 1] + [ds[|ds| - 1]];
    }
  }

  lemma TurnsAreAllNext(init: seq<Symbol>, last: Symbol)
    requires multiset(WithTurn(init, 0)) + multiset(WithTurn(init, 1)) + multiset(WithTurn(init, 2)) == multiset(init)
    ensures var ds := init + [last];
            multiset(WithTurn(ds, 0)) + multiset(WithTurn(ds, 1)) + multiset(WithTurn(ds, 2)) == multiset(ds)
  {
    hide Turn, WithTurn;
    TurnNext(init, last, 0);
    TurnNext(init, last, 1);
    TurnNext(init, last, 2);
    TurnBound(last);
  }

  lemma TurnNext(init: seq<Symbol>, last: Symbol, turn: nat)
    ensures multiset(WithTurn(init + [last], turn)) ==
      multiset(WithTurn(init, turn)) + if Turn(last) == turn then multiset{last} else multiset{}
  {
    hide Turn;
    assert (init + [last])[..|init|] == init;
  }

  lemma TurnBound(s: Symbol)
    ensures Turn(s) == 0 || Turn(s) == 1 || Turn(s) == 2
  {
  }

  lemma {:induction false} FirstPlacelessStays(ds: seq<Symbol>)
    requires ds != [] && !Placed(ds)
    ensures MergeInto(ds).source == ds[0].source
  {
    hide HasPlace, Better, MergeSymbol;
    if |ds| > 1 {
      var init, s := ds[..|ds| - 1], ds[|ds| - 1];
      assert s in ds && !Placed(init);
      FirstPlacelessStays(init);
      PlaceNext(MergeInto(init), s);
    }
  }

  /** d has its turn at k, after the declarations without a place. */
  ghost predicate InTurn(cs: seq<Symbol>, k: nat, d: Symbol) {
    && k < |cs| && cs[k] == d
    && (forall i :: 0 <= i < k ==> !HasPlace(cs[i]))
    && (forall i :: k < i < |cs| ==> HasPlace(cs[i]))
    && (forall i, j :: k < i < j < |cs| && cs[i].defined ==> cs[j].defined)
  }

  /** By the turn of a declaration behind d, those without a place have had theirs, and before a
      definition also all mere declarations. */
  lemma HadTurn(cs: seq<Symbol>, k: nat, d: Symbol, n: nat, x: Symbol)
    requires InTurn(cs, k, d) && k < n < |cs| && x in cs
    requires x == d || !HasPlace(x) || (cs[n].defined && !x.defined)
    ensures x in cs[..n]
  {
    hide HasPlace;
    var i :| 0 <= i < |cs| && cs[i] == x;
    var j := if x == d then k else i;
    assert cs[j] == x && j < n;
    assert cs[..n][j] == x;
  }

  lemma SummedScope(m: Symbol, p: seq<Symbol>, x: Symbol)
    requires Sums(m, p) && x in p
    ensures ScopeRank(x.scope) <= ScopeRank(m.scope) && (x.defined ==> m.defined)
  {
  }

  /** The declarations that defend and back d have had their turn before one that could be better. */
  lemma NotBetter(ds: seq<Symbol>, d: Symbol, cs: seq<Symbol>, k: nat, n: nat, m: Symbol)
    requires CanGivePlace(ds, d) && Placed(ds) && InTurn(cs, k, d) && (forall x :: x in cs <==> x in ds)
    requires k < n < |cs| && Sums(m, cs[..n]) && m.source == d.source
    ensures !Better(cs[n], m)
  {
    hide SourceBefore, HasPlace, InTurn, Sums;
    var p, s := cs[..n], cs[n];
    assert s in cs;
    assert s.defined ==> Defining(ds);
    if Defining(ds) {
      var u :| u in ds && (u == d || !HasPlace(u)) && u.defined;
      HadTurn(cs, k, d, n, u);
      SummedScope(m, p, u);
    }
    if s.defined == m.defined {
      var x :| IsTop(ds, x) && Backs(ds, d, x);
      HadTurn(cs, k, d, n, x);
      SummedScope(m, p, x);
      PlaceBehind(cs, k, d, n);
      assert ScopeRank(s.scope) <= ScopeRank(x.scope);
      if s.scope == m.scope {
        assert IsTop(ds, s);
        SumsDefined(m, p, ds, cs, n);
        assert !SourceBefore(s.source, d.source);
      }
    }
  }

  lemma PlaceBehind(cs: seq<Symbol>, k: nat, d: Symbol, n: nat)
    requires InTurn(cs, k, d) && k < n < |cs|
    ensures HasPlace(cs[n])
  {
  }

  lemma SumsDefined(m: Symbol, p: seq<Symbol>, ds: seq<Symbol>, cs: seq<Symbol>, n: nat)
    requires n < |cs| && p == cs[..n] && Sums(m, p) && (forall x :: x in cs <==> x in ds)
    ensures m.defined ==> Defining(ds)
  {
    hide IsTop;
    if m.defined {
      var x :| x in p && x.defined;
      var i :| 0 <= i < |p| && p[i] == x;
      assert cs[i] == x && x in cs;
    }
  }

  lemma {:induction false} GivesInTurn(ds: seq<Symbol>, d: Symbol, cs: seq<Symbol>, k: nat, n: nat)
    requires CanGivePlace(ds, d) && Placed(ds) && InTurn(cs, k, d) && (forall x :: x in cs <==> x in ds)
    requires k < n <= |cs|
    ensures MergeInto(cs[..n]).source == d.source
  {
    hide SourceBefore, HasPlace, MergeSymbol, Better, Sums;
    var p, s := cs[..n - 1], cs[n - 1];
    assert cs[..n][..n - 1] == p && cs[..n] == p + [s];
    if p != [] {
      var m := MergeInto(p);
      MergedSums(p);
      PlaceNext(m, s);
      if n == k + 1 {
        assert !Placed(p);
      } else {
        GivesInTurn(ds, d, cs, k, n - 1);
        NotBetter(ds, d, cs, k, n - 1, m);
        assert p[k] == d && d in p && HasPlace(d);
      }
    }
  }

  lemma TurnsInTurn(rest: seq<Symbol>, d: Symbol)
    ensures InTurn(WithTurn(rest, 0) + [d] + WithTurn(rest, 1) + WithTurn(rest, 2), |WithTurn(rest, 0)|, d)
  {
    hide HasPlace;
    var a, b, c := WithTurn(rest, 0), WithTurn(rest, 1), WithTurn(rest, 2);
    WithTurnMembers(rest, 0);
    WithTurnMembers(rest, 1);
    WithTurnMembers(rest, 2);
    var cs, k := a + [d] + b + c, |a|;
    forall i | 0 <= i < k ensures !HasPlace(cs[i]) { assert cs[i] == a[i]; assert a[i] in a; }
    forall i | k < i < |cs| ensures HasPlace(cs[i]) && (cs[i].defined <==> i > k + |b|) {
      if i <= k + |b| {
        assert cs[i] == b[i - k - 1];
        assert b[i - k - 1] in b;
      } else {
        assert cs[i] == c[i - k - 1 - |b|];
        assert c[i - k - 1 - |b|] in c;
      }
    }
  }

  lemma GivesInSomeOrder(ds: seq<Symbol>, d: Symbol) returns (cs: seq<Symbol>)
    requires CanGivePlace(ds, d)
    ensures multiset(cs) == multiset(ds) && cs != [] && MergeInto(cs).source == d.source
  {
    hide SourceBefore, HasPlace, MergeSymbol, WithTurn, InTurn, MergeInto, CanGivePlace, Placed;
    assert d in ds by { MemberCan(ds, d); }
    var i :| 0 <= i < |ds| && ds[i] == d;
    var rest := ds[..i] + ds[i + 1..];
    Without(ds, i);
    if Placed(ds) {
      cs := WithTurn(rest, 0) + [d] + WithTurn(rest, 1) + WithTurn(rest, 2);
      TurnsAreAll(rest);
      TurnsInTurn(rest, d);
      SameMultisetSameMembers(cs, ds);
      GivesInTurn(ds, d, cs, |WithTurn(rest, 0)|, |cs|);
      assert cs[..|cs|] == cs;
    } else {
      cs := [d] + rest;
      SameMultisetSameMembers(cs, ds);
      PlacedByMembers(ds, cs);
      FirstPlacelessStays(cs);
    }
  }

  lemma MemberCan(ds: seq<Symbol>, d: Symbol)
    requires CanGivePlace(ds, d)
    ensures d in ds
  {
  }

  lemma Without(ds: seq<Symbol>, i: nat)
    requires i < |ds|
    ensures multiset(ds[..i] + ds[i + 1..]) + multiset{ds[i]} == multiset(ds)
  {
    assert ds == ds[..i] + [ds[i]] + ds[i + 1..];
  }

  lemma PlacedByMembers(ds: seq<Symbol>, cs: seq<Symbol>)
    requires forall x :: x in cs <==> x in ds
    ensures Placed(cs) <==> Placed(ds)
  {
    hide HasPlace;
  }

  // ---- the possible places, and when there is only one

  lemma CanGiveByMembers(ds: seq<Symbol>, cs: seq<Symbol>, d: Symbol)
    requires forall x :: x in cs <==> x in ds
    ensures CanGivePlace(cs, d) <==> CanGivePlace(ds, d)
  {
    hide SourceBefore, HasPlace;
    assert Defining(ds) == Defining(cs) && Placed(ds) == Placed(cs);
    assert forall x :: IsTop(ds, x) <==> IsTop(cs, x);
  }

  ghost predicate PlaceInSomeOrder(ds: seq<Symbol>, source: SymbolSource) {
    exists cs :: cs != [] && multiset(cs) == multiset(ds) && MergeInto(cs).source == source
  }

  /** The places that the merge orders of given declarations lead to are those of the declarations
      that can give the place. */
  lemma PossiblePlaces(ds: seq<Symbol>, source: SymbolSource)
    ensures PlaceInSomeOrder(ds, source) <==> exists d :: CanGivePlace(ds, d) && d.source == source
  {
    hide CanGivePlace, MergeInto;
    if cs :| cs != [] && multiset(cs) == multiset(ds) && MergeInto(cs).source == source {
      var d := GiverCan(cs);
      SameMultisetSameMembers(cs, ds);
      CanGiveByMembers(ds, cs, d);
    }
    if d :| CanGivePlace(ds, d) && d.source == source {
      var cs := GivesInSomeOrder(ds, d);
    }
  }

  ghost predicate OnePlace(ds: seq<Symbol>) {
    forall d, e :: CanGivePlace(ds, d) && CanGivePlace(ds, e) ==> d.source == e.source
  }

  ghost predicate SamePlaceInEveryOrder(ds: seq<Symbol>) {
    forall cs, bs :: cs != [] && bs != [] && multiset(cs) == multiset(ds) && multiset(bs) == multiset(ds) ==>
      MergeInto(cs).source == MergeInto(bs).source
  }

  /** The merged place is the same in every order exactly when all declarations that can give it
      have the same place. */
  lemma PlaceOrderIff(ds: seq<Symbol>)
    ensures SamePlaceInEveryOrder(ds) <==> OnePlace(ds)
  {
    hide CanGivePlace, MergeInto;
    if SamePlaceInEveryOrder(ds) {
      forall d, e | CanGivePlace(ds, d) && CanGivePlace(ds, e) ensures d.source == e.source {
        var cs := GivesInSomeOrder(ds, d);
        var bs := GivesInSomeOrder(ds, e);
      }
    }
    if OnePlace(ds) {
      forall cs, bs | cs != [] && bs != [] && multiset(cs) == multiset(ds) && multiset(bs) == multiset(ds)
        ensures MergeInto(cs).source == MergeInto(bs).source
      {
        SamePlaceForMembers(ds, cs, bs);
      }
    }
  }

  lemma SamePlaceForMembers(ds: seq<Symbol>, cs: seq<Symbol>, bs: seq<Symbol>)
    requires OnePlace(ds) && cs != [] && bs != [] && multiset(cs) == multiset(ds) && multiset(bs) == multiset(ds)
    ensures MergeInto(cs).source == MergeInto(bs).source
  {
    hide CanGivePlace, MergeInto;
    var d := GiverCan(cs);
    var e := GiverCan(bs);
    SameMultisetSameMembers(cs, ds);
    SameMultisetSameMembers(bs, ds);
    CanGiveByMembers(ds, cs, d);
    CanGiveByMembers(ds, bs, e);
  }

  /** Among declarations that all have a place: a definition, if there is one, that is of the
      strongest scope or has a mere declaration of the strongest scope beside it, and that no
      definition of the strongest scope comes before. Without definitions: a declaration of the
      strongest scope that none of the same scope comes before. */
  lemma CanGiveAmongPlaced(ds: seq<Symbol>, d: Symbol)
    requires d in ds && forall e :: e in ds ==> HasPlace(e)
    ensures CanGivePlace(ds, d) <==>
      && d.defined == Defining(ds)
      && (IsTop(ds, d) || exists x :: IsTop(ds, x) && x.defined != d.defined)
      && !exists e :: IsTop(ds, e) && e.defined == d.defined && SourceBefore(e.source, d.source)
  {
    hide SourceBefore, HasPlace;
    assert Placed(ds);
    assert d.defined ==> Defining(ds);
    assert forall x :: x in ds && x.defined ==> Defining(ds);
    if IsTop(ds, d) { assert Backs(ds, d, d); }
  }

  ghost predicate Peers(ds: seq<Symbol>) {
    forall d, e :: d in ds && e in ds ==> d.defined == e.defined && d.scope == e.scope
  }

  /** No two of the places are alike in file, line, column and offset. */
  ghost predicate Untied(ds: seq<Symbol>) {
    forall d, e :: d in ds && e in ds && HasPlace(d) && HasPlace(e) && d.source != e.source ==>
      SourceBefore(d.source, e.source) || SourceBefore(e.source, d.source)
  }

  /** In particular, the place does not depend on the order in which peers are merged, declarations
      alike in definedness and scope. */
  lemma PlaceOrderIrrelevant(xs: seq<Symbol>, ys: seq<Symbol>)
    requires xs != [] && ys != [] && Peers(xs) && Untied(xs) && forall d :: d in xs <==> d in ys
    requires exists d :: d in xs && HasPlace(d)
    ensures MergeInto(xs).source == MergeInto(ys).source
  {
    hide SourceBefore, HasPlace, MergeInto;
    var d := GiverCan(xs);
    var e := GiverCan(ys);
    CanGiveByMembers(xs, ys, e);
    assert IsTop(xs, d) && IsTop(xs, e) && d.defined == e.defined == Defining(xs);
    assert !SourceBefore(e.source, d.source) && !SourceBefore(d.source, e.source);
  }

  // ---- when the declarations are not peers

  function DeclaredAt(file: string, defined: bool, scope: SymbolScope): Symbol {
    var point := SourcePoint(file, 1, 1, 0, 1);
    var extent := SourceExtent(point, point, point);
    Symbol("k", Identity("c", "", "l", "", "", Stable), "f", "f", "", "", SymbolSource(extent, None),
           Function, scope, defined, false, false)
  }

  /** With a mere declaration of stronger scope between definitions, the order shows: the scope it
      lends to the first definition keeps the second, whose own scope is stronger, from
      replacing it. */
  lemma PlaceCanDependOnOrder()
    ensures var d, e, f := DeclaredAt("x", false, Reportable), DeclaredAt("y", true, Indexed), DeclaredAt("z", true, Reportable);
            && Compatible(d, e) && Compatible(d, f) && Compatible(e, f)
            && MergeInto([d, e, f]).source == e.source && MergeInto([e, f, d]).source == f.source && e.source != f.source
  {
    var d, e, f := DeclaredAt("x", false, Reportable), DeclaredAt("y", true, Indexed), DeclaredAt("z", true, Reportable);
    assert [d, e, f][..2] == [d, e] && [d, e][..1] == [d];
    assert [e, f, d][..2] == [e, f] && [e, f][..1] == [e];
    assert StringLess("y", "z") && !StringLess("z", "y");
    assert MergeInto([d, e]) == MergeSymbol(d, e) && MergeInto([e, f]) == MergeSymbol(e, f);
  }
}
