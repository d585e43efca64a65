/** Provider policies on views: what they add depends only on the symbols and their keys. */
module KeyedProviders {
  import opened Wrappers
  import opened Symbols
  import opened Facts
  import opened Canonical
  import opened Providers

  ghost predicate IsUniqueKey(m: map<string, Symbol>, sel: Selector, key: string) {
    && key in m && Matches(m[key], sel)
    && forall k :: k in m && Matches(m[k], sel) ==> k == key
  }

  ghost function ResolveKey(m: map<string, Symbol>, sel: Selector): Option<string> {
    if exists key :: IsUniqueKey(m, sel, key) then
      var key :| IsUniqueKey(m, sel, key);
      Some(key)
    else None
  }

  ghost predicate ResolvableKeys(m: map<string, Symbol>, q: Request) {
    forall i :: 0 <= i < |Needs(q)| ==> ResolveKey(m, Needs(q)[i]).Some?
  }

  ghost function KeyOrEmpty(m: map<string, Symbol>, sel: Selector): string {
    match ResolveKey(m, sel) case Some(key) => key case None => ""
  }

  ghost function KeyedFactOf(m: map<string, Symbol>, q: Request): Option<Fact<string>> {
    match q
    case Callback(_, _) => None
    case WantRoot(target, e) => Some(Root(KeyOrEmpty(m, target), ProviderRoot, e))
    case WantPublicApi(target, e) => Some(Root(KeyOrEmpty(m, target), PublicApi, e))
    case WantEdge(source, target, e) => Some(Edge(KeyOrEmpty(m, source), KeyOrEmpty(m, target), ProviderEdge, e))
    case WantEscape(target, origin, e) =>
      Some(Escape(KeyOrEmpty(m, target), if origin.Some? then Some(KeyOrEmpty(m, origin.value)) else None, ProviderEscape, e))
    case WantSuppression(target, e) => Some(Suppression(KeyOrEmpty(m, target), e))
  }

  /** The view after the policies, if every selector picks one symbol. */
  ghost function ApplyToView(v: View, policies: seq<Policy>): Option<View> {
    var qs := AllRequests(policies);
    if forall q :: q in qs ==> ResolvableKeys(v.symbols, q) then
      Some(View(v.symbols, v.facts + set q | q in qs && KeyedFactOf(v.symbols, q).Some? :: KeyedFactOf(v.symbols, q).value))
    else None
  }

  lemma ResolveByKey(c: Contents, sel: Selector)
    requires Valid(c)
    ensures Resolve(c.symbols, sel).Some? <==> ResolveKey(SymbolMap(c.symbols), sel).Some?
    ensures Resolve(c.symbols, sel).Some? ==>
      ResolveKey(SymbolMap(c.symbols), sel) == Some(KeyAt(c.symbols, Resolve(c.symbols, sel).value))
  {
    hide Matches, Resolve;
    var symbols, m := c.symbols, SymbolMap(c.symbols);
    SymbolMapSpec(symbols);
    if Resolve(symbols, sel).Some? {
      var i := Resolve(symbols, sel).value;
      forall k | k in m && Matches(m[k], sel) ensures k == symbols[i].key {
        var j: nat :| j < |symbols| && symbols[j] == m[k];
      }
      assert IsUniqueKey(m, sel, symbols[i].key);
    }
    if ResolveKey(m, sel).Some? {
      var key :| IsUniqueKey(m, sel, key);
      var i: nat :| i < |symbols| && symbols[i] == m[key];
      forall j: nat | j < |symbols| && Matches(symbols[j], sel) ensures j == i {
        assert m[symbols[j].key] == symbols[j];
        FindUnique(symbols, i);
        FindUnique(symbols, j);
      }
      assert IsUnique(symbols, sel, i);
    }
  }

  lemma RequestByKey(c: Contents, q: Request)
    requires Valid(c)
    ensures Resolvable(c.symbols, q) <==> ResolvableKeys(SymbolMap(c.symbols), q)
    ensures Resolvable(c.symbols, q) ==>
      && (FactOf(c.symbols, q).Some? <==> KeyedFactOf(SymbolMap(c.symbols), q).Some?)
      && (FactOf(c.symbols, q).Some? ==>
            Keyed(c.symbols, FactOf(c.symbols, q).value) == KeyedFactOf(SymbolMap(c.symbols), q).value)
  {
    hide Resolve, ResolveKey, IsUnique, Valid, SymbolMap;
    var needs := Needs(q);
    forall sel
      ensures Resolve(c.symbols, sel).Some? <==> ResolveKey(SymbolMap(c.symbols), sel).Some?
      ensures Resolve(c.symbols, sel).Some? ==>
        ResolveKey(SymbolMap(c.symbols), sel) == Some(KeyAt(c.symbols, Resolve(c.symbols, sel).value))
    {
      ResolveByKey(c, sel);
    }
    if Resolvable(c.symbols, q) {
      match q
      case WantEdge(source, target, _) => assert needs[0] == source && needs[1] == target;
      case WantEscape(target, origin, _) =>
        if origin.Some? {
          assert needs[0] == origin.value && needs[1] == target;
        } else {
          assert needs[0] == target;
        }
      case Callback(_, _) =>
      case _ => assert needs[0] == q.target;
    }
  }

  /** Policies act on the view alone: whether they are accepted, and the view they give. */
  lemma PoliciesByKey(c: Contents, policies: seq<Policy>)
    requires Valid(c)
    ensures ApplyPolicies(c, policies).Some? <==> ApplyToView(ViewOf(c), policies).Some?
    ensures ApplyPolicies(c, policies).Some? ==>
      && Valid(ApplyPolicies(c, policies).value)
      && ViewOf(ApplyPolicies(c, policies).value) == ApplyToView(ViewOf(c), policies).value
  {
    hide Valid, FactOf, KeyedFactOf, Resolvable, ResolvableKeys, SymbolMap, KeyedFacts, Canonicalize, Keyed;
    var qs := AllRequests(policies);
    ApplyRequestsView(c, qs);
    forall q
      ensures Resolvable(c.symbols, q) <==> ResolvableKeys(SymbolMap(c.symbols), q)
      ensures Resolvable(c.symbols, q) ==>
        && (FactOf(c.symbols, q).Some? <==> KeyedFactOf(SymbolMap(c.symbols), q).Some?)
        && (FactOf(c.symbols, q).Some? ==>
              Keyed(c.symbols, FactOf(c.symbols, q).value) == KeyedFactOf(SymbolMap(c.symbols), q).value)
    {
      RequestByKey(c, q);
    }
    if AllResolvable(c.symbols, qs) {
      CanonicalizeKeepsView(ApplyRequests(c, qs).0);
    }
  }

  lemma PoliciesKeepSymbols(v: View, policies: seq<Policy>)
    ensures ApplyToView(v, policies).Some? ==> ApplyToView(v, policies).value.symbols == v.symbols
  {
  }
}
