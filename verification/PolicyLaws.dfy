/** When provider policies are accepted and what they add, field by field. */
module PolicyLaws {
  import opened Wrappers
  import opened Symbols
  import opened Facts
  import opened Canonical
  import opened Providers
  import opened KeyedProviders

  /** Each field of the selector is empty or that of the symbol. */
  predicate Fits(s: Symbol, sel: Selector) {
    && (sel.id == [] || sel.id == s.key)
    && (sel.linkageName == [] || sel.linkageName == s.identity.linkageName)
    && (sel.qualifiedName == [] || sel.qualifiedName == s.qualifiedName)
    && (sel.signature == [] || sel.signature == s.signature)
  }

  /** The selector fits this symbol and no other. */
  ghost predicate Picks(m: map<string, Symbol>, sel: Selector, key: string) {
    key in m && Fits(m[key], sel) && forall other :: other in m && Fits(m[other], sel) ==> other == key
  }

  ghost predicate PicksOne(m: map<string, Symbol>, sel: Selector) {
    exists key :: Picks(m, sel, key)
  }

  lemma ResolveKeyMeans(m: map<string, Symbol>, sel: Selector)
    ensures ResolveKey(m, sel).Some? <==> PicksOne(m, sel)
    ensures forall key :: Picks(m, sel, key) ==> ResolveKey(m, sel) == Some(key)
    ensures ResolveKey(m, sel).Some? ==> Picks(m, sel, ResolveKey(m, sel).value)
  {
    forall s ensures Matches(s, sel) <==> Fits(s, sel) {}
    forall key ensures IsUniqueKey(m, sel, key) <==> Picks(m, sel, key) {}
  }

  /** Every selector of the entry picks one symbol; a callback rule asks for that only if it must be
      unique. */
  ghost predicate PicksAll(m: map<string, Symbol>, q: Request) {
    match q
    case Callback(callee, unique) => unique ==> PicksOne(m, callee)
    case WantRoot(target, _) => PicksOne(m, target)
    case WantPublicApi(target, _) => PicksOne(m, target)
    case WantEdge(source, target, _) => PicksOne(m, source) && PicksOne(m, target)
    case WantEscape(target, origin, _) => PicksOne(m, target) && (origin.Some? ==> PicksOne(m, origin.value))
    case WantSuppression(target, _) => PicksOne(m, target)
  }

  /** The fact that the entry asks for. */
  ghost predicate AsksFor(m: map<string, Symbol>, q: Request, x: Fact<string>) {
    match q
    case Callback(_, _) => false
    case WantRoot(target, e) => x.Root? && x.rootKind == ProviderRoot && x.evidence == e && Picks(m, target, x.symbol)
    case WantPublicApi(target, e) => x.Root? && x.rootKind == PublicApi && x.evidence == e && Picks(m, target, x.symbol)
    case WantEdge(source, target, e) =>
      x.Edge? && x.edgeKind == ProviderEdge && x.evidence == e && Picks(m, source, x.from) && Picks(m, target, x.to)
    case WantEscape(target, origin, e) =>
      && x.Escape? && x.escapeKind == ProviderEscape && x.evidence == e && Picks(m, target, x.symbol)
      && (if origin.Some? then x.origin.Some? && Picks(m, origin.value, x.origin.value) else x.origin.None?)
    case WantSuppression(target, e) => x.Suppression? && x.evidence == e && Picks(m, target, x.symbol)
  }

  /** An entry of one of the six lists of a policy. */
  predicate Entered(policies: seq<Policy>, q: Request) {
    exists p :: p in policies &&
      (q in p.callbacks || q in p.roots || q in p.publicApi || q in p.edges || q in p.escapes || q in p.suppressions)
  }

  lemma EntryMeans(m: map<string, Symbol>, q: Request, x: Fact<string>)
    ensures ResolvableKeys(m, q) <==> PicksAll(m, q)
    ensures PicksAll(m, q) ==> (KeyedFactOf(m, q) == Some(x) <==> AsksFor(m, q, x))
  {
    hide ResolveKey, Picks, PicksOne;
    forall sel ensures (ResolveKey(m, sel).Some? <==> PicksOne(m, sel))
      && (ResolveKey(m, sel).Some? ==> Picks(m, sel, ResolveKey(m, sel).value))
    {
      ResolveKeyMeans(m, sel);
    }
    forall sel, key | Picks(m, sel, key) ensures ResolveKey(m, sel) == Some(key) { ResolveKeyMeans(m, sel); }
    ResolvableMeans(m, q);
  }

  lemma ResolvableMeans(m: map<string, Symbol>, q: Request)
    requires forall sel :: ResolveKey(m, sel).Some? <==> PicksOne(m, sel)
    ensures ResolvableKeys(m, q) <==> PicksAll(m, q)
  {
    hide ResolveKey, PicksOne;
    var needs := Needs(q);
    assert |needs| > 0 ==> (forall i :: 0 <= i < |needs| ==> PicksOne(m, needs[i])) ==> PicksOne(m, needs[0]);
    assert |needs| > 1 ==> (forall i :: 0 <= i < |needs| ==> PicksOne(m, needs[i])) ==> PicksOne(m, needs[1]);
  }

  lemma EnteredIff(policies: seq<Policy>, q: Request)
    ensures q in AllRequests(policies) <==> Entered(policies, q)
  {
    AllRequestsMembers(policies);
  }

  ghost predicate AllPick(m: map<string, Symbol>, policies: seq<Policy>) {
    forall q :: Entered(policies, q) ==> PicksAll(m, q)
  }

  ghost predicate Asked(m: map<string, Symbol>, policies: seq<Policy>, x: Fact<string>) {
    exists q :: Entered(policies, q) && AsksFor(m, q, x)
  }

  /** Policies are accepted exactly when every entry of every list picks its symbols, and they add
      exactly the facts that their entries ask for. */
  lemma PoliciesMean(v: View, policies: seq<Policy>)
    ensures ApplyToView(v, policies).Some? <==> AllPick(v.symbols, policies)
    ensures ApplyToView(v, policies).Some? ==>
      && ApplyToView(v, policies).value.symbols == v.symbols
      && forall x :: x in ApplyToView(v, policies).value.facts <==> x in v.facts || Asked(v.symbols, policies, x)
  {
    hide ResolvableKeys, KeyedFactOf, PicksAll, AsksFor, Entered, AllRequests;
    forall q ensures q in AllRequests(policies) <==> Entered(policies, q) { EnteredIff(policies, q); }
    forall q, x ensures (ResolvableKeys(v.symbols, q) <==> PicksAll(v.symbols, q))
      && (PicksAll(v.symbols, q) ==> (KeyedFactOf(v.symbols, q) == Some(x) <==> AsksFor(v.symbols, q, x)))
    {
      EntryMeans(v.symbols, q, x);
    }
    if AllPick(v.symbols, policies) {
      forall q | q in AllRequests(policies) ensures ResolvableKeys(v.symbols, q) { EntryMeans(v.symbols, q, Suppression("", Evidence("", ""))); }
    }
    if ApplyToView(v, policies).Some? {
      forall q | Entered(policies, q) ensures PicksAll(v.symbols, q) {
        assert q in AllRequests(policies);
        EntryMeans(v.symbols, q, Suppression("", Evidence("", "")));
      }
      forall x ensures x in ApplyToView(v, policies).value.facts <==> x in v.facts || Asked(v.symbols, policies, x) {
        if q :| Entered(policies, q) && AsksFor(v.symbols, q, x) {
          assert q in AllRequests(policies) && KeyedFactOf(v.symbols, q) == Some(x);
        }
        if x in ApplyToView(v, policies).value.facts && x !in v.facts {
          var q :| q in AllRequests(policies) && KeyedFactOf(v.symbols, q).Some? && x == KeyedFactOf(v.symbols, q).value;
          assert AsksFor(v.symbols, q, x);
        }
      }
    }
  }
}
