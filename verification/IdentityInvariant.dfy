/** Keys stay derived from identities through every addition and merge. */
module IdentityInvariant {
  import opened Wrappers
  import opened Symbols
  import opened Identities
  import opened Facts
  import opened Merging
  import opened Canonical

  /** What WellIdentified says, field by field. */
  lemma WellIdentifiedFields(s: Symbol)
    ensures WellIdentified(s) <==>
      && s.identity.configuration != []
      && (s.identity.quality == Stable <==> s.identity.linkageName != [] || s.identity.usr != [])
      && (s.identity.quality == Fallback ==> s.identity.fallbackAnchor != [])
      && s.key == StableKey(s.identity)
  {
    hide StableKey;
  }

  /** Two declarations with one key merge into a symbol whose key is still the one its merged
      identity determines. The anchor cannot move: equal keys mean equal anchors. */
  lemma MergeKeepsIdentity(t: Symbol, s: Symbol)
    requires WellIdentified(t) && WellIdentified(s) && t.key == s.key && Compatible(t, s)
    ensures WellIdentified(MergeSymbol(t, s)) && AnchorOf(MergeSymbol(t, s).identity) == AnchorOf(t.identity)
  {
    hide StableKey, SourceBefore, PrimaryExtent, WellIdentified;
    WellIdentifiedFields(t);
    WellIdentifiedFields(s);
    KeyInjective(t.identity, s.identity);
    var m := MergeSymbol(t, s);
    KeyDependsOnAnchor(m.identity, t.identity);
    WellIdentifiedFields(m);
  }

  ghost predicate AllIdentified(v: View) {
    forall k :: k in v.symbols ==> v.symbols[k].key == k && WellIdentified(v.symbols[k])
  }

  /** No sequence of additions breaks the link between keys and identities. */
  lemma AddKeepsIdentities(c: Contents, s: Symbol)
    requires Valid(c) && AllIdentified(ViewOf(c)) && WellIdentified(s)
    ensures AddSymbol(c, s).Ok? ==> AllIdentified(ViewOf(AddSymbol(c, s).value.0))
  {
    hide WellIdentified, Conflict, MergeSymbol, StableKey, KeyedFacts, Valid, SymbolMap, Find;
    if AddSymbol(c, s).Ok? {
      AddSymbolView(c, s);
      if s.key in ViewOf(c).symbols { MergeKeepsIdentity(ViewOf(c).symbols[s.key], s); MergedKey(ViewOf(c).symbols[s.key], s); }
    }
  }

  lemma MergedKey(t: Symbol, s: Symbol)
    ensures MergeSymbol(t, s).key == t.key
  {
  }

  lemma MergeKeepsIdentities(d: Contents, s: Contents)
    requires Valid(d) && Valid(s) && AllIdentified(ViewOf(d)) && AllIdentified(ViewOf(s)) && Merge(d, s).Ok?
    ensures AllIdentified(ViewOf(Merge(d, s).value))
  {
    hide WellIdentified, Conflict, MergeSymbol, StableKey, Valid, ViewOf, Merge;
    MergeRefinesView(d, s);
    var v, w := ViewOf(d).symbols, ViewOf(s).symbols;
    forall k | k in v && k in w ensures WellIdentified(MergeSymbol(v[k], w[k])) && MergeSymbol(v[k], w[k]).key == k {
      MergeKeepsIdentity(v[k], w[k]);
      MergedKey(v[k], w[k]);
    }
  }
}
