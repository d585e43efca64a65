/** What the strict reader guarantees, and why equal graphs are written as equal bytes. */
module ArtifactLaws {
  import opened Wrappers
  import opened Text
  import opened Orders
  import opened Symbols
  import opened Identities
  import opened Facts
  import opened Merging
  import opened Canonical
  import opened SortKeys
  import opened Json
  import opened JsonGrammar
  import opened Artifact
  import opened ArtifactRoundTrip

  // ---- every document that is accepted

  lemma ReadSymbolIdentified(v: Value, numbers: Numbers)
    ensures ReadSymbol(v, numbers).Ok? ==> WellIdentified(ReadSymbol(v, numbers).value)
  {
    hide SymbolFields, StableKey;
  }

  lemma {:induction false} ReadSymbolsSound(items: seq<Value>, configuration: string, numbers: Numbers)
    ensures var r := ReadSymbols(items, configuration, numbers);
            r.Ok? ==>
              && Valid(r.value) && |r.value.symbols| == |items|
              && forall s :: s in r.value.symbols ==> WellIdentified(s) && s.identity.configuration == configuration
  {
    hide Valid, WellIdentified, ReadSymbol, Conflict, MergeSymbol;
    if items == [] {
      NothingIsValid();
    } else {
      ReadSymbolsSound(items[..|items| - 1], configuration, numbers);
      var c := ReadSymbols(items[..|items| - 1], configuration, numbers);
      ReadSymbolIdentified(items[|items| - 1], numbers);
      var s := ReadSymbol(items[|items| - 1], numbers);
      if c.Ok? && s.Ok? && Admissible(s.value) { AddSymbolView(c.value, s.value); }
    }
  }

  lemma NothingIsValid()
    ensures Valid(NOTHING)
  {
  }

  lemma PositionedInRange(symbols: seq<Symbol>, x: Fact<string>)
    ensures Positioned(symbols, x).Some? ==> InRange(Positioned(symbols, x).value, |symbols|)
  {
  }

  lemma {:induction false} ReadFactsSound(items: seq<Value>, kind: FactKind, c: Contents)
    requires Valid(c)
    ensures var r := ReadFacts(items, kind, c); r.Ok? ==> Valid(r.value) && r.value.symbols == c.symbols
  {
    hide Valid, ReadFact, Positioned, With;
    if items != [] {
      ReadFactsSound(items[..|items| - 1], kind, c);
      var d := ReadFacts(items[..|items| - 1], kind, c);
      var x := ReadFact(items[|items| - 1], kind);
      if d.Ok? && x.Ok? && Positioned(d.value.symbols, x.value).Some? {
        PositionedInRange(d.value.symbols, x.value);
        WithView(d.value, Positioned(d.value.symbols, x.value).value);
      }
    }
  }

  lemma {:induction false} ReadTargetsSound(items: seq<Value>)
    ensures ReadTargets(items).Ok? ==> forall t :: t in ReadTargets(items).value ==> t != []
  {
    if items != [] { ReadTargetsSound(items[..|items| - 1]); }
  }

  lemma ReadMetadataSound(d: map<string, Value>, numbers: Numbers)
    ensures ReadMetadata(d, numbers).Ok? ==> MetadataOk(ReadMetadata(d, numbers).value)
  {
    hide RequireKeys, TargetOk, ReadTargets, NullableField, StringField, FrontendNamed;
    forall items ensures ReadTargets(items).Ok? ==> forall t :: t in ReadTargets(items).value ==> t != [] {
      ReadTargetsSound(items);
    }
  }

  /** Whatever document the reader accepts, the graph is valid and in canonical form, every key is
      the one its identity determines, every symbol is of the artifact's configuration, and the
      metadata is well formed. */
  lemma AcceptedIsSound(text: string, numbers: Numbers)
    requires Read(text, numbers).Ok?
    ensures var a := Read(text, numbers).value;
            && Valid(a.graph) && IsCanonical(a.graph) && MetadataOk(a.metadata)
            && forall s :: s in a.graph.symbols ==> WellIdentified(s) && s.identity.configuration == a.metadata.configurationId
  {
    hide ParseDocument, RequireKeys, SizeField, ArrayField, ReadMetadata, ReadSymbols, ReadFacts, ReadStrings, Valid, Canonicalize;
    hide WellIdentified, MetadataOk, IsCanonical;
    var d := RequireKeys(ParseDocument(text, numbers.representable).value, DOCUMENT_KEYS).value;
    ReadMetadataSound(d, numbers);
    var m := ReadMetadata(d, numbers).value;
    var symbols := ArrayField(d, "symbols").value;
    ReadSymbolsSound(symbols, m.configurationId, numbers);
    var c0 := ReadSymbols(symbols, m.configurationId, numbers).value;
    ReadFactsSound(ArrayField(d, "edges").value, Edges, c0);
    var c1 := ReadFacts(ArrayField(d, "edges").value, Edges, c0).value;
    ReadFactsSound(ArrayField(d, "roots").value, Roots, c1);
    var c2 := ReadFacts(ArrayField(d, "roots").value, Roots, c1).value;
    ReadFactsSound(ArrayField(d, "escapes").value, Escapes, c2);
    var c3 := ReadFacts(ArrayField(d, "escapes").value, Escapes, c2).value;
    ReadFactsSound(ArrayField(d, "suppressions").value, Suppressions, c3);
    var c4 := ReadFacts(ArrayField(d, "suppressions").value, Suppressions, c3).value;
    CanonicalizeKeepsView(c4);
    CanonicalSymbols(c4);
  }

  /** An object that has these keys and no others. */
  predicate HasKeys(v: Value, keys: set<string>) {
    v.Object? && v.fields.Keys == keys
  }

  predicate ItemsHaveKeys(d: Value, name: string, keys: set<string>) {
    && d.Object? && name in d.fields && d.fields[name].Array?
    && forall i :: 0 <= i < |d.fields[name].items| ==> HasKeys(d.fields[name].items[i], keys)
  }

  predicate VersionIs(d: Value, name: string, version: nat, numbers: Numbers) {
    d.Object? && name in d.fields && d.fields[name].Number? && numbers.sizeOf(d.fields[name].token) == Some(version)
  }

  lemma {:induction false} SymbolItemsHaveKeys(items: seq<Value>, configuration: string, numbers: Numbers, i: nat)
    requires ReadSymbols(items, configuration, numbers).Ok? && i < |items|
    ensures HasKeys(items[i], {"id", "identity", "name", "qualified_name", "class_name", "signature", "kind", "scope", "defined",
                               "internal_linkage", "virtual", "source"})
  {
    hide ReadSymbol, Conflict, MergeSymbol;
    var init := items[..|items| - 1];
    if i < |init| {
      SymbolItemsHaveKeys(init, configuration, numbers, i);
    } else {
      SymbolHasKeys(items[i], numbers);
    }
  }

  lemma SymbolHasKeys(v: Value, numbers: Numbers)
    requires ReadSymbol(v, numbers).Ok?
    ensures HasKeys(v, {"id", "identity", "name", "qualified_name", "class_name", "signature", "kind", "scope", "defined",
                        "internal_linkage", "virtual", "source"})
  {
    hide RequireKeys, IdentityField, ReadSource, StableKey, NamedField, StringField, BoolField, Lookup, Supported, KindNamed, ScopeNamed;
    hide MakeIdentity, HasKeys;
    RequiredFields(v, SYMBOL_KEYS);
    SymbolKeySet();
  }

  lemma SymbolKeySet()
    ensures (set k | k in SYMBOL_KEYS) == {"id", "identity", "name", "qualified_name", "class_name", "signature", "kind", "scope",
                                           "defined", "internal_linkage", "virtual", "source"}
  {
  }

  function FactKeys(kind: FactKind): set<string> {
    match kind
    case Edges => {"from", "to", "kind", "evidence"}
    case Roots => {"symbol", "kind", "evidence"}
    case Escapes => {"symbol", "from", "kind", "evidence"}
    case Suppressions => {"symbol", "evidence"}
  }

  lemma {:induction false} FactItemsHaveKeys(items: seq<Value>, kind: FactKind, c: Contents, i: nat)
    requires ReadFacts(items, kind, c).Ok? && i < |items|
    ensures HasKeys(items[i], FactKeys(kind))
  {
    hide ReadFact, Positioned, With, FactKeys;
    var init := items[..|items| - 1];
    if i < |init| { FactItemsHaveKeys(init, kind, c, i); } else { FactHasKeys(items[i], kind); }
  }

  lemma FactHasKeys(v: Value, kind: FactKind)
    requires ReadFact(v, kind).Ok?
    ensures HasKeys(v, FactKeys(kind))
  {
    hide EvidenceField, NamedField, NullableField;
  }

  /** What is in the graph's document: exactly these parts, of these versions, and no unknown key in the
      document or in its symbols and facts. */
  ghost predicate IsCurrent(d: Value, numbers: Numbers) {
    && HasKeys(d, {"artifact_schema_version", "identity_schema_version", "configuration_id", "analysis_context", "frontend",
                   "translation_units", "symbols", "edges", "roots", "escapes", "suppressions", "diagnostics"})
    && VersionIs(d, "artifact_schema_version", 7, numbers) && VersionIs(d, "identity_schema_version", 1, numbers)
    && ItemsHaveKeys(d, "symbols", {"id", "identity", "name", "qualified_name", "class_name", "signature", "kind", "scope", "defined",
                                    "internal_linkage", "virtual", "source"})
    && ItemsHaveKeys(d, "edges", {"from", "to", "kind", "evidence"}) && ItemsHaveKeys(d, "roots", {"symbol", "kind", "evidence"})
    && ItemsHaveKeys(d, "escapes", {"symbol", "from", "kind", "evidence"})
    && ItemsHaveKeys(d, "suppressions", {"symbol", "evidence"})
  }

  lemma FieldsOfDocument(v: Value, numbers: Numbers)
    requires ReadDocument(v, numbers).Ok?
    ensures HasKeys(v, {"artifact_schema_version", "identity_schema_version", "configuration_id", "analysis_context", "frontend",
                        "translation_units", "symbols", "edges", "roots", "escapes", "suppressions", "diagnostics"})
    ensures VersionIs(v, "artifact_schema_version", 7, numbers) && VersionIs(v, "identity_schema_version", 1, numbers)
  {
    hide RequireKeys, SizeField, ArrayField, ReadMetadata, ReadSymbols, ReadFacts, ReadStrings, Canonicalize, HasKeys, VersionIs;
    RequiredFields(v, DOCUMENT_KEYS);
    DocumentKeySet();
    SizeOf(v, "artifact_schema_version", numbers);
    SizeOf(v, "identity_schema_version", numbers);
  }

  lemma DocumentKeySet()
    ensures (set k | k in DOCUMENT_KEYS) == {
      "artifact_schema_version", "identity_schema_version", "configuration_id", "analysis_context", "frontend",
      "translation_units", "symbols", "edges", "roots", "escapes", "suppressions", "diagnostics"}
  {
  }

  lemma SizeOf(v: Value, name: string, numbers: Numbers)
    requires v.Object? && SizeField(v.fields, name, numbers).Ok?
    ensures VersionIs(v, name, SizeField(v.fields, name, numbers).value, numbers)
  {
  }

  lemma ArrayOf(v: Value, name: string)
    requires v.Object? && ArrayField(v.fields, name).Ok?
    ensures name in v.fields && v.fields[name].Array? && ArrayField(v.fields, name).value == v.fields[name].items
  {
  }

  /** Every document that is accepted is of the two current versions and has no unknown key. */
  lemma AcceptedIsCurrent(text: string, numbers: Numbers)
    requires Read(text, numbers).Ok?
    ensures ParseDocument(text, numbers.representable).Ok? && IsCurrent(ParseDocument(text, numbers.representable).value, numbers)
  {
    hide ParseDocument, RequireKeys, SizeField, ArrayField, ReadMetadata, ReadSymbols, ReadFacts, ReadStrings, Canonicalize;
    hide HasKeys, VersionIs;
    var v := ParseDocument(text, numbers.representable).value;
    FieldsOfDocument(v, numbers);
    RequiredFields(v, DOCUMENT_KEYS);
    var d, m := v.fields, ReadMetadata(v.fields, numbers).value;
    ArrayOf(v, "symbols");
    var c0 := ReadSymbols(d["symbols"].items, m.configurationId, numbers).value;
    forall i | 0 <= i < |d["symbols"].items| { SymbolItemsHaveKeys(d["symbols"].items, m.configurationId, numbers, i); }
    ArrayOf(v, "edges");
    var c1 := ReadFacts(d["edges"].items, Edges, c0).value;
    forall i | 0 <= i < |d["edges"].items| { FactItemsHaveKeys(d["edges"].items, Edges, c0, i); }
    ArrayOf(v, "roots");
    var c2 := ReadFacts(d["roots"].items, Roots, c1).value;
    forall i | 0 <= i < |d["roots"].items| { FactItemsHaveKeys(d["roots"].items, Roots, c1, i); }
    ArrayOf(v, "escapes");
    var c3 := ReadFacts(d["escapes"].items, Escapes, c2).value;
    forall i | 0 <= i < |d["escapes"].items| { FactItemsHaveKeys(d["escapes"].items, Escapes, c2, i); }
    ArrayOf(v, "suppressions");
    forall i | 0 <= i < |d["suppressions"].items| { FactItemsHaveKeys(d["suppressions"].items, Suppressions, c3, i); }
  }

  lemma RequiredFields(v: Value, keys: seq<string>)
    ensures RequireKeys(v, keys).Ok? ==> v.Object? && RequireKeys(v, keys).value == v.fields && HasKeys(v, set k | k in keys)
  {
  }

  lemma CanonicalSymbols(c: Contents)
    ensures forall s :: s in Canonicalize(c).symbols <==> s in c.symbols
  {
    hide KeyLess, SortFacts;
    SortMembers(KeyLess, c.symbols);
  }

  // ---- the order of writing

  lemma WrittenOrder()
    ensures StrictWeak(WrittenBefore)
  {
    hide SortKeyLess, SortKeyOf;
    forall x, y, z
      ensures WrittenBefore(x, y) && WrittenBefore(y, z) ==> WrittenBefore(x, z)
      ensures !WrittenBefore(x, y) && !WrittenBefore(y, z) ==> !WrittenBefore(x, z)
    {
      SortKeyTrans(SortKeyOf(x), SortKeyOf(y), SortKeyOf(z));
    }
    forall x ensures !WrittenBefore(x, x) { SortKeyTrans(SortKeyOf(x), SortKeyOf(x), SortKeyOf(x)); }
  }

  /** Facts of one kind with non-empty keys are never tied. */
  lemma NoTies(x: Fact<string>, y: Fact<string>)
    requires KindOf(x) == KindOf(y) && NonEmptyKeys(x) && NonEmptyKeys(y) && x != y
    ensures WrittenBefore(x, y) || WrittenBefore(y, x)
  {
    hide SortKeyLess;
    SortKeyTrans(SortKeyOf(x), SortKeyOf(y), SortKeyOf(x));
  }

  lemma WrittenStrict(c: Contents, facts: seq<Fact<nat>>, kind: FactKind)
    requires Valid(c) && Distinct(facts) && (forall x: Fact<nat> :: x in facts ==> x in c.All())
    requires forall x: Fact<nat> :: x in facts ==> KindOf(Keyed(c.symbols, x)) == kind
    ensures StrictlySortedBy(WrittenBefore, WrittenFacts(c.symbols, facts))
  {
    hide WrittenBefore, KindOf, NonEmptyKeys, Keyed, FromFact;
    var keyed, written := KeyedList(c.symbols, facts), WrittenFacts(c.symbols, facts);
    WrittenOrder();
    SortIsSorted(WrittenBefore, keyed);
    forall i, j | 0 <= i < j < |keyed| ensures keyed[i] != keyed[j] {
      assert facts[i] in facts && facts[j] in facts;
      if keyed[i] == keyed[j] { KeyedInjective(c.symbols, facts[i], facts[j]); }
    }
    SortDistinct(WrittenBefore, keyed);
    WrittenSpec(c, facts, kind);
    forall i, j | 0 <= i < j < |written| ensures WrittenBefore(written[i], written[j]) {
      assert written[i] in written && written[j] in written;
      FromFactFacts(c.symbols, written[i], kind);
      FromFactFacts(c.symbols, written[j], kind);
      NoTies(written[i], written[j]);
    }
  }

  lemma FromFactFacts(symbols: seq<Symbol>, x: Fact<string>, kind: FactKind)
    requires FromFact(symbols, x, kind)
    ensures KindOf(x) == kind && NonEmptyKeys(x)
  {
  }

  /** Two graphs that say the same have the same facts of each kind. */
  lemma WrittenSame(c: Contents, d: Contents, fs: seq<Fact<nat>>, gs: seq<Fact<nat>>, kind: FactKind)
    requires Valid(c) && Distinct(fs) && (forall x: Fact<nat> :: x in fs ==> x in c.All())
    requires Valid(d) && Distinct(gs) && (forall x: Fact<nat> :: x in gs ==> x in d.All())
    requires forall x: Fact<nat> :: x in fs ==> KindOf(Keyed(c.symbols, x)) == kind
    requires forall x: Fact<nat> :: x in gs ==> KindOf(Keyed(d.symbols, x)) == kind
    requires KeyedFacts(c.symbols, fs) == KeyedFacts(d.symbols, gs)
    ensures WrittenFacts(c.symbols, fs) == WrittenFacts(d.symbols, gs)
  {
    hide Valid, WrittenBefore, KindOf, Keyed, FromFact, WrittenFacts, KeyedFacts, Distinct;
    WrittenStrict(c, fs, kind);
    WrittenStrict(d, gs, kind);
    WrittenSpec(c, fs, kind);
    WrittenSpec(d, gs, kind);
    var a, b := WrittenFacts(c.symbols, fs), WrittenFacts(d.symbols, gs);
    forall x: Fact<string> ensures x in a <==> x in b {
      assert x in a <==> x in FactSet(a);
      assert x in b <==> x in FactSet(b);
    }
    WrittenOrder();
    StrictUnique(WrittenBefore, a, b);
  }

  /** The facts of one kind in a view. */
  ghost function OfKind(facts: set<Fact<string>>, kind: FactKind): set<Fact<string>> {
    set x | x in facts && KindOf(x) == kind
  }

  lemma KindsOfView(c: Contents)
    requires Valid(c)
    ensures KeyedFacts(c.symbols, c.edges) == OfKind(ViewOf(c).facts, Edges)
    ensures KeyedFacts(c.symbols, c.roots) == OfKind(ViewOf(c).facts, Roots)
    ensures KeyedFacts(c.symbols, c.escapes) == OfKind(ViewOf(c).facts, Escapes)
    ensures KeyedFacts(c.symbols, c.suppressions) == OfKind(ViewOf(c).facts, Suppressions)
  {
    hide Valid, KindOf, Keyed, SymbolMap;
    ListKinds(c);
    KeyedAll(c);
  }

  lemma ListsDistinct(c: Contents)
    requires Valid(c)
    ensures Distinct(c.edges) && Distinct(c.roots) && Distinct(c.escapes) && Distinct(c.suppressions)
  {
  }

  lemma SortedSymbolsSame(c: Contents, d: Contents)
    requires Valid(c) && Valid(d) && ViewOf(c).symbols == ViewOf(d).symbols
    ensures Sort(KeyLess, c.symbols) == Sort(KeyLess, d.symbols)
  {
    hide Valid, KeyLess, SymbolMap, KeyedFacts, Sort;
    ValidKeys(c);
    ValidKeys(d);
    SymbolsWritten(c.symbols);
    SymbolsWritten(d.symbols);
    SortedStrictly(c.symbols);
    SortedStrictly(d.symbols);
    SymbolsUnique(Sort(KeyLess, c.symbols), Sort(KeyLess, d.symbols));
  }

  lemma SortedStrictly(symbols: seq<Symbol>)
    requires DistinctKeys(symbols)
    ensures StrictlySortedBy(KeyLess, Sort(KeyLess, symbols))
  {
    hide StringLess, Sort;
    KeyOrder();
    SortIsSorted(KeyLess, symbols);
    SymbolsWritten(symbols);
    var s := Sort(KeyLess, symbols);
    forall i, j | 0 <= i < j < |s| ensures KeyLess(s[i], s[j]) { StringTotal(s[i].key, s[j].key); }
  }

  /** Graphs that say the same are written as the same bytes, whatever the order of their symbols
      and facts. */
  lemma SameViewSameText(c: Contents, d: Contents, m: Metadata, ds: seq<string>)
    requires Valid(c) && Valid(d) && ViewOf(c) == ViewOf(d)
    ensures Write(c, m, ds) == Write(d, m, ds)
  {
    hide Valid, ViewOf, WrittenFacts, Sort, SortUnique, KindOf, KeyedFacts, Distinct, Keyed, SymbolTree, FactTree, ContextTree, TreeText;
    SortedSymbolsSame(c, d);
    SortMembersOf(c.symbols);
    SortMembersOf(d.symbols);
    ListKinds(c);
    ListKinds(d);
    KindsOfView(c);
    KindsOfView(d);
    ListsDistinct(c);
    ListsDistinct(d);
    WrittenSame(c, d, c.edges, d.edges, Edges);
    WrittenSame(c, d, c.roots, d.roots, Roots);
    WrittenSame(c, d, c.escapes, d.escapes, Escapes);
    WrittenSame(c, d, c.suppressions, d.suppressions, Suppressions);
  }

  lemma SortMembersOf(symbols: seq<Symbol>)
    ensures forall s :: s in Sort(KeyLess, symbols) <==> s in symbols
  {
    SortMembers(KeyLess, symbols);
  }

  function Rewritten(a: Artifact): Result<string, WriteError> {
    Write(a.graph, a.metadata, a.diagnostics)
  }

  /** Writing what was read back reproduces the document byte for byte. */
  lemma RewriteIsIdentical(c: Contents, m: Metadata, ds: seq<string>, numbers: Numbers)
    requires ExactSizes(numbers) && MayWrite(c, m)
    ensures Write(c, m, ds).Ok? && Read(Write(c, m, ds).value, numbers).Ok?
    ensures Rewritten(Read(Write(c, m, ds).value, numbers).value) == Write(c, m, ds)
  {
    hide Write, Read, ExactSizes, Canonicalize, SortUnique, ViewOf, Valid, MayWrite;
    MayWriteValid(c, m);
    ArtifactRoundTrip.ArtifactRoundTrip(c, m, ds, numbers);
    CanonicalizeKeepsView(c);
    SameViewSameText(c, Canonicalize(c), m, ds);
    SortedOnce(c, m, ds);
  }

  lemma SortedOnce(c: Contents, m: Metadata, ds: seq<string>)
    ensures Write(Canonicalize(c), m, SortUnique(StringLess, ds)) == Write(Canonicalize(c), m, ds)
  {
    hide StringLess, SortUnique, TreeText, FactsTree, SymbolTree, Canonicalize, Sort;
    StringOrder();
    SortUniqueSpec(StringLess, ds);
    SortUniqueBySet(StringLess, SortUnique(StringLess, ds), ds);
  }
}
