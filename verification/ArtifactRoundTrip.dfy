/** Reading a written artifact gives back the graph in canonical form and the metadata. */
module ArtifactRoundTrip {
  import opened Wrappers
  import opened Text
  import opened Orders
  import opened Symbols
  import opened Identities
  import opened Facts
  import opened Merging
  import opened Canonical
  import opened Json
  import opened JsonGrammar
  import opened JsonLayout
  import opened Artifact

  /** Up to here every integer is a double. */
  const EXACT := 0x20_0000_0000_0000 - 1

  /** The largest value of a 64-bit size. */
  const WIDEST := 0xffff_ffff_ffff_ffff

  /** Decimal numerals up to 2^53 - 1 are converted exactly, and those of larger sizes to something
      larger than that, or to nothing. */
  ghost predicate ExactSizes(numbers: Numbers) {
    && (forall n: nat :: n <= WIDEST ==> numbers.representable(Decimal(n)))
    && (forall n: nat :: n <= EXACT ==> numbers.sizeOf(Decimal(n)) == Some(n))
    && (forall n: nat :: EXACT < n <= WIDEST && numbers.sizeOf(Decimal(n)).Some? ==>
          numbers.sizeOf(Decimal(n)).value > EXACT)
  }

  predicate PointFits(p: SourcePoint, limit: nat) {
    p.line <= limit && p.column <= limit && p.offset <= limit && p.tokenLength <= limit
  }

  predicate ExtentFits(e: SourceExtent, limit: nat) {
    PointFits(e.location, limit) && PointFits(e.begin, limit) && PointFits(e.end, limit)
  }

  predicate SourceFits(s: SymbolSource, limit: nat) {
    ExtentFits(s.spelling, limit) && (s.expansion.Some? ==> ExtentFits(s.expansion.value, limit))
  }

  // ---- values

  function SizeValue(n: nat): Value { Number(Decimal(n)) }

  function PointValue(p: SourcePoint): Value {
    Object(MapOf(POINT_KEYS, [Str(p.file), SizeValue(p.line), SizeValue(p.column), SizeValue(p.offset), SizeValue(p.tokenLength)]))
  }

  function ExtentValue(e: SourceExtent): Value {
    Object(MapOf(EXTENT_KEYS, [PointValue(e.location), Object(MapOf(RANGE_KEYS, [PointValue(e.begin), PointValue(e.end)]))]))
  }

  function SourceValue(s: SymbolSource): Value {
    Object(MapOf(SOURCE_KEYS, [ExtentValue(s.spelling), if s.expansion.Some? then ExtentValue(s.expansion.value) else Null]))
  }

  function EvidenceValue(e: Evidence): Value {
    Object(MapOf(EVIDENCE_KEYS, [Str(e.provider), Str(e.reason)]))
  }

  function IdentityValue(i: Identity): Value {
    Object(MapOf(IDENTITY_KEYS, [Str(QualityName(i.quality)), Str(i.configuration), Str(i.usr), Str(i.linkageName),
                                 Str(i.translationUnit), Str(i.fallbackAnchor)]))
  }

  function SymbolValues(s: Symbol): seq<Value> {
    [Str(s.key), IdentityValue(s.identity), Str(s.name), Str(s.qualifiedName), Str(s.className), Str(s.signature),
     Str(KindName(s.kind)), Str(ScopeName(s.scope)), Bool(s.defined), Bool(s.internalLinkage), Bool(s.isVirtual),
     SourceValue(s.source)]
  }

  function SymbolValue(s: Symbol): Value {
    Object(MapOf(SYMBOL_KEYS, SymbolValues(s)))
  }

  function NullableValue(s: string): Value {
    if s == [] then Null else Str(s)
  }

  function FactValue(x: Fact<string>): Value {
    match x
    case Edge(from, to, k, e) => Object(MapOf(EDGE_KEYS, [Str(from), Str(to), Str(EdgeKindName(k)), EvidenceValue(e)]))
    case Root(symbol, k, e) => Object(MapOf(ROOT_KEYS, [Str(symbol), Str(RootKindName(k)), EvidenceValue(e)]))
    case Escape(symbol, origin, k, e) =>
      Object(MapOf(ESCAPE_KEYS, [Str(symbol), if origin.Some? then Str(origin.value) else Null, Str(EscapeKindName(k)), EvidenceValue(e)]))
    case Suppression(symbol, e) => Object(MapOf(SUPPRESSION_KEYS, [Str(symbol), EvidenceValue(e)]))
  }

  function ValuesOf<T>(list: seq<T>, value: T -> Value): seq<Value> {
    seq(|list|, i requires 0 <= i < |list| => value(list[i]))
  }

  function StringValue(s: string): Value { Str(s) }

  function ContextValues(m: Metadata): seq<Value> {
    [Str(m.configuration), NullableValue(m.targetId), NullableValue(m.targetName), NullableValue(m.targetKind),
     Array(ValuesOf(m.closureTargets, StringValue))]
  }

  // ---- each tree denotes its value

  lemma PointDenotes(p: SourcePoint, numbers: Numbers)
    requires ExactSizes(numbers) && PointFits(p, WIDEST)
    ensures Denotes(PointTree(p), PointValue(p), numbers.representable)
  {
    hide Denotes, StringTree, NumberTree, ObjectTree, MapOf;
    var rep := numbers.representable;
    StringDenotes(p.file, rep);
    NumberDenotes(p.line, rep);
    NumberDenotes(p.column, rep);
    NumberDenotes(p.offset, rep);
    NumberDenotes(p.tokenLength, rep);
    ObjectDenotes(POINT_KEYS,
      [StringTree(p.file), NumberTree(p.line), NumberTree(p.column), NumberTree(p.offset), NumberTree(p.tokenLength)],
      [Str(p.file), SizeValue(p.line), SizeValue(p.column), SizeValue(p.offset), SizeValue(p.tokenLength)], INLINE, rep);
  }

  lemma ExtentDenotes(e: SourceExtent, numbers: Numbers)
    requires ExactSizes(numbers) && ExtentFits(e, WIDEST)
    ensures Denotes(ExtentTree(e), ExtentValue(e), numbers.representable)
  {
    hide Denotes, PointTree, PointValue, ObjectTree, MapOf, PointFits;
    var rep := numbers.representable;
    PointDenotes(e.location, numbers);
    PointDenotes(e.begin, numbers);
    PointDenotes(e.end, numbers);
    var range, range' := [PointTree(e.begin), PointTree(e.end)], [PointValue(e.begin), PointValue(e.end)];
    ObjectDenotes(RANGE_KEYS, range, range', INLINE, rep);
    ObjectDenotes(EXTENT_KEYS, [PointTree(e.location), ObjectTree(RANGE_KEYS, range, INLINE)],
                  [PointValue(e.location), Object(MapOf(RANGE_KEYS, range'))], INLINE, rep);
  }

  lemma SourceDenotes(s: SymbolSource, numbers: Numbers)
    requires ExactSizes(numbers) && SourceFits(s, WIDEST)
    ensures Denotes(SourceTree(s), SourceValue(s), numbers.representable)
  {
    hide Denotes, ExtentTree, ExtentValue, ObjectTree, MapOf, ExtentFits;
    var rep := numbers.representable;
    ExtentDenotes(s.spelling, numbers);
    NullDenotes(rep);
    if s.expansion.Some? { ExtentDenotes(s.expansion.value, numbers); }
    ObjectDenotes(SOURCE_KEYS, [ExtentTree(s.spelling), if s.expansion.Some? then ExtentTree(s.expansion.value) else TNull],
                  [ExtentValue(s.spelling), if s.expansion.Some? then ExtentValue(s.expansion.value) else Null], INLINE, rep);
  }

  lemma EvidenceDenotes(e: Evidence, rep: string -> bool)
    ensures Denotes(EvidenceTree(e), EvidenceValue(e), rep)
  {
    hide Denotes, StringTree, ObjectTree, MapOf;
    StringDenotes(e.provider, rep);
    StringDenotes(e.reason, rep);
    ObjectDenotes(EVIDENCE_KEYS, [StringTree(e.provider), StringTree(e.reason)], [Str(e.provider), Str(e.reason)], INLINE, rep);
  }

  lemma IdentityDenotes(i: Identity, rep: string -> bool)
    ensures Denotes(IdentityTree(i), IdentityValue(i), rep)
  {
    hide Denotes, StringTree, ObjectTree, MapOf;
    forall s ensures Denotes(StringTree(s), Str(s), rep) { StringDenotes(s, rep); }
    ObjectDenotes(IDENTITY_KEYS,
      [StringTree(QualityName(i.quality)), StringTree(i.configuration), StringTree(i.usr), StringTree(i.linkageName),
       StringTree(i.translationUnit), StringTree(i.fallbackAnchor)],
      [Str(QualityName(i.quality)), Str(i.configuration), Str(i.usr), Str(i.linkageName),
       Str(i.translationUnit), Str(i.fallbackAnchor)], INLINE, rep);
  }

  lemma SymbolKeysDistinct()
    ensures Distinct(SYMBOL_KEYS)
  {
  }

  lemma SymbolDenotes(s: Symbol, numbers: Numbers)
    requires ExactSizes(numbers) && SourceFits(s.source, WIDEST)
    ensures Denotes(SymbolTree(s), SymbolValue(s), numbers.representable)
  {
    hide Denotes, StringTree, BoolTree, ObjectTree, MapOf, IdentityTree, IdentityValue, SourceTree, SourceValue, SourceFits, Distinct;
    var rep := numbers.representable;
    forall t ensures Denotes(StringTree(t), Str(t), rep) { StringDenotes(t, rep); }
    forall b ensures Denotes(BoolTree(b), Bool(b), rep) { BoolDenotes(b, rep); }
    IdentityDenotes(s.identity, rep);
    SourceDenotes(s.source, numbers);
    SymbolKeysDistinct();
    ObjectDenotes(SYMBOL_KEYS,
      [StringTree(s.key), IdentityTree(s.identity), StringTree(s.name), StringTree(s.qualifiedName), StringTree(s.className),
       StringTree(s.signature), StringTree(KindName(s.kind)), StringTree(ScopeName(s.scope)), BoolTree(s.defined),
       BoolTree(s.internalLinkage), BoolTree(s.isVirtual), SourceTree(s.source)], SymbolValues(s), SYMBOL_LAYOUT, rep);
  }

  lemma FactDenotes(x: Fact<string>, rep: string -> bool)
    ensures Denotes(FactTree(x), FactValue(x), rep)
  {
    hide Denotes, StringTree, ObjectTree, MapOf, EvidenceTree, EvidenceValue;
    forall t ensures Denotes(StringTree(t), Str(t), rep) { StringDenotes(t, rep); }
    NullDenotes(rep);
    EvidenceDenotes(x.evidence, rep);
    var e, v := EvidenceTree(x.evidence), EvidenceValue(x.evidence);
    match x
    case Edge(from, to, k, _) =>
      ObjectDenotes(EDGE_KEYS, [StringTree(from), StringTree(to), StringTree(EdgeKindName(k)), e],
                    [Str(from), Str(to), Str(EdgeKindName(k)), v], INLINE, rep);
    case Root(symbol, k, _) =>
      ObjectDenotes(ROOT_KEYS, [StringTree(symbol), StringTree(RootKindName(k)), e], [Str(symbol), Str(RootKindName(k)), v], INLINE, rep);
    case Escape(symbol, origin, k, _) =>
      ObjectDenotes(ESCAPE_KEYS,
        [StringTree(symbol), if origin.Some? then StringTree(origin.value) else TNull, StringTree(EscapeKindName(k)), e],
        [Str(symbol), if origin.Some? then Str(origin.value) else Null, Str(EscapeKindName(k)), v], INLINE, rep);
    case Suppression(symbol, _) =>
      ObjectDenotes(SUPPRESSION_KEYS, [StringTree(symbol), e], [Str(symbol), v], INLINE, rep);
  }

  lemma ListDenotes<T>(list: seq<T>, tree: T -> Tree, value: T -> Value, rep: string -> bool)
    requires forall i :: 0 <= i < |list| ==> Denotes(tree(list[i]), value(list[i]), rep)
    ensures Denotes(ListTree(list, tree), Array(ValuesOf(list, value)), rep)
  {
    hide Denotes, ArrayTree;
    ArrayDenotes(seq(|list|, i requires 0 <= i < |list| => tree(list[i])), ValuesOf(list, value), LIST_LAYOUT, "  ", rep);
  }

  lemma NullableDenotes(s: string, rep: string -> bool)
    ensures Denotes(NullableTree(s), NullableValue(s), rep)
  {
    StringDenotes(s, rep);
  }

  lemma ContextDenotes(m: Metadata, rep: string -> bool)
    ensures Denotes(ContextTree(m), Object(MapOf(CONTEXT_KEYS, ContextValues(m))), rep)
  {
    hide Denotes, StringTree, ObjectTree, MapOf, ArrayTree, NullableTree, NullableValue;
    forall t ensures Denotes(StringTree(t), Str(t), rep) { StringDenotes(t, rep); }
    forall t ensures Denotes(NullableTree(t), NullableValue(t), rep) { NullableDenotes(t, rep); }
    var targets := seq(|m.closureTargets|, i requires 0 <= i < |m.closureTargets| => StringTree(m.closureTargets[i]));
    ArrayDenotes(targets, ValuesOf(m.closureTargets, StringValue), INLINE, "", rep);
    ObjectDenotes(CONTEXT_KEYS,
      [StringTree(m.configuration), NullableTree(m.targetId), NullableTree(m.targetName), NullableTree(m.targetKind),
       ArrayTree(targets, INLINE, "")], ContextValues(m), INLINE, rep);
  }

  function DocumentValues(c: Contents, m: Metadata, diagnostics: seq<string>): seq<Value> {
    [SizeValue(ARTIFACT_SCHEMA), SizeValue(IDENTITY_SCHEMA), Str(m.configurationId), Object(MapOf(CONTEXT_KEYS, ContextValues(m))),
     Str(FrontendName(m.frontend)), SizeValue(m.translationUnits),
     Array(ValuesOf(Sort(KeyLess, c.symbols), SymbolValue)),
     Array(ValuesOf(WrittenFacts(c.symbols, c.edges), FactValue)), Array(ValuesOf(WrittenFacts(c.symbols, c.roots), FactValue)),
     Array(ValuesOf(WrittenFacts(c.symbols, c.escapes), FactValue)),
     Array(ValuesOf(WrittenFacts(c.symbols, c.suppressions), FactValue)),
     Array(ValuesOf(SortUnique(StringLess, diagnostics), StringValue))]
  }

  function DocumentValue(c: Contents, m: Metadata, diagnostics: seq<string>): Value {
    Object(MapOf(DOCUMENT_KEYS, DocumentValues(c, m, diagnostics)))
  }

  lemma DocumentKeysDistinct()
    ensures Distinct(DOCUMENT_KEYS)
  {
  }

  lemma FactsDenote(c: Contents, facts: seq<Fact<nat>>, rep: string -> bool)
    ensures Denotes(FactsTree(c, facts), Array(ValuesOf(WrittenFacts(c.symbols, facts), FactValue)), rep)
  {
    hide Denotes, FactTree, FactValue, ListTree, WrittenFacts;
    forall x ensures Denotes(FactTree(x), FactValue(x), rep) { FactDenotes(x, rep); }
    ListDenotes(WrittenFacts(c.symbols, facts), FactTree, FactValue, rep);
  }

  lemma SymbolsDenote(symbols: seq<Symbol>, numbers: Numbers)
    requires ExactSizes(numbers) && forall s :: s in symbols ==> SourceFits(s.source, WIDEST)
    ensures Denotes(ListTree(Sort(KeyLess, symbols), SymbolTree), Array(ValuesOf(Sort(KeyLess, symbols), SymbolValue)), numbers.representable)
  {
    hide Denotes, SymbolTree, SymbolValue, ListTree, Sort, SourceFits, ExactSizes;
    SortMembers(KeyLess, symbols);
    var sorted := Sort(KeyLess, symbols);
    forall i | 0 <= i < |sorted| ensures Denotes(SymbolTree(sorted[i]), SymbolValue(sorted[i]), numbers.representable) {
      assert sorted[i] in sorted;
      SymbolDenotes(sorted[i], numbers);
    }
    ListDenotes(sorted, SymbolTree, SymbolValue, numbers.representable);
  }

  lemma DocumentDenotes(c: Contents, m: Metadata, diagnostics: seq<string>, numbers: Numbers)
    requires ExactSizes(numbers) && m.translationUnits <= WIDEST && forall s :: s in c.symbols ==> SourceFits(s.source, WIDEST)
    ensures Denotes(DocumentTree(c, m, diagnostics), DocumentValue(c, m, diagnostics), numbers.representable)
  {
    hide Denotes, StringTree, NumberTree, ObjectTree, MapOf, ContextTree, ContextValues, FactsTree, ListTree, Sort, SortUnique;
    hide WrittenFacts, SourceFits, Distinct;
    var rep := numbers.representable;
    forall t ensures Denotes(StringTree(t), Str(t), rep) { StringDenotes(t, rep); }
    NumberDenotes(ARTIFACT_SCHEMA, rep);
    NumberDenotes(IDENTITY_SCHEMA, rep);
    NumberDenotes(m.translationUnits, rep);
    ContextDenotes(m, rep);
    SymbolsDenote(c.symbols, numbers);
    FactsDenote(c, c.edges, rep);
    FactsDenote(c, c.roots, rep);
    FactsDenote(c, c.escapes, rep);
    FactsDenote(c, c.suppressions, rep);
    ListDenotes(SortUnique(StringLess, diagnostics), StringTree, StringValue, rep);
    DocumentKeysDistinct();
    ObjectDenotes(DOCUMENT_KEYS,
      [NumberTree(ARTIFACT_SCHEMA), NumberTree(IDENTITY_SCHEMA), StringTree(m.configurationId), ContextTree(m),
       StringTree(FrontendName(m.frontend)), NumberTree(m.translationUnits),
       ListTree(Sort(KeyLess, c.symbols), SymbolTree),
       FactsTree(c, c.edges), FactsTree(c, c.roots), FactsTree(c, c.escapes), FactsTree(c, c.suppressions),
       ListTree(SortUnique(StringLess, diagnostics), StringTree)],
      DocumentValues(c, m, diagnostics), DOCUMENT_LAYOUT, rep);
  }

  // ---- the reader takes each value back

  lemma SizeReadBack(m: map<string, Value>, key: string, n: nat, numbers: Numbers)
    requires ExactSizes(numbers) && n <= WIDEST && key in m && m[key] == SizeValue(n)
    ensures SizeField(m, key, numbers) == if n <= EXACT then Ok(n) else Err(NotASize)
  {
  }

  lemma PointReadBack(p: SourcePoint, numbers: Numbers)
    requires ExactSizes(numbers) && PointFits(p, WIDEST)
    ensures ReadPoint(PointValue(p), numbers) == if PointFits(p, EXACT) then Ok(p) else Err(NotASize)
  {
    hide MapOf, ExactSizes, SizeValue, SizeField;
    var k := POINT_KEYS;
    var v := [Str(p.file), SizeValue(p.line), SizeValue(p.column), SizeValue(p.offset), SizeValue(p.tokenLength)];
    MapOfAt(k, v);
    assert k[0] == "file" && k[1] == "line" && k[2] == "column" && k[3] == "offset" && k[4] == "token_length";
    SizeReadBack(MapOf(k, v), "line", p.line, numbers);
    SizeReadBack(MapOf(k, v), "column", p.column, numbers);
    SizeReadBack(MapOf(k, v), "offset", p.offset, numbers);
    SizeReadBack(MapOf(k, v), "token_length", p.tokenLength, numbers);
  }

  lemma ExtentReadBack(e: SourceExtent, numbers: Numbers)
    requires ExactSizes(numbers) && ExtentFits(e, WIDEST)
    ensures ReadExtent(ExtentValue(e), numbers) == if ExtentFits(e, EXACT) then Ok(e) else Err(NotASize)
  {
    hide MapOf, ReadPoint, PointValue, PointFits, ExactSizes;
    var r := [PointValue(e.begin), PointValue(e.end)];
    MapOfAt(RANGE_KEYS, r);
    MapOfAt(EXTENT_KEYS, [PointValue(e.location), Object(MapOf(RANGE_KEYS, r))]);
    assert RANGE_KEYS[0] == "begin" && RANGE_KEYS[1] == "end" && EXTENT_KEYS[0] == "location" && EXTENT_KEYS[1] == "range";
    PointReadBack(e.location, numbers);
    PointReadBack(e.begin, numbers);
    PointReadBack(e.end, numbers);
  }

  lemma SourceReadBack(s: SymbolSource, numbers: Numbers)
    requires ExactSizes(numbers) && SourceFits(s, WIDEST)
    ensures ReadSource(SourceValue(s), numbers) == if SourceFits(s, EXACT) then Ok(s) else Err(NotASize)
  {
    hide MapOf, ReadExtent, ExtentValue, ExtentFits, ExactSizes;
    MapOfAt(SOURCE_KEYS, [ExtentValue(s.spelling), if s.expansion.Some? then ExtentValue(s.expansion.value) else Null]);
    assert SOURCE_KEYS[0] == "spelling" && SOURCE_KEYS[1] == "expansion";
    ExtentReadBack(s.spelling, numbers);
    if s.expansion.Some? {
      ExtentReadBack(s.expansion.value, numbers);
      ExtentNotNull(s.expansion.value);
    }
  }

  lemma ExtentNotNull(e: SourceExtent)
    ensures !ExtentValue(e).Null?
  {
  }

  lemma EvidenceReadBack(m: map<string, Value>, e: Evidence)
    requires "evidence" in m && m["evidence"] == EvidenceValue(e)
    ensures EvidenceField(m) == Ok(e)
  {
    hide MapOf;
    MapOfAt(EVIDENCE_KEYS, [Str(e.provider), Str(e.reason)]);
    assert EVIDENCE_KEYS[0] == "provider" && EVIDENCE_KEYS[1] == "reason";
  }

  lemma IdentityReadBack(m: map<string, Value>, i: Identity)
    requires "identity" in m && m["identity"] == IdentityValue(i) && i.configuration != []
    ensures IdentityField(m) == Ok(i)
  {
    hide MapOf;
    var k := IDENTITY_KEYS;
    MapOfAt(k, [Str(QualityName(i.quality)), Str(i.configuration), Str(i.usr), Str(i.linkageName), Str(i.translationUnit),
                Str(i.fallbackAnchor)]);
    assert k[0] == "quality" && k[1] == "configuration_id" && k[2] == "usr" && k[3] == "linkage_name";
    assert k[4] == "translation_unit" && k[5] == "fallback_anchor";
    assert "stable" != "fallback" by { assert |"stable"| == 6; }
  }

  lemma KindsNamed(s: Symbol)
    ensures KindNamed(KindName(s.kind)) == Some(s.kind) && KindName(s.kind) != []
    ensures s.scope != Excluded ==> ScopeNamed(ScopeName(s.scope)) == Some(s.scope)
    ensures ScopeName(s.scope) != []
  {
  }

  /** A symbol that the writer prints for a configuration. */
  predicate Printed(s: Symbol, configuration: string) {
    && s.key != [] && s.scope != Excluded && SourceFits(s.source, WIDEST)
    && configuration != [] && s.identity.configuration == configuration
  }

  /** One that the reader takes back. */
  predicate Writable(s: Symbol, configuration: string) {
    Printed(s, configuration) && WellIdentified(s) && SourceFits(s.source, EXACT)
  }

  /** The field at one place of a symbol. */
  lemma SymbolField(s: Symbol, i: nat, name: string)
    requires i < |SYMBOL_KEYS| && SYMBOL_KEYS[i] == name
    ensures name in MapOf(SYMBOL_KEYS, SymbolValues(s)) && MapOf(SYMBOL_KEYS, SymbolValues(s))[name] == SymbolValues(s)[i]
  {
    hide MapOf, Distinct, IdentityValue, SourceValue, KindName, ScopeName;
    SymbolKeysDistinct();
    MapOfAt(SYMBOL_KEYS, SymbolValues(s));
  }

  lemma SymbolKeysRequired(s: Symbol)
    ensures RequireKeys(SymbolValue(s), SYMBOL_KEYS) == Ok(MapOf(SYMBOL_KEYS, SymbolValues(s)))
  {
    hide MapOf, Distinct, IdentityValue, SourceValue, KindName, ScopeName;
    SymbolKeysDistinct();
    MapOfAt(SYMBOL_KEYS, SymbolValues(s));
  }

  lemma SymbolTexts(s: Symbol)
    ensures var m := MapOf(SYMBOL_KEYS, SymbolValues(s));
            && StringField(m, "id") == Ok(s.key) && StringField(m, "name") == Ok(s.name)
            && StringField(m, "qualified_name") == Ok(s.qualifiedName) && StringField(m, "class_name") == Ok(s.className)
            && StringField(m, "signature") == Ok(s.signature)
  {
    hide MapOf, IdentityValue, SourceValue, KindName, ScopeName;
    SymbolField(s, 0, "id");
    SymbolField(s, 2, "name");
    SymbolField(s, 3, "qualified_name");
    SymbolField(s, 4, "class_name");
    SymbolField(s, 5, "signature");
  }

  lemma SymbolTags(s: Symbol)
    ensures var m := MapOf(SYMBOL_KEYS, SymbolValues(s));
            && StringField(m, "kind") == Ok(KindName(s.kind)) && StringField(m, "scope") == Ok(ScopeName(s.scope))
            && BoolField(m, "defined") == Ok(s.defined) && BoolField(m, "internal_linkage") == Ok(s.internalLinkage)
            && BoolField(m, "virtual") == Ok(s.isVirtual)
  {
    hide MapOf, IdentityValue, SourceValue, KindName, ScopeName;
    SymbolField(s, 6, "kind");
    SymbolField(s, 7, "scope");
    SymbolField(s, 8, "defined");
    SymbolField(s, 9, "internal_linkage");
    SymbolField(s, 10, "virtual");
  }

  lemma SymbolObjects(s: Symbol)
    ensures var m := MapOf(SYMBOL_KEYS, SymbolValues(s));
            "identity" in m && m["identity"] == IdentityValue(s.identity) && Lookup(m, "source") == Ok(SourceValue(s.source))
  {
    hide MapOf, IdentityValue, SourceValue, KindName, ScopeName;
    SymbolField(s, 1, "identity");
    SymbolField(s, 11, "source");
  }

  lemma SymbolFieldsBack(s: Symbol, configuration: string, numbers: Numbers)
    requires ExactSizes(numbers) && Printed(s, configuration)
    ensures SymbolFields(SymbolValue(s), numbers) == if SourceFits(s.source, EXACT) then Ok(s) else Err(NotASize)
  {
    hide MapOf, IdentityValue, SourceValue, SymbolValue, KindName, ScopeName, KindNamed, ScopeNamed, ReadSource, IdentityField;
    hide ExactSizes, RequireKeys, Lookup, StringField, BoolField, SourceFits, StableKey;
    SymbolKeysRequired(s);
    SymbolTexts(s);
    SymbolTags(s);
    SymbolObjects(s);
    IdentityReadBack(MapOf(SYMBOL_KEYS, SymbolValues(s)), s.identity);
    SourceReadBack(s.source, numbers);
    KindsNamed(s);
  }

  /** A printed symbol is taken back as it was exactly when its quality and key are those of its
      identity and its sizes are exact JSON numbers; otherwise it is refused. */
  lemma SymbolReadBack(s: Symbol, configuration: string, numbers: Numbers)
    requires ExactSizes(numbers) && Printed(s, configuration)
    ensures Writable(s, configuration) ==> ReadSymbol(SymbolValue(s), numbers) == Ok(s)
    ensures !Writable(s, configuration) ==> ReadSymbol(SymbolValue(s), numbers).Err?
  {
    hide SymbolValue, SymbolFields, StableKey, ExactSizes, SourceFits;
    SymbolFieldsBack(s, configuration, numbers);
  }

  function KindOf(x: Fact<string>): FactKind {
    match x
    case Edge(_, _, _, _) => Edges
    case Root(_, _, _) => Roots
    case Escape(_, _, _, _) => Escapes
    case Suppression(_, _) => Suppressions
  }

  predicate NonEmptyKeys(x: Fact<string>) {
    match x
    case Edge(from, to, _, _) => from != [] && to != []
    case Root(symbol, _, _) => symbol != []
    case Escape(symbol, origin, _, _) => symbol != [] && (origin.Some? ==> origin.value != [])
    case Suppression(symbol, _) => symbol != []
  }

  lemma EdgeKindsNamed(k: EdgeKind)
    ensures EdgeKindNamed(EdgeKindName(k)) == Some(k) && EdgeKindName(k) != []
  {
  }

  lemma RootKindsNamed(k: RootKind)
    ensures RootKindNamed(RootKindName(k)) == Some(k) && RootKindName(k) != []
  {
  }

  lemma EscapeKindsNamed(k: EscapeKind)
    ensures EscapeKindNamed(EscapeKindName(k)) == Some(k) && EscapeKindName(k) != []
  {
  }

  lemma EdgeReadBack(x: Fact<string>)
    requires NonEmptyKeys(x) && x.Edge?
    ensures ReadFact(FactValue(x), Edges) == Ok(x)
  {
    hide MapOf, EvidenceField, EvidenceValue, EdgeKindName, EdgeKindNamed;
    MapOfAt(EDGE_KEYS, [Str(x.from), Str(x.to), Str(EdgeKindName(x.edgeKind)), EvidenceValue(x.evidence)]);
    assert EDGE_KEYS[0] == "from" && EDGE_KEYS[1] == "to" && EDGE_KEYS[2] == "kind" && EDGE_KEYS[3] == "evidence";
    EdgeKindsNamed(x.edgeKind);
    EvidenceReadBack(FactValue(x).fields, x.evidence);
  }

  lemma RootReadBack(x: Fact<string>)
    requires NonEmptyKeys(x) && x.Root?
    ensures ReadFact(FactValue(x), Roots) == Ok(x)
  {
    hide MapOf, EvidenceField, EvidenceValue, RootKindName, RootKindNamed;
    MapOfAt(ROOT_KEYS, [Str(x.symbol), Str(RootKindName(x.rootKind)), EvidenceValue(x.evidence)]);
    assert ROOT_KEYS[0] == "symbol" && ROOT_KEYS[1] == "kind" && ROOT_KEYS[2] == "evidence";
    RootKindsNamed(x.rootKind);
    EvidenceReadBack(FactValue(x).fields, x.evidence);
  }

  lemma EscapeReadBack(x: Fact<string>)
    requires NonEmptyKeys(x) && x.Escape?
    ensures ReadFact(FactValue(x), Escapes) == Ok(x)
  {
    hide MapOf, EvidenceField, EvidenceValue, EscapeKindName, EscapeKindNamed;
    MapOfAt(ESCAPE_KEYS, [Str(x.symbol), if x.origin.Some? then Str(x.origin.value) else Null,
                          Str(EscapeKindName(x.escapeKind)), EvidenceValue(x.evidence)]);
    assert ESCAPE_KEYS[0] == "symbol" && ESCAPE_KEYS[1] == "from" && ESCAPE_KEYS[2] == "kind" && ESCAPE_KEYS[3] == "evidence";
    EscapeKindsNamed(x.escapeKind);
    EvidenceReadBack(FactValue(x).fields, x.evidence);
  }

  lemma SuppressionReadBack(x: Fact<string>)
    requires NonEmptyKeys(x) && x.Suppression?
    ensures ReadFact(FactValue(x), Suppressions) == Ok(x)
  {
    hide MapOf, EvidenceField, EvidenceValue;
    MapOfAt(SUPPRESSION_KEYS, [Str(x.symbol), EvidenceValue(x.evidence)]);
    assert SUPPRESSION_KEYS[0] == "symbol" && SUPPRESSION_KEYS[1] == "evidence";
    EvidenceReadBack(FactValue(x).fields, x.evidence);
  }

  lemma FactReadBack(x: Fact<string>)
    requires NonEmptyKeys(x)
    ensures ReadFact(FactValue(x), KindOf(x)) == Ok(x)
  {
    hide ReadFact, FactValue, NonEmptyKeys;
    match x
    case Edge(_, _, _, _) => EdgeReadBack(x);
    case Root(_, _, _) => RootReadBack(x);
    case Escape(_, _, _, _) => EscapeReadBack(x);
    case Suppression(_, _) => SuppressionReadBack(x);
  }

  lemma {:induction false} StringsReadBack(list: seq<string>)
    ensures ReadStrings(ValuesOf(list, StringValue)) == Ok(list)
  {
    if list != [] {
      var init := list[..|list| - 1];
      assert ValuesOf(list, StringValue)[..|list| - 1] == ValuesOf(init, StringValue);
      assert list == init + [list[|list| - 1]];
      StringsReadBack(init);
    }
  }

  lemma {:induction false} TargetsReadBack(list: seq<string>)
    requires forall t :: t in list ==> t != []
    ensures ReadTargets(ValuesOf(list, StringValue)) == Ok(list)
  {
    if list != [] {
      var init := list[..|list| - 1];
      assert ValuesOf(list, StringValue)[..|list| - 1] == ValuesOf(init, StringValue);
      assert list == init + [list[|list| - 1]];
      forall t | t in init ensures t != [] { assert t in list; }
      TargetsReadBack(init);
      assert list[|list| - 1] in list && ValuesOf(list, StringValue)[|list| - 1] == Str(list[|list| - 1]);
    }
  }

  predicate MetadataOk(m: Metadata) {
    && m.configurationId != [] && m.translationUnits <= EXACT && TargetOk(m)
    && forall t :: t in m.closureTargets ==> t != []
  }

  lemma MetadataWide(m: Metadata)
    requires MetadataOk(m)
    ensures m.configurationId != [] && m.translationUnits <= WIDEST
  {
  }

  lemma ContextFields(m: Metadata)
    ensures var c := MapOf(CONTEXT_KEYS, ContextValues(m));
            && c.Keys == (set k | k in CONTEXT_KEYS)
            && StringField(c, "configuration") == Ok(m.configuration) && NullableField(c, "target_id") == Ok(m.targetId)
            && NullableField(c, "target_name") == Ok(m.targetName) && NullableField(c, "target_kind") == Ok(m.targetKind)
            && ArrayField(c, "closure_targets") == Ok(ValuesOf(m.closureTargets, StringValue))
  {
    hide MapOf, ValuesOf;
    var k := CONTEXT_KEYS;
    MapOfAt(k, ContextValues(m));
    assert k[0] == "configuration" && k[1] == "target_id" && k[2] == "target_name" && k[3] == "target_kind" && k[4] == "closure_targets";
  }

  lemma FrontendsNamed(f: Frontend)
    ensures FrontendNamed(FrontendName(f)) == Some(f) && FrontendName(f) != []
  {
  }

  lemma {:induction false} TargetsRefused(list: seq<string>)
    requires [] in list
    ensures ReadTargets(ValuesOf(list, StringValue)).Err?
  {
    var init := list[..|list| - 1];
    assert ValuesOf(list, StringValue)[..|list| - 1] == ValuesOf(init, StringValue);
    if [] in init {
      TargetsRefused(init);
    } else {
      assert ValuesOf(list, StringValue)[|list| - 1] == Str([]);
    }
  }

  lemma HeaderFields(d: map<string, Value>, m: Metadata, numbers: Numbers)
    requires ExactSizes(numbers) && m.configurationId != [] && m.translationUnits <= WIDEST
    requires {"configuration_id", "frontend", "translation_units", "analysis_context"} <= d.Keys
    requires d["configuration_id"] == Str(m.configurationId) && d["frontend"] == Str(FrontendName(m.frontend))
    requires d["translation_units"] == SizeValue(m.translationUnits)
    ensures NamedField(d, "configuration_id") == Ok(m.configurationId) && NamedField(d, "frontend") == Ok(FrontendName(m.frontend))
    ensures SizeField(d, "translation_units", numbers) == if m.translationUnits <= EXACT then Ok(m.translationUnits) else Err(NotASize)
  {
    FrontendsNamed(m.frontend);
  }

  lemma MetadataReadBack(d: map<string, Value>, m: Metadata, numbers: Numbers)
    requires ExactSizes(numbers) && m.configurationId != [] && m.translationUnits <= WIDEST
    requires {"configuration_id", "frontend", "translation_units", "analysis_context"} <= d.Keys
    requires d["configuration_id"] == Str(m.configurationId) && d["frontend"] == Str(FrontendName(m.frontend))
    requires d["translation_units"] == SizeValue(m.translationUnits)
    requires d["analysis_context"] == Object(MapOf(CONTEXT_KEYS, ContextValues(m)))
    ensures MetadataOk(m) ==> ReadMetadata(d, numbers) == Ok(m)
    ensures !MetadataOk(m) ==> ReadMetadata(d, numbers).Err?
  {
    hide MapOf, ContextValues, ValuesOf, FrontendName, FrontendNamed, TargetOk, StringField, NullableField, ArrayField;
    hide NamedField, SizeField;
    HeaderFields(d, m, numbers);
    ContextFields(m);
    FrontendsNamed(m.frontend);
    if [] in m.closureTargets { TargetsRefused(m.closureTargets); } else { TargetsReadBack(m.closureTargets); }
  }

  // ---- rebuilding the graph

  lemma {:induction false} SymbolsReadBack(list: seq<Symbol>, configuration: string, numbers: Numbers)
    requires ExactSizes(numbers) && DistinctKeys(list) && forall s :: s in list ==> Writable(s, configuration)
    ensures ReadSymbols(ValuesOf(list, SymbolValue), configuration, numbers) == Ok(NOTHING.(symbols := list))
  {
    hide ExactSizes, SymbolValue, ReadSymbol, WellIdentified, SourceFits, MergeSymbol, Conflict;
    if list != [] {
      var init, last := list[..|list| - 1], list[|list| - 1];
      assert ValuesOf(list, SymbolValue)[..|list| - 1] == ValuesOf(init, SymbolValue);
      assert list == init + [last];
      forall s | s in init ensures Writable(s, configuration) { assert s in list; }
      SymbolsReadBack(init, configuration, numbers);
      assert last in list;
      SymbolReadBack(last, configuration, numbers);
      forall i | 0 <= i < |init| ensures init[i].key != last.key { assert list[i].key != list[|init|].key; }
    }
  }

  lemma {:induction false} SymbolsRefused(list: seq<Symbol>, configuration: string, numbers: Numbers)
    requires ExactSizes(numbers) && DistinctKeys(list) && forall s :: s in list ==> Printed(s, configuration)
    requires exists s :: s in list && !Writable(s, configuration)
    ensures ReadSymbols(ValuesOf(list, SymbolValue), configuration, numbers).Err?
  {
    hide ExactSizes, SymbolValue, ReadSymbol, Writable, Printed, AddSymbol;
    var init, last := list[..|list| - 1], list[|list| - 1];
    assert ValuesOf(list, SymbolValue)[..|list| - 1] == ValuesOf(init, SymbolValue);
    assert list == init + [last];
    forall s | s in init ensures Printed(s, configuration) { assert s in list; }
    assert last in list;
    if exists s :: s in init && !Writable(s, configuration) {
      SymbolsRefused(init, configuration, numbers);
    } else {
      SymbolReadBack(last, configuration, numbers);
    }
  }

  /** Putting keys in place of positions and finding the positions again changes nothing. */
  lemma PositionedKeyed(symbols: seq<Symbol>, x: Fact<nat>, targets: seq<Symbol>)
    requires DistinctKeys(targets) && InRange(x, |symbols|) && (forall s :: s in symbols ==> s in targets)
    ensures Positioned(targets, Keyed(symbols, x)).Some?
    ensures var y := Positioned(targets, Keyed(symbols, x)).value;
            InRange(y, |targets|) && Keyed(targets, y) == Keyed(symbols, x)
  {
    forall i: nat | i < |symbols|
      ensures Find(targets, KeyAt(symbols, i)).Some?
      ensures KeyAt(targets, Find(targets, KeyAt(symbols, i)).value) == KeyAt(symbols, i)
    {
      assert symbols[i] in targets;
      var j: nat :| j < |targets| && targets[j] == symbols[i];
      FindUnique(targets, j);
    }
  }

  ghost function FactSet(list: seq<Fact<string>>): set<Fact<string>> {
    set x | x in list
  }

  /** Adding a list of facts by key: the graph then says those facts as well. */
  lemma {:induction false} FactsReadBack(list: seq<Fact<string>>, kind: FactKind, c: Contents, symbols: seq<Symbol>)
    requires Valid(c) && (forall s :: s in symbols ==> s in c.symbols)
    requires forall x :: x in list ==> FromFact(symbols, x, kind)
    ensures var r := ReadFacts(ValuesOf(list, FactValue), kind, c);
            && r.Ok? && Valid(r.value) && r.value.symbols == c.symbols
            && ViewOf(r.value) == View(ViewOf(c).symbols, ViewOf(c).facts + FactSet(list))
  {
    hide FactValue, ReadFact, SymbolMap, KeyedFacts, With, Valid, Positioned, Keyed, InRange;
    if list != [] {
      var init, last := list[..|list| - 1], list[|list| - 1];
      assert ValuesOf(list, FactValue)[..|list| - 1] == ValuesOf(init, FactValue);
      assert list == init + [last] && last in list;
      forall x | x in init ensures FromFact(symbols, x, kind) { assert x in list; }
      FactsReadBack(init, kind, c, symbols);
      var d := ReadFacts(ValuesOf(init, FactValue), kind, c).value;
      LastFactReadBack(d, last, kind, symbols);
      assert FactSet(list) == FactSet(init) + {last};
    } else {
      assert FactSet(list) == {};
    }
  }

  ghost predicate FromFact(symbols: seq<Symbol>, x: Fact<string>, kind: FactKind) {
    KindOf(x) == kind && NonEmptyKeys(x) && exists y: Fact<nat> :: InRange(y, |symbols|) && x == Keyed(symbols, y)
  }

  lemma LastFactReadBack(d: Contents, x: Fact<string>, kind: FactKind, symbols: seq<Symbol>)
    requires Valid(d) && (forall s :: s in symbols ==> s in d.symbols) && FromFact(symbols, x, kind)
    ensures ReadFact(FactValue(x), kind) == Ok(x) && Positioned(d.symbols, x).Some?
    ensures var e := With(d, Positioned(d.symbols, x).value);
            Valid(e) && e.symbols == d.symbols && ViewOf(e) == View(ViewOf(d).symbols, ViewOf(d).facts + {x})
  {
    hide FactValue, ReadFact, SymbolMap, KeyedFacts, With, Positioned, Keyed, InRange, NonEmptyKeys;
    FactReadBack(x);
    var y: Fact<nat> :| InRange(y, |symbols|) && x == Keyed(symbols, y);
    ValidKeys(d);
    PositionedKeyed(symbols, y, d.symbols);
    WithView(d, Positioned(d.symbols, x).value);
  }

  lemma WrittenMember(symbols: seq<Symbol>, facts: seq<Fact<nat>>, x: Fact<string>)
    ensures x in WrittenFacts(symbols, facts) <==> x in KeyedList(symbols, facts)
  {
    hide KeyedList;
    SortMembers(WrittenBefore, KeyedList(symbols, facts));
  }

  /** The facts written for one list of the graph. */
  lemma WrittenSpec(c: Contents, facts: seq<Fact<nat>>, kind: FactKind)
    requires Valid(c) && (forall x: Fact<nat> :: x in facts ==> x in c.All())
    requires forall x: Fact<nat> :: x in facts ==> KindOf(Keyed(c.symbols, x)) == kind
    ensures forall x :: x in WrittenFacts(c.symbols, facts) ==> FromFact(c.symbols, x, kind)
    ensures FactSet(WrittenFacts(c.symbols, facts)) == KeyedFacts(c.symbols, facts)
  {
    hide KindOf, WrittenFacts;
    var keyed, written := KeyedList(c.symbols, facts), WrittenFacts(c.symbols, facts);
    forall x ensures x in written <==> x in keyed { WrittenMember(c.symbols, facts, x); }
    forall x: Fact<string> | x in written ensures FromFact(c.symbols, x, kind) && x in KeyedFacts(c.symbols, facts) {
      assert x in keyed;
      var i :| 0 <= i < |facts| && keyed[i] == x;
      assert facts[i] in facts;
      KeysNonEmpty(c, facts[i]);
    }
    forall x | x in KeyedFacts(c.symbols, facts) ensures x in written {
      var y: Fact<nat> :| y in facts && x == Keyed(c.symbols, y);
      var i :| 0 <= i < |facts| && facts[i] == y;
      assert keyed[i] == x;
    }
  }

  lemma KeysNonEmpty(c: Contents, x: Fact<nat>)
    requires Valid(c) && InRange(x, |c.symbols|)
    ensures NonEmptyKeys(Keyed(c.symbols, x))
  {
    forall i: nat | i < |c.symbols| ensures KeyAt(c.symbols, i) != [] { assert Admissible(c.symbols[i]); }
  }

  /** What the reader takes back: a valid graph of one configuration with well-formed identities,
      sizes that JSON numbers hold exactly, and well-formed metadata. */
  ghost predicate MayWrite(c: Contents, m: Metadata) {
    Valid(c) && MetadataOk(m) && forall s :: s in c.symbols ==> Writable(s, m.configurationId)
  }

  /** Every size is a 64-bit value. */
  ghost predicate SizesFit(c: Contents, m: Metadata) {
    m.translationUnits <= WIDEST && forall s :: s in c.symbols ==> SourceFits(s.source, WIDEST)
  }

  lemma SymbolsWritten(symbols: seq<Symbol>)
    requires DistinctKeys(symbols)
    ensures var sorted := Sort(KeyLess, symbols);
            DistinctKeys(sorted) && SymbolMap(sorted) == SymbolMap(symbols) && forall s :: s in sorted <==> s in symbols
  {
    hide KeyLess, Sort;
    var sorted := Sort(KeyLess, symbols);
    SortMembers(KeyLess, symbols);
    KeysAreDistinctSymbols(symbols);
    SortDistinct(KeyLess, symbols);
    forall i, j | 0 <= i < j < |sorted| ensures sorted[i].key != sorted[j].key {
      assert sorted[i] in symbols && sorted[j] in symbols;
      if sorted[i].key == sorted[j].key { SameKeySameSymbol(symbols, sorted[i], sorted[j]); }
    }
    SymbolMapSpec(symbols);
    SymbolMapSpec(sorted);
    var a, b := SymbolMap(sorted), SymbolMap(symbols);
    forall k ensures (k in a <==> k in b) && (k in a && k in b ==> a[k] == b[k]) {
      if k in a { SymbolsFromMap(symbols, a[k]); }
      if k in b { SymbolsFromMap(sorted, b[k]); }
    }
    assert a.Keys == b.Keys;
  }

  lemma KeysAreDistinctSymbols(symbols: seq<Symbol>)
    requires DistinctKeys(symbols)
    ensures Distinct(symbols)
  {
  }

  lemma SameKeySameSymbol(symbols: seq<Symbol>, s: Symbol, t: Symbol)
    requires DistinctKeys(symbols) && s in symbols && t in symbols && s.key == t.key
    ensures s == t
  {
  }

  lemma SymbolsOnlyValid(symbols: seq<Symbol>)
    requires DistinctKeys(symbols) && forall s :: s in symbols ==> Admissible(s)
    ensures Valid(NOTHING.(symbols := symbols))
    ensures ViewOf(NOTHING.(symbols := symbols)) == View(SymbolMap(symbols), {})
  {
  }

  /** The graph that the reader builds from what was written says what the written graph says. */
  lemma GraphReadBack(c: Contents, configuration: string, numbers: Numbers) returns (c0: Contents, c1: Contents, c2: Contents, c3: Contents, c4: Contents)
    requires ExactSizes(numbers) && Valid(c) && forall s :: s in c.symbols ==> Writable(s, configuration)
    ensures ReadSymbols(ValuesOf(Sort(KeyLess, c.symbols), SymbolValue), configuration, numbers) == Ok(c0)
    ensures ReadFacts(ValuesOf(WrittenFacts(c.symbols, c.edges), FactValue), Edges, c0) == Ok(c1)
    ensures ReadFacts(ValuesOf(WrittenFacts(c.symbols, c.roots), FactValue), Roots, c1) == Ok(c2)
    ensures ReadFacts(ValuesOf(WrittenFacts(c.symbols, c.escapes), FactValue), Escapes, c2) == Ok(c3)
    ensures ReadFacts(ValuesOf(WrittenFacts(c.symbols, c.suppressions), FactValue), Suppressions, c3) == Ok(c4)
    ensures Valid(c4) && ViewOf(c4) == ViewOf(c)
  {
    hide ExactSizes, ReadSymbols, ReadFacts, Sort, WrittenFacts, Valid, SymbolMap, KeyedFacts, FactValue, SymbolValue, Keyed, InRange, FromFact;
    hide WellIdentified, SourceFits, ValuesOf;
    ValidKeys(c);
    SymbolsWritten(c.symbols);
    var sorted := Sort(KeyLess, c.symbols);
    c0 := NOTHING.(symbols := sorted);
    SymbolsReadBack(sorted, configuration, numbers);
    SymbolsOnlyValid(sorted);
    ListKinds(c);
    WrittenSpec(c, c.edges, Edges);
    WrittenSpec(c, c.roots, Roots);
    WrittenSpec(c, c.escapes, Escapes);
    WrittenSpec(c, c.suppressions, Suppressions);
    FactsReadBack(WrittenFacts(c.symbols, c.edges), Edges, c0, c.symbols);
    c1 := ReadFacts(ValuesOf(WrittenFacts(c.symbols, c.edges), FactValue), Edges, c0).value;
    FactsReadBack(WrittenFacts(c.symbols, c.roots), Roots, c1, c.symbols);
    c2 := ReadFacts(ValuesOf(WrittenFacts(c.symbols, c.roots), FactValue), Roots, c1).value;
    FactsReadBack(WrittenFacts(c.symbols, c.escapes), Escapes, c2, c.symbols);
    c3 := ReadFacts(ValuesOf(WrittenFacts(c.symbols, c.escapes), FactValue), Escapes, c2).value;
    FactsReadBack(WrittenFacts(c.symbols, c.suppressions), Suppressions, c3, c.symbols);
    c4 := ReadFacts(ValuesOf(WrittenFacts(c.symbols, c.suppressions), FactValue), Suppressions, c3).value;
    KeyedAll(c);
  }

  lemma ListKinds(c: Contents)
    requires Valid(c)
    ensures forall x: Fact<nat> :: x in c.edges ==> x in c.All() && KindOf(Keyed(c.symbols, x)) == Edges
    ensures forall x: Fact<nat> :: x in c.roots ==> x in c.All() && KindOf(Keyed(c.symbols, x)) == Roots
    ensures forall x: Fact<nat> :: x in c.escapes ==> x in c.All() && KindOf(Keyed(c.symbols, x)) == Escapes
    ensures forall x: Fact<nat> :: x in c.suppressions ==> x in c.All() && KindOf(Keyed(c.symbols, x)) == Suppressions
  {
    hide KeyAt, InRange, Distinct;
  }

  // ---- the document

  lemma DocumentField(c: Contents, m: Metadata, ds: seq<string>, i: nat, name: string)
    requires i < |DOCUMENT_KEYS| && DOCUMENT_KEYS[i] == name
    ensures var d := MapOf(DOCUMENT_KEYS, DocumentValues(c, m, ds)); name in d && d[name] == DocumentValues(c, m, ds)[i]
  {
    hide MapOf, Distinct, ContextValues, ValuesOf, WrittenFacts, Sort, SortUnique;
    DocumentKeysDistinct();
    MapOfAt(DOCUMENT_KEYS, DocumentValues(c, m, ds));
  }

  lemma DocumentKeysRequired(c: Contents, m: Metadata, ds: seq<string>)
    ensures var d := MapOf(DOCUMENT_KEYS, DocumentValues(c, m, ds)); RequireKeys(Object(d), DOCUMENT_KEYS) == Ok(d)
  {
    hide MapOf, Distinct, ContextValues, ValuesOf, WrittenFacts, Sort, SortUnique;
    DocumentKeysDistinct();
    MapOfAt(DOCUMENT_KEYS, DocumentValues(c, m, ds));
  }

  lemma SchemaFields(c: Contents, m: Metadata, ds: seq<string>, numbers: Numbers)
    requires ExactSizes(numbers)
    ensures var d := MapOf(DOCUMENT_KEYS, DocumentValues(c, m, ds));
            && SizeField(d, "artifact_schema_version", numbers) == Ok(ARTIFACT_SCHEMA)
            && SizeField(d, "identity_schema_version", numbers) == Ok(IDENTITY_SCHEMA)
  {
    hide MapOf, ContextValues, ValuesOf, WrittenFacts, Sort, SortUnique, FrontendName;
    DocumentField(c, m, ds, 0, "artifact_schema_version");
    DocumentField(c, m, ds, 1, "identity_schema_version");
  }

  lemma DocumentHeader(c: Contents, m: Metadata, ds: seq<string>, numbers: Numbers)
    requires ExactSizes(numbers) && m.configurationId != [] && m.translationUnits <= WIDEST
    ensures var d := MapOf(DOCUMENT_KEYS, DocumentValues(c, m, ds));
            && SizeField(d, "artifact_schema_version", numbers) == Ok(ARTIFACT_SCHEMA)
            && SizeField(d, "identity_schema_version", numbers) == Ok(IDENTITY_SCHEMA)
            && (MetadataOk(m) ==> ReadMetadata(d, numbers) == Ok(m))
            && (!MetadataOk(m) ==> ReadMetadata(d, numbers).Err?)
  {
    hide MapOf, ContextValues, ValuesOf, WrittenFacts, Sort, SortUnique, FrontendName, ReadMetadata, MetadataOk, ExactSizes;
    SchemaFields(c, m, ds, numbers);
    DocumentField(c, m, ds, 2, "configuration_id");
    DocumentField(c, m, ds, 3, "analysis_context");
    DocumentField(c, m, ds, 4, "frontend");
    DocumentField(c, m, ds, 5, "translation_units");
    MetadataReadBack(MapOf(DOCUMENT_KEYS, DocumentValues(c, m, ds)), m, numbers);
  }

  lemma DocumentLists(c: Contents, m: Metadata, ds: seq<string>)
    ensures var d := MapOf(DOCUMENT_KEYS, DocumentValues(c, m, ds));
            && ArrayField(d, "symbols") == Ok(ValuesOf(Sort(KeyLess, c.symbols), SymbolValue))
            && ArrayField(d, "edges") == Ok(ValuesOf(WrittenFacts(c.symbols, c.edges), FactValue))
            && ArrayField(d, "roots") == Ok(ValuesOf(WrittenFacts(c.symbols, c.roots), FactValue))
            && ArrayField(d, "escapes") == Ok(ValuesOf(WrittenFacts(c.symbols, c.escapes), FactValue))
            && ArrayField(d, "suppressions") == Ok(ValuesOf(WrittenFacts(c.symbols, c.suppressions), FactValue))
            && ArrayField(d, "diagnostics") == Ok(ValuesOf(SortUnique(StringLess, ds), StringValue))
  {
    hide MapOf, ContextValues, ValuesOf, WrittenFacts, Sort, SortUnique, FrontendName;
    DocumentField(c, m, ds, 6, "symbols");
    DocumentField(c, m, ds, 7, "edges");
    DocumentField(c, m, ds, 8, "roots");
    DocumentField(c, m, ds, 9, "escapes");
    DocumentField(c, m, ds, 10, "suppressions");
    DocumentField(c, m, ds, 11, "diagnostics");
  }

  lemma DocumentReadBack(c: Contents, m: Metadata, ds: seq<string>, numbers: Numbers)
    requires ExactSizes(numbers) && MayWrite(c, m)
    ensures ReadDocument(DocumentValue(c, m, ds), numbers)
      == Ok(Artifact(Canonicalize(c), m, SortUnique(StringLess, ds)))
  {
    hide MapOf, DocumentValues, RequireKeys, SizeField, ArrayField, ReadMetadata, ReadSymbols, ReadFacts, ReadStrings, ExactSizes;
    hide Canonicalize, Valid, ValuesOf, WrittenFacts, Sort, SortUnique, ViewOf, Writable, MetadataOk;
    DocumentKeysRequired(c, m, ds);
    MetadataWide(m);
    DocumentHeader(c, m, ds, numbers);
    DocumentLists(c, m, ds);
    var c0, c1, c2, c3, c4 := GraphReadBack(c, m.configurationId, numbers);
    CanonicalNormalForm(c4, c);
    StringsReadBack(SortUnique(StringLess, ds));
  }

  lemma DocumentRefused(c: Contents, m: Metadata, ds: seq<string>, numbers: Numbers)
    requires ExactSizes(numbers) && Valid(c) && !MayWrite(c, m)
    requires m.configurationId != [] && m.translationUnits <= WIDEST && forall s :: s in c.symbols ==> Printed(s, m.configurationId)
    ensures ReadDocument(DocumentValue(c, m, ds), numbers).Err?
  {
    hide MapOf, DocumentValues, RequireKeys, SizeField, ArrayField, ReadMetadata, ReadSymbols, ReadFacts, ReadStrings, ExactSizes;
    hide Canonicalize, ValuesOf, WrittenFacts, Sort, SortUnique, Writable, Printed, MetadataOk, DistinctKeys;
    DocumentKeysRequired(c, m, ds);
    DocumentHeader(c, m, ds, numbers);
    DocumentLists(c, m, ds);
    if MetadataOk(m) {
      SymbolsWritten(c.symbols);
      var sorted := Sort(KeyLess, c.symbols);
      var s :| s in c.symbols && !Writable(s, m.configurationId);
      assert s in sorted;
      SymbolsRefused(sorted, m.configurationId, numbers);
    }
  }

  lemma MayWriteValid(c: Contents, m: Metadata)
    requires MayWrite(c, m)
    ensures Valid(c)
  {
  }

  lemma WrittenPrinted(c: Contents, m: Metadata, ds: seq<string>)
    requires Valid(c) && SizesFit(c, m) && Write(c, m, ds).Ok?
    ensures m.configurationId != [] && forall s :: s in c.symbols ==> Printed(s, m.configurationId)
  {
    hide SourceFits;
    forall s | s in c.symbols ensures Admissible(s) {}
  }

  lemma MayWriteWritten(c: Contents, m: Metadata, ds: seq<string>)
    requires MayWrite(c, m)
    ensures Valid(c) && SizesFit(c, m) && Write(c, m, ds).Ok?
  {
    hide DocumentTree, TreeText, Valid, SourceFits, WellIdentified;
  }

  /** What was written is taken back exactly when the keys are those of the identities, the sizes
      exact JSON numbers, and the metadata well-formed: the writer asks for none of these. Then
      reading gives the graph in canonical form, the same metadata, and the diagnostics sorted and
      without duplicates. */
  lemma WrittenReadIff(c: Contents, m: Metadata, ds: seq<string>, numbers: Numbers)
    requires ExactSizes(numbers) && Valid(c) && SizesFit(c, m) && Write(c, m, ds).Ok?
    ensures Read(Write(c, m, ds).value, numbers).Ok? <==> MayWrite(c, m)
    ensures MayWrite(c, m) ==>
      Read(Write(c, m, ds).value, numbers) == Ok(Artifact(Canonicalize(c), m, SortUnique(StringLess, ds)))
  {
    hide DocumentTree, TreeText, DocumentValue, ReadDocument, ParseDocument, ExactSizes, MayWrite, Canonicalize, SortUnique;
    hide SourceFits, Denotes, Valid, Printed;
    WrittenPrinted(c, m, ds);
    DocumentDenotes(c, m, ds, numbers);
    PrintedParses(DocumentTree(c, m, ds), DocumentValue(c, m, ds), "\n", numbers.representable);
    if MayWrite(c, m) { DocumentReadBack(c, m, ds, numbers); } else { DocumentRefused(c, m, ds, numbers); }
  }

  /** A document that is written and refused: its target has an id but no name and no kind. */
  lemma WrittenRefused(numbers: Numbers)
    requires ExactSizes(numbers)
    ensures var m := Metadata("debug", "", "tool", "", "", [], AstJson, 0);
            Write(NOTHING, m, []).Ok? && Read(Write(NOTHING, m, []).value, numbers).Err?
  {
    hide DocumentTree, TreeText, ReadDocument, ParseDocument, ExactSizes;
    var m := Metadata("debug", "", "tool", "", "", [], AstJson, 0);
    SymbolsOnlyValid([]);
    assert NOTHING.(symbols := []) == NOTHING;
    assert !TargetOk(m);
    WrittenReadIff(NOTHING, m, [], numbers);
  }

  /** Reading what was written gives the graph in canonical form, the same metadata, and the
      diagnostics sorted and without duplicates. */
  lemma ArtifactRoundTrip(c: Contents, m: Metadata, ds: seq<string>, numbers: Numbers)
    requires ExactSizes(numbers) && MayWrite(c, m)
    ensures Write(c, m, ds).Ok?
    ensures Read(Write(c, m, ds).value, numbers) == Ok(Artifact(Canonicalize(c), m, SortUnique(StringLess, ds)))
  {
    hide *;
    MayWriteWritten(c, m, ds);
    WrittenReadIff(c, m, ds, numbers);
  }
}
