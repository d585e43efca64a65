/** When two declarations of one key are accepted as one entity, and what is taken from which, in
    terms of their fields alone. */
module Declarations {
  import opened Wrappers
  import opened Orders
  import opened Symbols
  import opened Facts
  import opened Merging

  // ---- acceptance

  /** A text that leaves nothing to be said: each of the others is missing or the same. */
  predicate Completes(whole: string, part: string) {
    part == [] || part == whole
  }

  ghost predicate OneText(a: string, b: string) {
    exists whole :: Completes(whole, a) && Completes(whole, b)
  }

  predicate SameDomain(t: Symbol, s: Symbol) {
    && t.kind == s.kind && t.internalLinkage == s.internalLinkage
    && t.identity.configuration == s.identity.configuration
    && t.identity.linkageName == s.identity.linkageName
    && t.identity.translationUnit == s.identity.translationUnit
  }

  /** All that is compared, the name aside. */
  ghost predicate OneEntityButName(t: Symbol, s: Symbol) {
    && SameDomain(t, s)
    && OneText(t.qualifiedName, s.qualifiedName) && OneText(t.className, s.className) && OneText(t.identity.usr, s.identity.usr)
  }

  ghost predicate OneEntity(t: Symbol, s: Symbol) {
    OneEntityButName(t, s) && OneText(t.name, s.name)
  }

  lemma OneTextIff(a: string, b: string)
    ensures OneText(a, b) <==> Agree(a, b)
  {
    if Agree(a, b) {
      assert Completes(if a == [] then b else a, a) && Completes(if a == [] then b else a, b);
    }
  }

  /** Two declarations are compatible exactly when kind, linkage and identity domain are equal and one
      text completes both in each name. */
  lemma CompatibleIff(t: Symbol, s: Symbol)
    ensures Compatible(t, s) <==> OneEntity(t, s)
  {
    hide OneText, Agree;
    OneTextIff(t.qualifiedName, s.qualifiedName);
    OneTextIff(t.name, s.name);
    OneTextIff(t.className, s.className);
    OneTextIff(t.identity.usr, s.identity.usr);
  }

  /** A declaration is accepted exactly when it has a key and a scope other than excluded, and is of
      one entity with the symbol that has its key, if there is one. */
  lemma AddedIff(c: Contents, s: Symbol)
    requires Valid(c)
    ensures AddSymbol(c, s).Ok? <==>
      s.key != [] && s.scope != Excluded && forall t :: t in c.symbols && t.key == s.key ==> OneEntity(t, s)
  {
    hide OneEntity, Conflict, MergeSymbol;
    match Find(c.symbols, s.key)
    case Some(i) =>
      CompatibleIff(c.symbols[i], s);
      forall t | t in c.symbols && t.key == s.key ensures t == c.symbols[i] {
        var j :| 0 <= j < |c.symbols| && c.symbols[j] == t;
        assert DistinctKeys(c.symbols);
      }
    case None =>
  }

  /** Other values in the fields that are not compared. */
  function Varied(s: Symbol, d: Symbol): Symbol {
    s.(defined := d.defined, isVirtual := d.isVirtual, scope := d.scope, signature := d.signature, source := d.source,
       identity := s.identity.(fallbackAnchor := d.identity.fallbackAnchor, quality := d.identity.quality))
  }

  function Alone(s: Symbol): Contents {
    NOTHING.(symbols := [s])
  }

  /** Whether one declares or defines, virtuality, scope, signature, place, fallback anchor and quality
      have no say in whether two declarations are accepted as one. */
  lemma NoSay(t: Symbol, s: Symbol, d: Symbol, e: Symbol)
    requires t.key == s.key && Admissible(t) && Admissible(s) && d.scope != Excluded && e.scope != Excluded
    ensures AddSymbol(Alone(Varied(t, d)), Varied(s, e)).Ok? <==> AddSymbol(Alone(t), s).Ok?
  {
    hide OneText, AddSymbol;
    AloneValid(t);
    AloneValid(Varied(t, d));
    AddedIff(Alone(t), s);
    AddedIff(Alone(Varied(t, d)), Varied(s, e));
    assert OneEntity(Varied(t, d), Varied(s, e)) <==> OneEntity(t, s);
  }

  lemma AloneValid(s: Symbol)
    requires Admissible(s)
    ensures Valid(Alone(s)) && forall t :: t in Alone(s).symbols <==> t == s
  {
  }

  // ---- the field that is named in a refusal

  /** The place of a field in the order in which they are compared. */
  function Turn(f: Field): nat {
    match f
    case KindField => 0 case QualifiedNameField => 1 case NameField => 2 case OwningClassField => 3
    case LinkageDomainField => 4 case ConfigurationField => 5 case LinkageNameField => 6
    case TranslationUnitField => 7 case UsrField => 8
  }

  ghost predicate Differ(t: Symbol, s: Symbol, f: Field) {
    match f
    case KindField => t.kind != s.kind
    case QualifiedNameField => !OneText(t.qualifiedName, s.qualifiedName)
    case NameField => !OneText(t.name, s.name)
    case OwningClassField => !OneText(t.className, s.className)
    case LinkageDomainField => t.internalLinkage != s.internalLinkage
    case ConfigurationField => t.identity.configuration != s.identity.configuration
    case LinkageNameField => t.identity.linkageName != s.identity.linkageName
    case TranslationUnitField => t.identity.translationUnit != s.identity.translationUnit
    case UsrField => !OneText(t.identity.usr, s.identity.usr)
  }

  /** A refusal names the first field in which the two differ. */
  lemma ConflictIsFirst(t: Symbol, s: Symbol, f: Field)
    ensures Conflict(t, s) == Some(f) <==> Differ(t, s, f) && forall g :: Turn(g) < Turn(f) ==> !Differ(t, s, g)
  {
    hide OneText, Agree;
    OneTextIff(t.qualifiedName, s.qualifiedName);
    OneTextIff(t.name, s.name);
    OneTextIff(t.className, s.className);
    OneTextIff(t.identity.usr, s.identity.usr);
    match Conflict(t, s)
    case None =>
    case Some(c) =>
      assert Differ(t, s, c) && forall g :: Turn(g) < Turn(c) ==> !Differ(t, s, g);
      assert Turn(f) == Turn(c) ==> f == c;
  }

  // ---- what is merged

  /** The scope of a merged symbol is that of the two that comes first in this order: reportable,
      indexed, external and opaque, excluded. */
  lemma MergedScope(t: Symbol, s: Symbol)
    ensures MergeSymbol(t, s).scope ==
      if t.scope == Reportable || s.scope == Reportable then Reportable
      else if t.scope == Indexed || s.scope == Indexed then Indexed
      else if t.scope == ExternalOpaque || s.scope == ExternalOpaque then ExternalOpaque
      else Excluded
  {
    hide SourceBefore;
  }

  function PlaceOf(s: SymbolSource): SourcePoint {
    if s.expansion.Some? then s.expansion.value.location else s.spelling.location
  }

  /** Places are compared by file, then line, then column, then offset: one is before another exactly
      when it is smaller in the first of these in which they differ. */
  lemma PlaceOrder(a: SymbolSource, b: SymbolSource)
    ensures var p, q := PlaceOf(a), PlaceOf(b);
            SourceBefore(a, b) <==>
              if p.file != q.file then StringLess(p.file, q.file)
              else if p.line != q.line then p.line < q.line
              else if p.column != q.column then p.column < q.column
              else p.offset < q.offset
  {
    StringTotal(PlaceOf(a).file, PlaceOf(b).file);
  }
}
