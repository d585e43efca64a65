/** Merging symbols that share a key, and merging whole graphs. */
module Merging {
  import opened Wrappers
  import opened Orders
  import opened Symbols
  import opened Facts

  /** The field on which two declarations of one identity disagree. */
  datatype Field =
    | KindField | QualifiedNameField | NameField | OwningClassField | LinkageDomainField
    | ConfigurationField | LinkageNameField | TranslationUnitField | UsrField

  datatype GraphError = EmptyKey | ExcludedSymbol | Incompatible(field: Field) | OutOfRange

  predicate Agree(a: string, b: string) {
    a == [] || b == [] || a == b
  }

  /** The first disagreement, in the order in which the fields are compared. */
  function Conflict(t: Symbol, s: Symbol): Option<Field> {
    if t.kind != s.kind then Some(KindField)
    else if !Agree(t.qualifiedName, s.qualifiedName) then Some(QualifiedNameField)
    else if !Agree(t.name, s.name) then Some(NameField)
    else if !Agree(t.className, s.className) then Some(OwningClassField)
    else if t.internalLinkage != s.internalLinkage then Some(LinkageDomainField)
    else if t.identity.configuration != s.identity.configuration then Some(ConfigurationField)
    else if t.identity.linkageName != s.identity.linkageName then Some(LinkageNameField)
    else if t.identity.translationUnit != s.identity.translationUnit then Some(TranslationUnitField)
    else if !Agree(t.identity.usr, s.identity.usr) then Some(UsrField)
    else None
  }

  predicate Compatible(t: Symbol, s: Symbol) {
    Conflict(t, s).None?
  }

  function OrElse(a: string, b: string): string {
    if a == [] then b else a
  }

  function MergeIdentity(t: Identity, s: Identity): Identity {
    var anchor :=
      if t.fallbackAnchor == [] || (s.fallbackAnchor != [] && StringLess(s.fallbackAnchor, t.fallbackAnchor))
      then s.fallbackAnchor else t.fallbackAnchor;
    t.(usr := OrElse(t.usr, s.usr),
       fallbackAnchor := anchor,
       quality := if s.quality == Stable then Stable else t.quality)
  }

  /** Lexicographic order of (file, line, column, offset). */
  predicate SourceBefore(a: SymbolSource, b: SymbolSource) {
    var p := (if a.expansion.Some? then a.expansion.value else a.spelling).location;
    var q := (if b.expansion.Some? then b.expansion.value else b.spelling).location;
    StringLess(p.file, q.file) || (p.file == q.file &&
      (p.line < q.line || (p.line == q.line &&
        (p.column < q.column || (p.column == q.column && p.offset < q.offset)))))
  }

  function MergeSymbol(t: Symbol, s: Symbol): Symbol {
    var strongerScope := ScopeRank(s.scope) > ScopeRank(t.scope);
    var preferredDefinition := !t.defined && s.defined;
    var preferredScope := t.defined == s.defined && strongerScope;
    var canonicalPeer := t.defined == s.defined && t.scope == s.scope && SourceBefore(s.source, t.source);
    var preferred := preferredDefinition || preferredScope || canonicalPeer;
    t.(identity := MergeIdentity(t.identity, s.identity),
       defined := t.defined || s.defined,
       scope := if strongerScope then s.scope else t.scope,
       internalLinkage := t.internalLinkage || s.internalLinkage,
       isVirtual := t.isVirtual || s.isVirtual,
       source := if (PrimaryExtent(t).location.file == [] || preferred) && PrimaryExtent(s).location.file != []
                 then s.source else t.source,
       qualifiedName := OrElse(t.qualifiedName, s.qualifiedName),
       className := OrElse(t.className, s.className),
       signature := if t.signature == [] || preferred then s.signature else t.signature)
  }

  // ---- one symbol

  function AddSymbol(c: Contents, s: Symbol): Result<(Contents, nat), GraphError> {
    if s.key == [] then Err(EmptyKey)
    else if s.scope == Excluded then Err(ExcludedSymbol)
    else
      match Find(c.symbols, s.key)
      case Some(i) =>
        (match Conflict(c.symbols[i], s)
         case Some(field) => Err(Incompatible(field))
         case None => Ok((c.(symbols := c.symbols[i := MergeSymbol(c.symbols[i], s)]), i)))
      case None => Ok((c.(symbols := c.symbols + [s]), |c.symbols|))
  }

  /** The symbol map after s has been added. */
  function Absorb(m: map<string, Symbol>, s: Symbol): map<string, Symbol> {
    m[s.key := if s.key in m then MergeSymbol(m[s.key], s) else s]
  }

  lemma {:induction false} SymbolMapUpdate(symbols: seq<Symbol>, i: nat, s: Symbol)
    requires DistinctKeys(symbols) && i < |symbols| && s.key == symbols[i].key
    ensures SymbolMap(symbols[i := s]) == SymbolMap(symbols)[s.key := s]
  {
    var init, last := symbols[..|symbols| - 1], symbols[|symbols| - 1];
    var t := symbols[i := s];
    if i < |init| {
      assert t[..|t| - 1] == init[i := s];
      SymbolMapUpdate(init, i, s);
    } else {
      assert t[..|t| - 1] == init;
    }
  }

  lemma KeyedSame(a: seq<Symbol>, b: seq<Symbol>, x: Fact<nat>)
    requires InRange(x, |a|) && |a| <= |b| && forall i :: 0 <= i < |a| ==> a[i].key == b[i].key
    ensures Keyed(a, x) == Keyed(b, x)
  {
  }

  lemma KeyedFactsSame(a: seq<Symbol>, b: seq<Symbol>, facts: seq<Fact<nat>>)
    requires forall x: Fact<nat> :: x in facts ==> InRange(x, |a|)
    requires |a| <= |b| && forall i :: 0 <= i < |a| ==> a[i].key == b[i].key
    ensures KeyedFacts(a, facts) == KeyedFacts(b, facts)
  {
    forall x: Fact<nat> | x in facts ensures Keyed(a, x) == Keyed(b, x) { KeyedSame(a, b, x); }
  }

  /** Symbols keep their positions and keys; facts are untouched. */
  ghost predicate Grows(c: Contents, d: Contents) {
    && |c.symbols| <= |d.symbols|
    && (forall i :: 0 <= i < |c.symbols| ==> c.symbols[i].key == d.symbols[i].key)
    && d.edges == c.edges && d.roots == c.roots && d.escapes == c.escapes && d.suppressions == c.suppressions
  }

  lemma AddSymbolGrows(c: Contents, s: Symbol)
    requires Valid(c) && Admissible(s) && AddSymbol(c, s).Ok?
    ensures var (d, id) := AddSymbol(c, s).value;
            Grows(c, d) && id < |d.symbols| && d.symbols[id].key == s.key &&
            DistinctKeys(d.symbols) && forall i :: 0 <= i < |d.symbols| ==> Admissible(d.symbols[i])
  {
    hide KeyedFacts, SymbolMap, MergeIdentity, SourceBefore, PrimaryExtent;
  }

  lemma GrowsValid(c: Contents, d: Contents)
    requires Valid(c) && Grows(c, d) && DistinctKeys(d.symbols)
    requires forall i :: 0 <= i < |d.symbols| ==> Admissible(d.symbols[i])
    ensures Valid(d)
  {
    assert d.All() == c.All();
  }

  lemma AddSymbolMap(c: Contents, s: Symbol)
    requires Valid(c) && Admissible(s) && AddSymbol(c, s).Ok?
    ensures SymbolMap(AddSymbol(c, s).value.0.symbols) == Absorb(SymbolMap(c.symbols), s)
  {
    hide Conflict, MergeIdentity, SourceBefore, PrimaryExtent;
    FindInMap(c.symbols, s.key);
    match Find(c.symbols, s.key)
    case Some(i) => SymbolMapUpdate(c.symbols, i, MergeSymbol(c.symbols[i], s));
    case None =>
      var d := AddSymbol(c, s).value.0;
      assert d.symbols[..|d.symbols| - 1] == c.symbols;
  }

  /** Adding a symbol fails exactly when its key is taken by an incompatible one; otherwise it
      changes the view at that key only. */
  lemma AddSymbolView(c: Contents, s: Symbol)
    requires Valid(c) && Admissible(s)
    ensures AddSymbol(c, s).Ok? <==> (s.key in ViewOf(c).symbols ==> Compatible(ViewOf(c).symbols[s.key], s))
    ensures AddSymbol(c, s).Ok? ==>
              var (d, id) := AddSymbol(c, s).value;
              Valid(d) && Grows(c, d) && id < |d.symbols| && d.symbols[id].key == s.key &&
              ViewOf(d) == View(Absorb(ViewOf(c).symbols, s), ViewOf(c).facts)
  {
    hide MergeSymbol, SymbolMap, Absorb, KeyedFacts;
    FindInMap(c.symbols, s.key);
    if AddSymbol(c, s).Ok? {
      var (d, id) := AddSymbol(c, s).value;
      AddSymbolGrows(c, s);
      GrowsValid(c, d);
      AddSymbolMap(c, s);
      assert d.All() == c.All();
      KeyedFactsSame(c.symbols, d.symbols, c.All());
    }
  }

  // ---- whole graphs

  /** The state and the new positions after adding symbols one by one, and the first error.
      As in the program, symbols added before an error stay. */
  datatype Progress = Progress(contents: Contents, positions: seq<nat>, error: Option<GraphError>)

  function AddSymbols(c: Contents, symbols: seq<Symbol>): Progress {
    if symbols == [] then Progress(c, [], None)
    else
      var p := AddSymbols(c, symbols[..|symbols| - 1]);
      if p.error.Some? then p
      else
        match AddSymbol(p.contents, symbols[|symbols| - 1])
        case Ok((d, id)) => Progress(d, p.positions + [id], None)
        case Err(e) => p.(error := Some(e))
  }

  function Move(positions: seq<nat>, i: nat): nat {
    if i < |positions| then positions[i] else 0
  }

  function Moved(positions: seq<nat>, x: Fact<nat>): Fact<nat> {
    match x
    case Edge(from, to, k, e) => Edge(Move(positions, from), Move(positions, to), k, e)
    case Root(symbol, k, e) => Root(Move(positions, symbol), k, e)
    case Escape(symbol, origin, k, e) =>
      Escape(Move(positions, symbol), if origin.Some? then Some(Move(positions, origin.value)) else None, k, e)
    case Suppression(symbol, e) => Suppression(Move(positions, symbol), e)
  }

  function WithAll(c: Contents, positions: seq<nat>, facts: seq<Fact<nat>>): Contents {
    if facts == [] then c
    else With(WithAll(c, positions, facts[..|facts| - 1]), Moved(positions, facts[|facts| - 1]))
  }

  function Merge(d: Contents, s: Contents): Result<Contents, GraphError> {
    var p := AddSymbols(d, s.symbols);
    if p.error.Some? then Err(p.error.value) else Ok(WithAll(p.contents, p.positions, s.All()))
  }

  // ---- merging by key

  ghost predicate ViewCompatible(d: map<string, Symbol>, s: map<string, Symbol>) {
    forall k :: k in d && k in s ==> Compatible(d[k], s[k])
  }

  function MergeSymbols(d: map<string, Symbol>, s: map<string, Symbol>): map<string, Symbol> {
    map k | k in d.Keys + s.Keys ::
      if k in d then (if k in s then MergeSymbol(d[k], s[k]) else d[k]) else s[k]
  }

  function MergeView(d: View, s: View): View {
    View(MergeSymbols(d.symbols, s.symbols), d.facts + s.facts)
  }

  lemma MergeSymbolsStep(d: map<string, Symbol>, m: map<string, Symbol>, s: Symbol)
    requires s.key !in m
    ensures MergeSymbols(d, m[s.key := s]) == Absorb(MergeSymbols(d, m), s)
    ensures s.key in MergeSymbols(d, m) <==> s.key in d
    ensures s.key in d ==> MergeSymbols(d, m)[s.key] == d[s.key]
    ensures ViewCompatible(d, m[s.key := s]) <==> ViewCompatible(d, m) && (s.key in d ==> Compatible(d[s.key], s))
  {
    hide MergeSymbol, Compatible;
    var n := m[s.key := s];
    assert MergeSymbols(d, n).Keys == Absorb(MergeSymbols(d, m), s).Keys;
    if ViewCompatible(d, n) {
      forall k | k in d && k in m ensures Compatible(d[k], m[k]) { assert n[k] == m[k]; }
      assert s.key in n;
    }
  }

  lemma GrowsTrans(c: Contents, d: Contents, e: Contents)
    requires Grows(c, d) && Grows(d, e)
    ensures Grows(c, e)
  {
  }

  ghost predicate Placed(c: Contents, positions: seq<nat>, symbols: seq<Symbol>) {
    && |positions| == |symbols|
    && forall i :: 0 <= i < |positions| ==> positions[i] < |c.symbols| && c.symbols[positions[i]].key == symbols[i].key
  }

  lemma SymbolMapLast(symbols: seq<Symbol>)
    requires DistinctKeys(symbols) && symbols != []
    ensures var last := symbols[|symbols| - 1];
            SymbolMap(symbols) == SymbolMap(symbols[..|symbols| - 1])[last.key := last]
            && last.key !in SymbolMap(symbols[..|symbols| - 1])
  {
    SymbolMapSpec(symbols[..|symbols| - 1]);
  }

  /** What adding a list of distinct symbols does. */
  ghost predicate Added(c: Contents, symbols: seq<Symbol>, p: Progress) {
    && Valid(p.contents) && Grows(c, p.contents)
    && (p.error.None? <==> ViewCompatible(SymbolMap(c.symbols), SymbolMap(symbols)))
    && (p.error.None? ==>
          && Placed(p.contents, p.positions, symbols)
          && SymbolMap(p.contents.symbols) == MergeSymbols(SymbolMap(c.symbols), SymbolMap(symbols)))
  }

  lemma PlacedNext(c: Contents, d: Contents, positions: seq<nat>, symbols: seq<Symbol>, id: nat)
    requires symbols != [] && Placed(c, positions, symbols[..|symbols| - 1]) && Grows(c, d)
    requires id < |d.symbols| && d.symbols[id].key == symbols[|symbols| - 1].key
    ensures Placed(d, positions + [id], symbols)
  {
  }

  lemma AddedNext(c: Contents, symbols: seq<Symbol>, p: Progress)
    requires DistinctKeys(symbols) && symbols != [] && Admissible(symbols[|symbols| - 1])
    requires Added(c, symbols[..|symbols| - 1], p) && p.error.None?
    ensures match AddSymbol(p.contents, symbols[|symbols| - 1])
            case Ok((d, id)) => Added(c, symbols, Progress(d, p.positions + [id], None))
            case Err(e) => Added(c, symbols, p.(error := Some(e)))
  {
    hide Valid, Grows, DistinctKeys, Placed, MergeSymbols, AddSymbol, Absorb, Compatible, SymbolMap, ViewCompatible, Admissible, KeyedFacts;
    var init, last := symbols[..|symbols| - 1], symbols[|symbols| - 1];
    SymbolMapLast(symbols);
    MergeSymbolsStep(SymbolMap(c.symbols), SymbolMap(init), last);
    AddSymbolView(p.contents, last);
    if AddSymbol(p.contents, last).Ok? {
      var (d, id) := AddSymbol(p.contents, last).value;
      GrowsTrans(c, p.contents, d);
      PlacedNext(p.contents, d, p.positions, symbols, id);
    }
  }

  lemma {:induction false} AddSymbolsView(c: Contents, symbols: seq<Symbol>)
    requires Valid(c) && DistinctKeys(symbols) && forall i :: 0 <= i < |symbols| ==> Admissible(symbols[i])
    ensures Added(c, symbols, AddSymbols(c, symbols))
  {
    if symbols == [] {
      assert MergeSymbols(SymbolMap(c.symbols), map[]) == SymbolMap(c.symbols);
    } else {
      hide Valid, Grows, Placed, MergeSymbols, AddSymbol, Compatible;
      var init := symbols[..|symbols| - 1];
      AddSymbolsView(c, init);
      if AddSymbols(c, init).error.None? {
        AddedNext(c, symbols, AddSymbols(c, init));
      } else {
        SymbolMapLast(symbols);
        MergeSymbolsStep(SymbolMap(c.symbols), SymbolMap(init), symbols[|symbols| - 1]);
      }
    }
  }

  lemma MovedKeyed(c: Contents, positions: seq<nat>, symbols: seq<Symbol>, x: Fact<nat>)
    requires Placed(c, positions, symbols) && InRange(x, |symbols|)
    ensures InRange(Moved(positions, x), |c.symbols|)
    ensures Keyed(c.symbols, Moved(positions, x)) == Keyed(symbols, x)
  {
  }

  lemma {:induction false} WithAllView(c: Contents, positions: seq<nat>, symbols: seq<Symbol>, facts: seq<Fact<nat>>)
    requires Valid(c) && Placed(c, positions, symbols) && forall x: Fact<nat> :: x in facts ==> InRange(x, |symbols|)
    ensures var d := WithAll(c, positions, facts);
            && Valid(d) && d.symbols == c.symbols
            && ViewOf(d) == View(ViewOf(c).symbols, ViewOf(c).facts + KeyedFacts(symbols, facts))
  {
    hide Valid, Keyed, InRange, SymbolMap, Moved;
    if facts != [] {
      var init, last := facts[..|facts| - 1], facts[|facts| - 1];
      assert facts == init + [last];
      WithAllView(c, positions, symbols, init);
      MovedKeyed(c, positions, symbols, last);
      WithView(WithAll(c, positions, init), Moved(positions, last));
      assert KeyedFacts(symbols, facts) == KeyedFacts(symbols, init) + {Keyed(symbols, last)};
    }
  }

  /** Merging graphs is merging their views: it fails exactly when two symbols with one key are
      incompatible, and otherwise joins symbols by key and unites the facts by key. */
  lemma MergeRefinesView(d: Contents, s: Contents)
    requires Valid(d) && Valid(s)
    ensures Merge(d, s).Ok? <==> ViewCompatible(ViewOf(d).symbols, ViewOf(s).symbols)
    ensures Merge(d, s).Ok? ==> Valid(Merge(d, s).value) && ViewOf(Merge(d, s).value) == MergeView(ViewOf(d), ViewOf(s))
  {
    hide SymbolMap, MergeSymbols, ViewCompatible;
    AddSymbolsView(d, s.symbols);
    var p := AddSymbols(d, s.symbols);
    if p.error.None? {
      WithAllView(p.contents, p.positions, s.symbols, s.All());
      assert p.contents.All() == d.All();
      KeyedFactsSame(d.symbols, p.contents.symbols, d.All());
    }
  }
}
