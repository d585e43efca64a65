/** The index of a list of translation units, as a function of their facts: nothing here knows
    about caches. */
module Indexing {
  import opened Wrappers
  import opened Orders
  import opened Symbols
  import opened Facts
  import opened Merging
  import opened Canonical
  import opened Providers
  import opened KeyedProviders
  import opened Dispatch
  import opened CacheKey
  import opened Cache
  import opened Units

  // ---- all units together

  datatype Side = Side(matches: seq<bool>, records: Units.Records, diagnostics: seq<string>)

  function OrMatches(a: seq<bool>, b: seq<bool>): seq<bool>
    requires |a| == |b|
  {
    seq(|a|, i requires 0 <= i < |a| => a[i] || b[i])
  }

  function AddSide(s: Side, x: Extraction): Side
    requires |s.matches| == |x.matches|
  {
    Side(OrMatches(s.matches, x.matches), MergeRecords(s.records, x.records), s.diagnostics + x.diagnostics)
  }

  function NoSide(rules: nat): Side {
    Side(seq(rules, _ => false), map[], [])
  }

  datatype Totals = Totals(view: View, side: Side)

  ghost function AddUnit(t: Totals, x: Extraction): Option<Totals> {
    if |t.side.matches| == |x.matches| && ViewCompatible(t.view.symbols, ViewOf(x.graph).symbols)
    then Some(Totals(MergeView(t.view, ViewOf(x.graph)), AddSide(t.side, x)))
    else None
  }

  /** The units in order; none if one cannot be extracted or contradicts those before it. */
  ghost function AddUnits(units: seq<KeyInputs>, files: Files, extract: Extractor, rules: nat): Option<Totals> {
    if units == [] then Some(Totals(View(map[], {}), NoSide(rules)))
    else
      match AddUnits(units[..|units| - 1], files, extract, rules) case None => None case Some(t) =>
      match extract(units[|units| - 1], files) case None => None case Some(x) => AddUnit(t, x)
  }

  lemma {:induction false} AddUnitsStops(units: seq<KeyInputs>, files: Files, extract: Extractor, rules: nat, i: nat)
    requires i <= |units| && AddUnits(units[..i], files, extract, rules).None?
    ensures AddUnits(units, files, extract, rules).None?
  {
    hide AddUnit;
    if i < |units| {
      assert units[..|units| - 1][..i] == units[..i];
      AddUnitsStops(units[..|units| - 1], files, extract, rules, i);
    } else {
      assert units[..i] == units;
    }
  }

  // ---- finishing

  datatype Options = Options(
    manualRoots: seq<string>, policies: seq<Policy>, publicHeaders: seq<string>, astFilter: string, requireApi: bool)

  /** Nothing is indexed without a command, nor a library that must have a public API and names
      none. */
  predicate Refused(units: seq<KeyInputs>, o: Options) {
    units == [] || (o.requireApi && o.publicHeaders == [] && forall p :: p in o.policies ==> p.publicApi == [])
  }

  predicate NamedBy(s: Symbol, requested: string) {
    s.qualifiedName == requested || s.identity.linkageName == requested || s.key == requested
  }

  function ManualEvidence(requested: string): Evidence {
    Evidence("command_line", "matched configured root: " + requested)
  }

  ghost function ManualFacts(m: map<string, Symbol>, requested: seq<string>): set<Fact<string>> {
    set k, r | k in m && r in requested && NamedBy(m[k], r) :: Root(k, Manual, ManualEvidence(r))
  }

  function UnmatchedMessage(requested: string): string {
    "configured root did not match a symbol: " + requested
  }

  ghost function UnmatchedMessages(m: map<string, Symbol>, requested: seq<string>): set<string> {
    set r | r in requested && !(exists k :: k in m && NamedBy(m[k], r)) :: UnmatchedMessage(r)
  }

  function HeaderReason(header: string): string {
    "declaration in public header " + header
  }

  ghost predicate HeaderSeen(facts: set<Fact<string>>, header: string) {
    exists x: Fact<string> :: x in facts && x.Root? && x.rootKind == PublicApi && x.evidence.reason == HeaderReason(header)
  }

  function FilterMessage(filter: string): string {
    "Clang AST name filter active: " + filter
  }

  function FallbackMessage(s: Symbol): string {
    "fallback symbol identity for " + s.qualifiedName + " : " + s.signature + " at " + s.identity.fallbackAnchor +
    "; this frontend exposes neither a linkage name nor a Clang USR"
  }

  ghost function FallbackMessages(m: map<string, Symbol>): set<string> {
    set k | k in m && m[k].identity.quality == Fallback :: FallbackMessage(m[k])
  }

  datatype Final = Final(view: View, messages: set<string>)

  ghost function AllMessages(t: Totals, o: Options): set<string> {
    (set d | d in t.side.diagnostics) + UnmatchedMessages(t.view.symbols, o.manualRoots)
    + (if o.astFilter != [] then {FilterMessage(o.astFilter)} else {}) + FallbackMessages(t.view.symbols)
  }

  /** The view before the policies: override edges and manual roots are added. */
  ghost function Prepared(t: Totals, o: Options, resolve: Resolver): View {
    View(t.view.symbols,
         t.view.facts + DispatchFacts(t.view.symbols, t.side.records, resolve) + ManualFacts(t.view.symbols, o.manualRoots))
  }

  ghost predicate Acceptable(v: View, o: Options) {
    (forall h :: h in o.publicHeaders ==> HeaderSeen(v.facts, h)) && exists x: Fact<string> :: x in v.facts && x.Root?
  }

  /** How base names are resolved, given the whole hierarchy. */
  type ResolverOf = Units.Records -> Resolver

  /** The finished index: the facts and messages, or none if it is incomplete. */
  ghost function Finished(t: Totals, o: Options, resolverOf: ResolverOf): Option<Final> {
    if exists i :: 0 <= i < |t.side.matches| && !t.side.matches[i] then None
    else
      match ApplyToView(Prepared(t, o, resolverOf(t.side.records)), o.policies) case None => None case Some(v) =>
      if Acceptable(v, o) then Some(Final(v, AllMessages(t, o))) else None
  }

  /** The index of the units for the given contents of all files. */
  ghost function Index(units: seq<KeyInputs>, files: Files, extract: Extractor, rules: nat, o: Options, resolverOf: ResolverOf): Option<Final> {
    if Refused(units, o) then None
    else match AddUnits(units, files, extract, rules) case None => None case Some(t) => Finished(t, o, resolverOf)
  }

  /** A graph and a list of diagnostics that present a finished index. */
  ghost predicate Presents(graph: Contents, diagnostics: seq<string>, f: Final) {
    && Valid(graph) && IsCanonical(graph) && ViewOf(graph) == f.view
    && StrictlySortedBy(StringLess, diagnostics) && forall d :: d in diagnostics <==> d in f.messages
  }

  /** There is only one way to present an index. */
  lemma PresentationUnique(g: Contents, ds: seq<string>, h: Contents, es: seq<string>, f: Final)
    requires Presents(g, ds, f) && Presents(h, es, f)
    ensures g == h && ds == es
  {
    hide Valid, IsCanonical, ViewOf;
    StringOrder();
    CanonicalUnique(g, h);
    StrictUnique(StringLess, ds, es);
  }
}
