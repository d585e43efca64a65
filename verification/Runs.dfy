/** Indexing with a cache, over any number of runs. */
module Runs {
  import opened Wrappers
  import opened Orders
  import opened Symbols
  import opened Facts
  import opened Merging
  import opened Canonical
  import opened Graphs
  import opened MergeGraphs
  import opened Providers
  import opened KeyedProviders
  import opened Dispatch
  import opened Fips180
  import opened CacheKey
  import opened CacheText
  import opened Cache
  import opened Units
  import opened Indexing

  type Store = map<string, string>

  /** Every stored entry was written by an earlier run with at most this limit. */
  ghost predicate Trusted(store: Store, extract: Extractor, hashed: Hashed, limit: nat) {
    forall key :: key in store ==> Genuine(extract, hashed, limit, key, store[key])
  }

  /** Every output that passes the second limit passes the first. */
  predicate AsLoose(a: nat, b: nat) {
    a == 0 || (b != 0 && b <= a)
  }

  lemma GenuineUnder(extract: Extractor, hashed: Hashed, a: nat, b: nat, key: string, text: string)
    requires AsLoose(a, b) && Genuine(extract, hashed, b, key, text)
    ensures Genuine(extract, hashed, a, key, text)
  {
    hide AllHashed, EntryText, EntryOf, KeyOf;
    var k, files :| GenuineFor(extract, hashed, b, key, text, k, files);
    assert GenuineFor(extract, hashed, a, key, text, k, files);
  }

  /** What is hashed in a run is among what has no collisions, and the commands were made from one
      list of callback rules. */
  ghost predicate Sound(run: Run, hashed: Hashed) {
    forall k :: k in run.units ==> Formed(k) && AllHashed(hashed, k, run.files) && |k.rules| == run.rules
  }

  /** One invocation: the commands, the contents of all files at that time, the limit on the output
      of the frontend, and the options. */
  datatype Run = Run(units: seq<KeyInputs>, files: Files, rules: nat, astLimit: nat, options: Options)

  predicate AllFormed(run: Run) {
    forall k :: k in run.units ==> Formed(k)
  }

  lemma SoundFormed(run: Run, hashed: Hashed)
    requires Sound(run, hashed)
    ensures AllFormed(run)
  {
  }

  function Stored(store: Store, key: string): Option<string> {
    if key in store then Some(store[key]) else None
  }

  // ---- one unit

  lemma MergeIsAddUnit(c: Contents, side: Side, x: Extraction, g: Contents)
    requires Valid(c) && Valid(x.graph) && (g == x.graph || g == Canonicalize(x.graph)) && |side.matches| == |x.matches|
    ensures Valid(g)
    ensures Merge(c, g).Ok? <==> AddUnit(Totals(ViewOf(c), side), x).Some?
    ensures Merge(c, g).Ok? ==>
      Valid(Merge(c, g).value) && AddUnit(Totals(ViewOf(c), side), x) == Some(Totals(ViewOf(Merge(c, g).value), AddSide(side, x)))
  {
    hide Valid, Merge, Canonicalize, SymbolMap, KeyedFacts, AddSide;
    CanonicalizeKeepsView(x.graph);
    MergeRefinesView(c, g);
  }

  lemma SideOfEntry(side: Side, x: Extraction, y: Extraction)
    requires |side.matches| == |x.matches| && DistinctNames(x.records)
    requires y.matches == x.matches && y.diagnostics == x.diagnostics && y.records == StoredRecords(x.records)
    ensures AddSide(side, y) == AddSide(side, x)
  {
    hide MergeRecords, StoredRecords, DistinctNames;
    StoredRecordsMerge(side.records, x.records);
  }

  /** What the cache has for a unit. */
  function Found(store: Option<Store>, k: KeyInputs, files: Files): Lookup
    requires Formed(k)
  {
    if store.None? then Absent else Load(Stored(store.value, KeyOf(k)), KeyOf(k), k.file, files)
  }

  /** The unit is not in the cache, and the output of the frontend is over the limit. */
  ghost predicate Oversized(store: Option<Store>, k: KeyInputs, files: Files, extract: Extractor, limit: nat)
    requires Formed(k)
  {
    !Found(store, k, files).Hit? && extract(k, files).Some? && Exceeds(extract(k, files).value.astBytes, limit)
  }

  /** Adds one unit, from its cache entry if there is a usable one. With a cache the entry that
      was made is returned for storing. The limit is looked at only when the frontend is run. */
  method IndexUnit(graph: Graph, side: Side, k: KeyInputs, files: Files, extract: Extractor, limit: nat, store: Option<Store>,
                   ghost hashed: Hashed)
    returns (ok: bool, next: Side, entry: Option<string>)
    requires graph.Valid() && Formed(k) && AllHashed(hashed, k, files) && |k.rules| == |side.matches|
    requires Deterministic(extract) && CollisionFree(hashed) && (store.Some? ==> Trusted(store.value, extract, hashed, 0))
    modifies graph
    ensures graph.Valid()
    ensures ok <==> !Oversized(store, k, files, extract, limit) && extract(k, files).Some?
                    && AddUnit(Totals(ViewOf(old(graph.Value())), side), extract(k, files).value).Some?
    ensures ok ==> AddUnit(Totals(ViewOf(old(graph.Value())), side), extract(k, files).value) == Some(Totals(ViewOf(graph.Value()), next))
    ensures entry.Some? ==> Genuine(extract, hashed, limit, KeyOf(k), entry.value)
  {
    hide Facts.Valid, Graphs.Inverse, Load, Canonicalize, ViewOf, AddSide, AddUnit, KeyOf, EntryText, EntryOf, StoredRecords, Merge;
    hide KeyText, AllHashed, CollisionFree, DistinctNames, Exceeds;
    next, entry := side, None;
    if store.Some? {
      var key := KeyOf(k);
      var stored := Stored(store.value, key);
      var cached := LoadEntry(stored, key, k.file, files);
      if cached.Hit? {
        StoredText(store.value, key, k, files, cached.entry);
        HitIsFresh(extract, hashed, 0, store.value[key], k, files, cached.entry);
      }
      if cached.Hit? && |cached.entry.ruleMatches| == |side.matches| {
        ghost var x := extract(k, files).value;
        MergeIsAddUnit(graph.Value(), side, x, cached.entry.graph);
        var e := cached.entry;
        var y := Extraction(e.graph, e.diagnostics, e.ruleMatches, e.records, [], e.astBytes, e.factBytes);
        SideOfEntry(side, x, y);
        next := AddSide(side, y);
        var merged := MergeGraph(graph, e.graph);
        ok := merged.Ok?;
        return;
      }
    }
    var found := extract(k, files);
    if found.None? { return false, side, None; }
    var x := found.value;
    if Exceeds(x.astBytes, limit) { return false, side, None; }
    assert Proper(k, x);
    if store.Some? {
      var writable := *;
      if writable && Readable(x.dependencies, files) {
        entry := Some(EntryText(KeyOf(k), EntryOf(x, files)));
        assert GenuineFor(extract, hashed, limit, KeyOf(k), entry.value, k, files);
      }
    }
    MergeIsAddUnit(graph.Value(), side, x, x.graph);
    next := AddSide(side, x);
    var merged := MergeGraph(graph, x.graph);
    ok := merged.Ok?;
  }

  lemma StoredText(store: Store, key: string, k: KeyInputs, files: Files, e: Entry)
    requires Load(Stored(store, key), key, k.file, files) == Hit(e)
    ensures key in store && Load(Some(store[key]), key, k.file, files) == Hit(e)
  {
    hide ReadEntry, JudgeAll, Lists;
  }

  // ---- all units

  /** Every entry made in a run with this limit belongs to its key. */
  ghost predicate StagedWell(staged: seq<(string, string)>, extract: Extractor, hashed: Hashed, limit: nat) {
    forall i :: 0 <= i < |staged| ==> Genuine(extract, hashed, limit, staged[i].0, staged[i].1)
  }

  /** Some unit is not in the cache and its output is over the limit of the run. */
  ghost predicate OverLimit(run: Run, extract: Extractor, store: Option<Store>, n: nat)
    requires n <= |run.units| && AllFormed(run)
  {
    exists i :: 0 <= i < n && Oversized(store, run.units[i], run.files, extract, run.astLimit)
  }

  method IndexUnits(graph: Graph, run: Run, extract: Extractor, store: Option<Store>, ghost hashed: Hashed)
    returns (ok: bool, side: Side, staged: seq<(string, string)>)
    requires graph.Valid() && graph.Value() == NOTHING && Sound(run, hashed)
    requires Deterministic(extract) && CollisionFree(hashed) && (store.Some? ==> Trusted(store.value, extract, hashed, 0))
    modifies graph
    ensures graph.Valid() && StagedWell(staged, extract, hashed, run.astLimit)
    ensures ok <==> AddUnits(run.units, run.files, extract, run.rules).Some? && !OverLimit(run, extract, store, |run.units|)
    ensures ok ==> AddUnits(run.units, run.files, extract, run.rules) == Some(Totals(ViewOf(graph.Value()), side))
  {
    hide Facts.Valid, Graphs.Inverse, ViewOf, AddUnit, AddUnits, AllHashed, CollisionFree, Deterministic, Trusted, Genuine;
    hide KeyText, KeyOf, NoSide, Oversized;
    var units, files := run.units, run.files;
    staged, side := [], NoSide(run.rules);
    NothingIndexed(run.rules);
    for i := 0 to |units|
      invariant graph.Valid() && StagedWell(staged, extract, hashed, run.astLimit) && |side.matches| == run.rules
      invariant AddUnits(units[..i], files, extract, run.rules) == Some(Totals(ViewOf(graph.Value()), side))
      invariant !OverLimit(run, extract, store, i)
    {
      var k := units[i];
      assert k in units;
      OneMoreUnit(units, i, files, extract, run.rules);
      var done, next, entry := IndexUnit(graph, side, k, files, extract, run.astLimit, store, hashed);
      if !done {
        if !Oversized(store, k, files, extract, run.astLimit) { AddUnitsStops(units, files, extract, run.rules, i + 1); }
        return false, side, staged;
      }
      SideLength(units[..i + 1], files, extract, run.rules);
      side := next;
      if entry.Some? { staged := staged + [(KeyOf(k), entry.value)]; }
    }
    assert units[..|units|] == units;
    ok := true;
  }

  lemma OneMoreUnit(units: seq<KeyInputs>, i: nat, files: Files, extract: Extractor, rules: nat)
    requires i < |units| && AddUnits(units[..i], files, extract, rules).Some?
    ensures AddUnits(units[..i + 1], files, extract, rules) ==
      match extract(units[i], files)
      case None => None
      case Some(x) => AddUnit(AddUnits(units[..i], files, extract, rules).value, x)
  {
    hide AddUnit;
    assert units[..i + 1][..i] == units[..i];
  }

  lemma NothingIndexed(rules: nat)
    ensures ViewOf(NOTHING) == View(map[], {}) && |NoSide(rules).matches| == rules
    ensures forall units: seq<KeyInputs>, files, extract :: units == [] ==>
      AddUnits(units, files, extract, rules) == Some(Totals(View(map[], {}), NoSide(rules)))
  {
    assert NOTHING.All() == [];
  }

  lemma {:induction false} SideLength(units: seq<KeyInputs>, files: Files, extract: Extractor, rules: nat)
    ensures var t := AddUnits(units, files, extract, rules); t.Some? ==> |t.value.side.matches| == rules
  {
    hide ViewOf, MergeRecords;
    if units != [] { SideLength(units[..|units| - 1], files, extract, rules); }
  }

  // ---- finishing

  /** Some root names a symbol, or its message is reported. */
  method AddManualRoots(graph: Graph, requested: seq<string>) returns (messages: seq<string>)
    requires graph.Valid()
    modifies graph
    ensures graph.Valid() && graph.symbols == old(graph.symbols)
    ensures ViewOf(graph.Value()) == View(ViewOf(old(graph.Value())).symbols,
      ViewOf(old(graph.Value())).facts + ManualFacts(ViewOf(old(graph.Value())).symbols, requested))
    ensures forall d :: d in messages <==> d in UnmatchedMessages(ViewOf(old(graph.Value())).symbols, requested)
  {
    hide Facts.Valid, Graphs.Inverse, NamedBy, SymbolMap, KeyedFacts, ManualEvidence, UnmatchedMessage;
    ghost var v := ViewOf(graph.Value());
    ghost var symbols := graph.symbols;
    messages := [];
    assert v.facts + ManualFacts(v.symbols, []) == v.facts;
    for r := 0 to |requested|
      invariant graph.Valid() && graph.symbols == symbols
      invariant ViewOf(graph.Value()) == View(v.symbols, v.facts + ManualFacts(v.symbols, requested[..r]))
      invariant forall d :: d in messages <==> d in UnmatchedMessages(v.symbols, requested[..r])
    {
      ghost var before := ViewOf(graph.Value()).facts;
      var matched := AddRootsFor(graph, requested[r]);
      assert requested[..r + 1] == requested[..r] + [requested[r]];
      assert ManualFacts(v.symbols, requested[..r + 1])
        == ManualFacts(v.symbols, requested[..r]) + ManualFacts(v.symbols, [requested[r]]);
      assert UnmatchedMessages(v.symbols, requested[..r + 1])
        == UnmatchedMessages(v.symbols, requested[..r]) + UnmatchedMessages(v.symbols, [requested[r]]);
      if !matched { messages := messages + [UnmatchedMessage(requested[r])]; }
    }
    assert requested[..|requested|] == requested;
  }

  /** The roots at the first n positions that a request names. */
  ghost function RootsBefore(symbols: seq<Symbol>, n: nat, requested: string): set<Fact<string>>
    requires n <= |symbols|
  {
    set i: nat | i < n && NamedBy(symbols[i], requested) :: Root(KeyAt(symbols, i), Manual, ManualEvidence(requested))
  }

  lemma RootsOfAll(c: Contents, requested: string)
    requires Valid(c)
    ensures RootsBefore(c.symbols, |c.symbols|, requested) == ManualFacts(SymbolMap(c.symbols), [requested])
    ensures (exists i :: 0 <= i < |c.symbols| && NamedBy(c.symbols[i], requested)) <==>
      (exists k :: k in SymbolMap(c.symbols) && NamedBy(SymbolMap(c.symbols)[k], requested))
  {
    hide NamedBy, ManualEvidence;
    var symbols, m := c.symbols, SymbolMap(c.symbols);
    SymbolMapSpec(symbols);
    forall f | f in ManualFacts(m, [requested]) ensures f in RootsBefore(symbols, |symbols|, requested) {
      var k :| k in m && NamedBy(m[k], requested) && f == Root(k, Manual, ManualEvidence(requested));
      var i: nat :| i < |symbols| && symbols[i] == m[k];
    }
    forall f | f in RootsBefore(symbols, |symbols|, requested) ensures f in ManualFacts(m, [requested]) {
      var i: nat :| i < |symbols| && NamedBy(symbols[i], requested) && f == Root(KeyAt(symbols, i), Manual, ManualEvidence(requested));
      assert m[symbols[i].key] == symbols[i];
    }
    if i :| 0 <= i < |symbols| && NamedBy(symbols[i], requested) {
      assert m[symbols[i].key] == symbols[i];
    }
  }

  method AddRootsFor(graph: Graph, requested: string) returns (matched: bool)
    requires graph.Valid()
    modifies graph
    ensures graph.Valid() && graph.symbols == old(graph.symbols)
    ensures ViewOf(graph.Value()) == View(ViewOf(old(graph.Value())).symbols,
      ViewOf(old(graph.Value())).facts + ManualFacts(ViewOf(old(graph.Value())).symbols, [requested]))
    ensures matched <==> exists k :: k in ViewOf(old(graph.Value())).symbols && NamedBy(ViewOf(old(graph.Value())).symbols[k], requested)
  {
    hide Facts.Valid, Graphs.Inverse, NamedBy, SymbolMap, KeyedFacts, ManualEvidence, ManualFacts;
    ghost var was := graph.Value();
    matched := false;
    assert ViewOf(was).facts + RootsBefore(was.symbols, 0, requested) == ViewOf(was).facts;
    for id := 0 to |graph.symbols|
      invariant graph.Valid() && graph.symbols == was.symbols
      invariant ViewOf(graph.Value()) == View(ViewOf(was).symbols, ViewOf(was).facts + RootsBefore(was.symbols, id, requested))
      invariant matched <==> exists i :: 0 <= i < id && NamedBy(was.symbols[i], requested)
    {
      RootsNext(was.symbols, id, requested);
      if NamedBy(graph.symbols[id], requested) {
        WithView(graph.Value(), Root(id, Manual, ManualEvidence(requested)));
        var _ := graph.AddRoot(id, Manual, ManualEvidence(requested));
        matched := true;
      }
    }
    RootsOfAll(was, requested);
  }

  lemma RootsNext(symbols: seq<Symbol>, id: nat, requested: string)
    requires id < |symbols|
    ensures RootsBefore(symbols, id + 1, requested) == RootsBefore(symbols, id, requested)
      + if NamedBy(symbols[id], requested) then {Root(KeyAt(symbols, id), Manual, ManualEvidence(requested))} else {}
  {
    hide NamedBy, ManualEvidence;
  }

  /** Some public-API root was declared by the header. */
  method SeesHeader(graph: Graph, header: string) returns (seen: bool)
    requires graph.Valid()
    ensures seen <==> HeaderSeen(ViewOf(graph.Value()).facts, header)
  {
    hide Facts.Valid, Graphs.Inverse, HeaderReason, SymbolMap, Keyed;
    seen := exists x: Fact<nat> :: x in graph.roots && x.Root? && x.rootKind == PublicApi && x.evidence.reason == HeaderReason(header);
    HeaderByKey(graph.Value(), header);
  }

  lemma HeaderByKey(c: Contents, header: string)
    requires Valid(c)
    ensures HeaderSeen(ViewOf(c).facts, header) <==>
      exists x: Fact<nat> :: x in c.roots && x.Root? && x.rootKind == PublicApi && x.evidence.reason == HeaderReason(header)
  {
    hide HeaderReason, SymbolMap, KeyAt;
    if x: Fact<nat> :| x in c.roots && x.Root? && x.rootKind == PublicApi && x.evidence.reason == HeaderReason(header) {
      assert x in c.All();
      assert Keyed(c.symbols, x) in ViewOf(c).facts;
    }
    if HeaderSeen(ViewOf(c).facts, header) {
      var y: Fact<string> :| y in ViewOf(c).facts && y.Root? && y.rootKind == PublicApi && y.evidence.reason == HeaderReason(header);
      var x: Fact<nat> :| x in c.All() && Keyed(c.symbols, x) == y;
      assert x in c.roots;
    }
  }

  lemma RootsByKey(c: Contents)
    requires Valid(c)
    ensures c.roots != [] <==> exists x: Fact<string> :: x in ViewOf(c).facts && x.Root?
  {
    hide SymbolMap, KeyAt;
    if c.roots != [] {
      assert c.roots[0] in c.roots && c.roots[0] in c.All();
      assert Keyed(c.symbols, c.roots[0]) in ViewOf(c).facts;
    }
    if y: Fact<string> :| y in ViewOf(c).facts && y.Root? {
      var x: Fact<nat> :| x in c.All() && Keyed(c.symbols, x) == y;
      assert x in c.roots;
    }
  }

  function FallbackList(symbols: seq<Symbol>): seq<string> {
    if symbols == [] then []
    else
      var s := symbols[|symbols| - 1];
      FallbackList(symbols[..|symbols| - 1]) + if s.identity.quality == Fallback then [FallbackMessage(s)] else []
  }

  lemma {:induction false} FallbackMembers(symbols: seq<Symbol>, d: string)
    ensures d in FallbackList(symbols) <==> exists i :: 0 <= i < |symbols| && symbols[i].identity.quality == Fallback && d == FallbackMessage(symbols[i])
  {
    hide FallbackMessage;
    if symbols != [] {
      FallbackMembers(symbols[..|symbols| - 1], d);
      assert symbols == symbols[..|symbols| - 1] + [symbols[|symbols| - 1]];
    }
  }

  lemma FallbackByKey(c: Contents)
    requires Valid(c)
    ensures forall d :: d in FallbackList(c.symbols) <==> d in FallbackMessages(ViewOf(c).symbols)
  {
    hide FallbackMessage, FallbackList;
    var symbols, m := c.symbols, ViewOf(c).symbols;
    SymbolMapSpec(symbols);
    forall d ensures d in FallbackList(symbols) <==> d in FallbackMessages(m) {
      FallbackMembers(symbols, d);
      if i :| 0 <= i < |symbols| && symbols[i].identity.quality == Fallback && d == FallbackMessage(symbols[i]) {
        assert m[symbols[i].key] == symbols[i];
      }
      if d in FallbackMessages(m) {
        var k :| k in m && m[k].identity.quality == Fallback && d == FallbackMessage(m[k]);
        var i :| 0 <= i < |symbols| && symbols[i] == m[k];
      }
    }
  }

  lemma AcceptableByKey(c: Contents, o: Options, headersSeen: bool)
    requires Valid(c) && (headersSeen <==> forall h :: h in o.publicHeaders ==> HeaderSeen(ViewOf(c).facts, h))
    ensures Acceptable(ViewOf(c), o) <==> headersSeen && c.roots != []
  {
    hide Valid, ViewOf, HeaderSeen;
    RootsByKey(c);
  }

  method CheckHeaders(graph: Graph, headers: seq<string>) returns (ok: bool)
    requires graph.Valid()
    ensures ok <==> forall h :: h in headers ==> HeaderSeen(ViewOf(graph.Value()).facts, h)
  {
    hide HeaderSeen, ViewOf, Facts.Valid, Graphs.Inverse;
    for i := 0 to |headers|
      invariant forall h :: h in headers[..i] ==> HeaderSeen(ViewOf(graph.Value()).facts, h)
    {
      var seen := SeesHeader(graph, headers[i]);
      if !seen { return false; }
    }
    ok := true;
  }

  /** From the merged units to the finished, canonical index. */
  method Finish(graph: Graph, side: Side, o: Options, resolverOf: ResolverOf) returns (r: Option<seq<string>>)
    requires graph.Valid()
    modifies graph
    ensures graph.Valid()
    ensures r.Some? <==> Finished(Totals(ViewOf(old(graph.Value())), side), o, resolverOf).Some?
    ensures r.Some? ==> Presents(graph.Value(), r.value, Finished(Totals(ViewOf(old(graph.Value())), side), o, resolverOf).value)
  {
    hide Facts.Valid, Graphs.Inverse, DispatchFacts, ManualFacts, ApplyToView, Acceptable, ViewOf, HeaderSeen;
    hide UnmatchedMessages, FallbackMessages, FilterMessage, ApplyPolicies, ApplyRequests, SortUnique, IsCanonical, Canonical.Canonicalize;
    ghost var t := Totals(ViewOf(graph.Value()), side);
    var resolve := resolverOf(side.records);
    AddVirtualDispatchEdges(graph, side.records, resolve);
    if exists i :: 0 <= i < |side.matches| && !side.matches[i] { return None; }
    var unmatched := AddManualRoots(graph, o.manualRoots);
    PoliciesByKey(graph.Value(), o.policies);
    PoliciesKeepSymbols(ViewOf(graph.Value()), o.policies);
    var applied := ApplyProviderPolicies(graph, o.policies);
    if !applied { return None; }
    var headersSeen := CheckHeaders(graph, o.publicHeaders);
    AcceptableByKey(graph.Value(), o, headersSeen);
    if !headersSeen { return None; }
    if graph.roots == [] { return None; }
    var messages := side.diagnostics + unmatched + (if o.astFilter != [] then [FilterMessage(o.astFilter)] else [])
      + FallbackList(graph.symbols);
    FallbackByKey(graph.Value());
    CanonicalizeKeepsView(graph.Value());
    graph.Canonicalize();
    StringOrder();
    SortUniqueSpec(StringLess, messages);
    r := Some(SortUnique(StringLess, messages));
  }

  // ---- whole runs

  datatype RunResult = Incomplete | Complete(graph: Contents, diagnostics: seq<string>)

  /** The run comes to nothing: its units or options do not allow an index, or a unit that is not in
      the cache is over the limit. */
  ghost predicate Fails(run: Run, extract: Extractor, resolverOf: ResolverOf, store: Option<Store>)
    requires AllFormed(run)
  {
    || Index(run.units, run.files, extract, run.rules, run.options, resolverOf).None?
    || OverLimit(run, extract, store, |run.units|)
  }

  /** The result with this cache, or with none. Unless the run fails it is the index of the units as
      the files are; the cache has a say in the limit alone. */
  ghost predicate Correct(run: Run, extract: Extractor, resolverOf: ResolverOf, store: Option<Store>, r: RunResult)
    requires AllFormed(run)
  {
    if Fails(run, extract, resolverOf, store) then r == Incomplete
    else r.Complete? && Presents(r.graph, r.diagnostics, Index(run.units, run.files, extract, run.rules, run.options, resolverOf).value)
  }

  /** One run, with or without a cache. Entries are published only when the index is finished,
      and publishing each may fail. */
  method IndexRun(run: Run, extract: Extractor, resolverOf: ResolverOf, store: Option<Store>, ghost hashed: Hashed)
    returns (r: RunResult, next: Option<Store>)
    requires Sound(run, hashed) && Deterministic(extract) && CollisionFree(hashed)
    requires store.Some? ==> Trusted(store.value, extract, hashed, 0)
    ensures Correct(run, extract, resolverOf, store, r)
    ensures next.Some? <==> store.Some?
    ensures next.Some? ==> forall limit :: AsLoose(limit, run.astLimit) && Trusted(store.value, extract, hashed, limit) ==>
      Trusted(next.value, extract, hashed, limit)
  {
    hide Facts.Valid, Graphs.Inverse, Finished, AddUnits, ViewOf, AllHashed, Deterministic, CollisionFree, Genuine, Presents, OverLimit;
    hide StagedWell;
    next := store;
    if run.options.requireApi && run.options.publicHeaders == [] && forall p :: p in run.options.policies ==> p.publicApi == [] {
      return Incomplete, next;
    }
    if run.units == [] { return Incomplete, next; }
    var graph := new Graph();
    var ok, side, staged := IndexUnits(graph, run, extract, store, hashed);
    if !ok { return Incomplete, next; }
    var finished := Finish(graph, side, run.options, resolverOf);
    if finished.None? { return Incomplete, next; }
    if store.Some? {
      var published := Publish(store.value, staged);
      PublishedTrusted(store.value, staged, published, extract, hashed, run.astLimit);
      next := Some(published);
    }
    r := Complete(graph.Value(), finished.value);
  }

  /** Moves the entries into place. A move may fail, and the entry it was to replace may then be
      gone. */
  method Publish(store: Store, staged: seq<(string, string)>) returns (next: Store)
    ensures forall key :: key in next ==> (key in store && next[key] == store[key]) || (key, next[key]) in staged
  {
    next := store;
    for i := 0 to |staged|
      invariant forall key :: key in next ==> (key in store && next[key] == store[key]) || (key, next[key]) in staged
    {
      var moved, removed := *, *;
      if moved {
        assert staged[i] in staged;
        next := next[staged[i].0 := staged[i].1];
      } else if removed {
        next := next - {staged[i].0};
      }
    }
  }

  /** What is in the cache after a run was there before, or was made under the limit of the run. */
  lemma PublishedTrusted(store: Store, staged: seq<(string, string)>, next: Store, extract: Extractor, hashed: Hashed, limit: nat)
    requires StagedWell(staged, extract, hashed, limit)
    requires forall key :: key in next ==> (key in store && next[key] == store[key]) || (key, next[key]) in staged
    ensures forall wider :: AsLoose(wider, limit) && Trusted(store, extract, hashed, wider) ==> Trusted(next, extract, hashed, wider)
  {
    hide Genuine, AsLoose;
    forall wider, key | AsLoose(wider, limit) && Trusted(store, extract, hashed, wider) && key in next
      ensures Genuine(extract, hashed, wider, key, next[key])
    {
      if i :| 0 <= i < |staged| && staged[i] == (key, next[key]) {
        GenuineUnder(extract, hashed, wider, limit, key, next[key]);
      }
    }
  }

  // ---- the cache and the limit

  /** A unit that is taken from the cache although its output was over the limit. */
  ghost predicate HitOverLimit(run: Run, store: Option<Store>, i: nat)
    requires i < |run.units| && Formed(run.units[i])
  {
    var found := Found(store, run.units[i], run.files);
    found.Hit? && Exceeds(found.entry.astBytes, run.astLimit)
  }

  lemma HitMakesEntry(run: Run, extract: Extractor, store: Store, hashed: Hashed, limit: nat, i: nat)
    requires Sound(run, hashed) && Deterministic(extract) && CollisionFree(hashed) && Trusted(store, extract, hashed, limit)
    requires i < |run.units| && Found(Some(store), run.units[i], run.files).Hit?
    ensures var k := run.units[i];
            && extract(k, run.files).Some?
            && extract(k, run.files).value.astBytes == Found(Some(store), k, run.files).entry.astBytes
            && !Exceeds(extract(k, run.files).value.astBytes, limit)
  {
    hide Load, KeyOf, AllHashed, Deterministic, CollisionFree, Genuine, Proper, Exceeds, StoredRecords, Canonicalize;
    var k := run.units[i];
    var e := Found(Some(store), k, run.files).entry;
    StoredText(store, KeyOf(k), k, run.files, e);
    HitIsFresh(extract, hashed, limit, store[KeyOf(k)], k, run.files, e);
  }

  /** Without the cache, just the hits over the limit make a run fail in addition. */
  lemma ColdLimit(run: Run, extract: Extractor, store: Store, hashed: Hashed)
    requires Sound(run, hashed) && Deterministic(extract) && CollisionFree(hashed) && Trusted(store, extract, hashed, 0)
    ensures OverLimit(run, extract, None, |run.units|) <==>
      OverLimit(run, extract, Some(store), |run.units|) || exists i :: 0 <= i < |run.units| && HitOverLimit(run, Some(store), i)
  {
    hide Load, KeyOf, AllHashed, Deterministic, CollisionFree, Trusted, Exceeds;
    forall i | 0 <= i < |run.units| ensures Oversized(None, run.units[i], run.files, extract, run.astLimit) <==>
      Oversized(Some(store), run.units[i], run.files, extract, run.astLimit) || HitOverLimit(run, Some(store), i)
    {
      if Found(Some(store), run.units[i], run.files).Hit? { HitMakesEntry(run, extract, store, hashed, 0, i); }
    }
  }

  /** With a cache and without one, a run gives the identical graph and diagnostics exactly when it
      fails with the cache too, or no unit that is taken from the cache was over the limit. */
  lemma WarmEqualsColdIff(run: Run, extract: Extractor, resolverOf: ResolverOf, store: Store, hashed: Hashed, warm: RunResult, cold: RunResult)
    requires Sound(run, hashed) && Deterministic(extract) && CollisionFree(hashed) && Trusted(store, extract, hashed, 0)
    requires Correct(run, extract, resolverOf, Some(store), warm) && Correct(run, extract, resolverOf, None, cold)
    ensures warm == cold <==>
      Fails(run, extract, resolverOf, Some(store)) || forall i :: 0 <= i < |run.units| ==> !HitOverLimit(run, Some(store), i)
  {
    hide Presents, Index, OverLimit, HitOverLimit, AllHashed, Deterministic, CollisionFree, Trusted;
    ColdLimit(run, extract, store, hashed);
    SameResult(run, extract, resolverOf, Some(store), None, warm, cold);
  }

  /** The result is determined by whether the run fails. */
  lemma SameResult(run: Run, extract: Extractor, resolverOf: ResolverOf, a: Option<Store>, b: Option<Store>, r: RunResult, s: RunResult)
    requires AllFormed(run)
    requires Correct(run, extract, resolverOf, a, r) && Correct(run, extract, resolverOf, b, s)
    ensures r == s <==> (Fails(run, extract, resolverOf, a) <==> Fails(run, extract, resolverOf, b))
  {
    hide Presents, Index, OverLimit;
    var f := Index(run.units, run.files, extract, run.rules, run.options, resolverOf);
    if r.Complete? && s.Complete? { PresentationUnique(r.graph, r.diagnostics, s.graph, s.diagnostics, f.value); }
  }

  /** A cache filled under limits that are no wider changes nothing. */
  lemma TrustedIsCold(run: Run, extract: Extractor, resolverOf: ResolverOf, store: Store, hashed: Hashed, r: RunResult)
    requires Sound(run, hashed) && Deterministic(extract) && CollisionFree(hashed)
    requires Trusted(store, extract, hashed, run.astLimit) && Trusted(store, extract, hashed, 0)
    requires Correct(run, extract, resolverOf, Some(store), r)
    ensures Correct(run, extract, resolverOf, None, r)
  {
    hide Presents, Index, OverLimit, AllHashed, Deterministic, CollisionFree, Trusted, Exceeds, Found;
    ColdLimit(run, extract, store, hashed);
    forall i | 0 <= i < |run.units| ensures !HitOverLimit(run, Some(store), i) {
      if Found(Some(store), run.units[i], run.files).Hit? { HitMakesEntry(run, extract, store, hashed, run.astLimit, i); }
    }
  }

  // ---- any number of runs

  predicate Widest(limit: nat, earlier: seq<Run>) {
    forall run :: run in earlier ==> AsLoose(limit, run.astLimit)
  }

  /** What the cache holds after these runs: a limit no narrower than theirs was kept. */
  ghost predicate TrustedAfter(store: Store, earlier: seq<Run>, extract: Extractor, hashed: Hashed) {
    forall limit :: Widest(limit, earlier) ==> Trusted(store, extract, hashed, limit)
  }

  lemma NothingStored(extract: Extractor, hashed: Hashed)
    ensures TrustedAfter(map[], [], extract, hashed)
  {
  }

  lemma TrustedStep(store: Store, next: Store, earlier: seq<Run>, run: Run, extract: Extractor, hashed: Hashed)
    requires TrustedAfter(store, earlier, extract, hashed)
    requires forall limit :: AsLoose(limit, run.astLimit) && Trusted(store, extract, hashed, limit) ==> Trusted(next, extract, hashed, limit)
    ensures TrustedAfter(next, earlier + [run], extract, hashed)
  {
    hide Trusted, AsLoose;
    forall limit | Widest(limit, earlier + [run]) ensures Trusted(next, extract, hashed, limit) {
      assert run in earlier + [run];
      forall other | other in earlier ensures AsLoose(limit, other.astLimit) { assert other in earlier + [run]; }
      assert Widest(limit, earlier);
    }
  }

  lemma TrustedNow(store: Store, earlier: seq<Run>, extract: Extractor, hashed: Hashed)
    requires TrustedAfter(store, earlier, extract, hashed)
    ensures Trusted(store, extract, hashed, 0)
  {
    hide Trusted;
    assert Widest(0, earlier);
  }

  /** The result of a run after some others: the index of its units as its files are, and if the limit
      is no narrower than those of the earlier runs, exactly what there would be without the cache. */
  ghost predicate CorrectAfter(
    run: Run, earlier: seq<Run>, extract: Extractor, resolverOf: ResolverOf, hashed: Hashed, store: Store, r: RunResult)
    requires Sound(run, hashed)
  {
    && Trusted(store, extract, hashed, 0) && Correct(run, extract, resolverOf, Some(store), r)
    && (Widest(run.astLimit, earlier) ==> Correct(run, extract, resolverOf, None, r))
  }

  lemma CorrectNow(run: Run, earlier: seq<Run>, extract: Extractor, resolverOf: ResolverOf, hashed: Hashed, store: Store, r: RunResult)
    requires Sound(run, hashed) && Deterministic(extract) && CollisionFree(hashed)
    requires TrustedAfter(store, earlier, extract, hashed) && Correct(run, extract, resolverOf, Some(store), r)
    ensures CorrectAfter(run, earlier, extract, resolverOf, hashed, store, r)
  {
    hide Trusted, Correct, Deterministic, CollisionFree, AllHashed, Widest;
    TrustedNow(store, earlier, extract, hashed);
    if Widest(run.astLimit, earlier) { TrustedIsCold(run, extract, resolverOf, store, hashed, r); }
  }

  /** Any sequence of runs over changing files, sharing one cache that starts empty. */
  method IndexHistory(runs: seq<Run>, extract: Extractor, resolverOf: ResolverOf, ghost hashed: Hashed)
    returns (results: seq<RunResult>, ghost stores: seq<Store>)
    requires Deterministic(extract) && CollisionFree(hashed) && forall i :: 0 <= i < |runs| ==> Sound(runs[i], hashed)
    ensures |results| == |stores| == |runs|
    ensures forall i :: 0 <= i < |runs| ==> CorrectAfter(runs[i], runs[..i], extract, resolverOf, hashed, stores[i], results[i])
  {
    hide *;
    forall i | 0 <= i < |runs| ensures AllFormed(runs[i]) { SoundFormed(runs[i], hashed); }
    results, stores := [], [];
    var store: Option<Store> := Some(map[]);
    NothingStored(extract, hashed);
    for i := 0 to |runs|
      invariant |results| == |stores| == i && store.Some? && TrustedAfter(store.value, runs[..i], extract, hashed)
      invariant forall j :: 0 <= j < i ==> CorrectAfter(runs[j], runs[..j], extract, resolverOf, hashed, stores[j], results[j])
    {
      assert runs[..i + 1] == runs[..i] + [runs[i]];
      TrustedNow(store.value, runs[..i], extract, hashed);
      var r, next := IndexRun(runs[i], extract, resolverOf, store, hashed);
      CorrectNow(runs[i], runs[..i], extract, resolverOf, hashed, store.value, r);
      TrustedStep(store.value, next.value, runs[..i], runs[i], extract, hashed);
      results, stores, store := results + [r], stores + [store.value], next;
    }
  }
}
