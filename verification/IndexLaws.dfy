/** What the index of some units holds, told from what the frontend finds in each of them. */
module IndexLaws {
  import opened Wrappers
  import opened Orders
  import opened Symbols
  import opened Facts
  import opened Merging
  import opened MergeOrder
  import opened Providers
  import opened KeyedProviders
  import opened PolicyLaws
  import opened Dispatch
  import opened CacheKey
  import opened CacheText
  import opened Cache
  import opened Units
  import opened Indexing

  // ---- one unit after the other

  /** The frontend's answer for unit u, which it has. */
  ghost predicate Extracted(units: seq<KeyInputs>, files: Files, extract: Extractor, u: nat) {
    u < |units| && extract(units[u], files).Some?
  }

  ghost function Unit(units: seq<KeyInputs>, files: Files, extract: Extractor, u: nat): Extraction
    requires Extracted(units, files, extract, u)
  {
    extract(units[u], files).value
  }

  ghost predicate AllExtracted(units: seq<KeyInputs>, files: Files, extract: Extractor, rules: nat) {
    forall u :: 0 <= u < |units| ==> Extracted(units, files, extract, u) && |Unit(units, files, extract, u).matches| == rules
  }

  lemma AllExtractedLast(units: seq<KeyInputs>, files: Files, extract: Extractor, rules: nat)
    requires units != []
    ensures var init, last := units[..|units| - 1], units[|units| - 1];
            AllExtracted(units, files, extract, rules) <==>
              AllExtracted(init, files, extract, rules) && extract(last, files).Some? && |extract(last, files).value.matches| == rules
  {
    var init, n := units[..|units| - 1], |units| - 1;
    if AllExtracted(units, files, extract, rules) {
      forall u | 0 <= u < n
        ensures Extracted(init, files, extract, u) && |Unit(init, files, extract, u).matches| == rules
      {
        assert Extracted(units, files, extract, u) && init[u] == units[u];
      }
      assert Extracted(units, files, extract, n);
    }
    if AllExtracted(init, files, extract, rules) && extract(units[n], files).Some? && |extract(units[n], files).value.matches| == rules {
      forall u | 0 <= u < |units|
        ensures Extracted(units, files, extract, u) && |Unit(units, files, extract, u).matches| == rules
      {
        if u < n { assert Extracted(init, files, extract, u) && init[u] == units[u]; }
      }
    }
  }

  // ---- callback rules

  /** Unit u has a call that rule i matches. */
  ghost predicate Matched(units: seq<KeyInputs>, files: Files, extract: Extractor, i: nat, u: nat) {
    Extracted(units, files, extract, u) && i < |Unit(units, files, extract, u).matches| && Unit(units, files, extract, u).matches[i]
  }

  ghost predicate MatchedBySome(units: seq<KeyInputs>, files: Files, extract: Extractor, i: nat) {
    exists u :: 0 <= u < |units| && Matched(units, files, extract, i, u)
  }

  lemma MatchedLast(units: seq<KeyInputs>, files: Files, extract: Extractor, i: nat)
    requires units != []
    ensures var init, last := units[..|units| - 1], units[|units| - 1];
            MatchedBySome(units, files, extract, i) <==>
              MatchedBySome(init, files, extract, i)
              || (extract(last, files).Some? && i < |extract(last, files).value.matches| && extract(last, files).value.matches[i])
  {
    var init, n := units[..|units| - 1], |units| - 1;
    if u :| 0 <= u < |units| && Matched(units, files, extract, i, u) {
      if u < n { assert init[u] == units[u] && Matched(init, files, extract, i, u); }
    }
    if u :| 0 <= u < |init| && Matched(init, files, extract, i, u) {
      assert init[u] == units[u] && Matched(units, files, extract, i, u);
    }
    if extract(units[n], files).Some? && i < |extract(units[n], files).value.matches| && extract(units[n], files).value.matches[i] {
      assert Matched(units, files, extract, i, n);
    }
  }

  /** A rule is matched exactly when a call in some unit matches it. */
  lemma {:induction false} RulesMatched(units: seq<KeyInputs>, files: Files, extract: Extractor, rules: nat)
    requires AddUnits(units, files, extract, rules).Some?
    ensures var matches := AddUnits(units, files, extract, rules).value.side.matches;
            |matches| == rules && forall i :: 0 <= i < rules ==> (matches[i] <==> MatchedBySome(units, files, extract, i))
  {
    hide ViewOf, MergeRecords, ViewCompatible, MergeView, MatchedBySome;
    if units == [] {
      forall i | 0 <= i < rules ensures !MatchedBySome(units, files, extract, i) { NoneMatched(files, extract, i); }
    } else {
      RulesMatched(units[..|units| - 1], files, extract, rules);
      forall i | 0 <= i < rules
        ensures AddUnits(units, files, extract, rules).value.side.matches[i] <==> MatchedBySome(units, files, extract, i)
      {
        MatchedLast(units, files, extract, i);
      }
    }
  }

  lemma NoneMatched(files: Files, extract: Extractor, i: nat)
    ensures !MatchedBySome([], files, extract, i)
  {
  }

  /** The index fails on its rules exactly when some rule is matched in no unit; in particular, in a
      finished index each is matched in some unit. */
  lemma RuleFailureIff(units: seq<KeyInputs>, files: Files, extract: Extractor, rules: nat, o: Options, resolverOf: ResolverOf)
    requires AddUnits(units, files, extract, rules).Some?
    ensures var t := AddUnits(units, files, extract, rules).value;
            (exists i :: 0 <= i < |t.side.matches| && !t.side.matches[i])
            <==> exists i :: 0 <= i < rules && !MatchedBySome(units, files, extract, i)
    ensures (exists i :: 0 <= i < rules && !MatchedBySome(units, files, extract, i)) ==>
      Index(units, files, extract, rules, o, resolverOf).None?
  {
    hide AddUnits, MatchedBySome, ApplyToView, Prepared, Acceptable;
    RulesMatched(units, files, extract, rules);
    var t := AddUnits(units, files, extract, rules).value;
    if i :| 0 <= i < rules && !MatchedBySome(units, files, extract, i) { assert !t.side.matches[i]; }
  }

  // ---- diagnostics and records

  /** The messages of all units, in the order of the units. */
  ghost function AllDiagnostics(units: seq<KeyInputs>, files: Files, extract: Extractor): seq<string> {
    if units == [] then []
    else
      var last := extract(units[|units| - 1], files);
      AllDiagnostics(units[..|units| - 1], files, extract) + if last.Some? then last.value.diagnostics else []
  }

  lemma {:induction false} DiagnosticsOfUnits(units: seq<KeyInputs>, files: Files, extract: Extractor, rules: nat)
    requires AddUnits(units, files, extract, rules).Some?
    ensures AddUnits(units, files, extract, rules).value.side.diagnostics == AllDiagnostics(units, files, extract)
  {
    hide ViewOf, MergeRecords, ViewCompatible, MergeView, OrMatches;
    if units != [] { DiagnosticsOfUnits(units[..|units| - 1], files, extract, rules); }
  }

  /** Some record in the list gives the class this base. */
  predicate GivesBase(list: seq<RecordBases>, name: string, base: string) {
    exists r :: r in list && r.name == name && base in r.bases
  }

  predicate Names(list: seq<RecordBases>, name: string) {
    exists r :: r in list && r.name == name
  }

  lemma {:induction false} MergedBases(records: Units.Records, list: seq<RecordBases>, name: string, base: string)
    ensures name in MergeRecords(records, list) <==> name in records || Names(list, name)
    ensures base in BasesOf(MergeRecords(records, list), name) <==> base in BasesOf(records, name) || GivesBase(list, name, base)
  {
    hide SortUnique;
    if list != [] {
      var init, last := list[..|list| - 1], list[|list| - 1];
      assert list == init + [last];
      MergedBases(records, init, name, base);
      StringOrder();
      SortUniqueSpec(StringLess, BasesOf(MergeRecords(records, init), last.name) + last.bases);
    }
  }

  ghost predicate UnitGivesBase(units: seq<KeyInputs>, files: Files, extract: Extractor, name: string, base: string) {
    exists k :: k in units && extract(k, files).Some? && GivesBase(extract(k, files).value.records, name, base)
  }

  ghost predicate UnitNames(units: seq<KeyInputs>, files: Files, extract: Extractor, name: string) {
    exists k :: k in units && extract(k, files).Some? && Names(extract(k, files).value.records, name)
  }

  /** The class hierarchy has exactly the classes and the base names that the units give. */
  lemma {:induction false} RecordsOfUnits(units: seq<KeyInputs>, files: Files, extract: Extractor, rules: nat, name: string, base: string)
    requires AddUnits(units, files, extract, rules).Some?
    ensures var records := AddUnits(units, files, extract, rules).value.side.records;
            && (name in records <==> UnitNames(units, files, extract, name))
            && (base in BasesOf(records, name) <==> UnitGivesBase(units, files, extract, name, base))
  {
    hide ViewOf, MergeRecords, ViewCompatible, MergeView, OrMatches, GivesBase, Names;
    if units != [] {
      var init, last := units[..|units| - 1], units[|units| - 1];
      assert units == init + [last];
      RecordsOfUnits(init, files, extract, rules, name, base);
      MergedBases(AddUnits(init, files, extract, rules).value.side.records, extract(last, files).value.records, name, base);
    }
  }

  // ---- the graph

  /** The graphs of the units, in their order. */
  ghost function GraphsOf(units: seq<KeyInputs>, files: Files, extract: Extractor): seq<Contents> {
    if units == [] then []
    else
      var last := extract(units[|units| - 1], files);
      GraphsOf(units[..|units| - 1], files, extract) + if last.Some? then [last.value.graph] else []
  }

  lemma {:induction false} GraphsValid(units: seq<KeyInputs>, files: Files, extract: Extractor)
    requires forall k :: k in units && extract(k, files).Some? ==> Valid(extract(k, files).value.graph)
    ensures ValidBatches(GraphsOf(units, files, extract))
  {
    hide Valid;
    if units != [] {
      assert forall k :: k in units[..|units| - 1] ==> k in units;
      assert units[|units| - 1] in units;
      GraphsValid(units[..|units| - 1], files, extract);
    }
  }

  lemma MergeAllNext(init: seq<Contents>, last: Contents)
    ensures MergeAll(init + [last]) == match MergeAll(init) case Ok(c) => Merge(c, last) case Err(e) => Err(e)
  {
    assert (init + [last])[..|init|] == init;
  }

  /** t holds what the merged graph g says, with room for this many rules. */
  ghost predicate Shows(t: Option<Totals>, g: Result<Contents, GraphError>, rules: nat) {
    && t.Some? && g.Ok? && Valid(g.value) && t.value.view == ViewOf(g.value) && |t.value.side.matches| == rules
  }

  lemma ShowsNext(t: Totals, g: Contents, x: Extraction, rules: nat)
    requires Shows(Some(t), Ok(g), rules) && Valid(x.graph)
    ensures AddUnit(t, x).Some? <==> |x.matches| == rules && Merge(g, x.graph).Ok?
    ensures AddUnit(t, x).Some? ==> Shows(AddUnit(t, x), Merge(g, x.graph), rules)
  {
    hide Valid, ViewOf, Merge, ViewCompatible, MergeView, MergeRecords;
    MergeRefinesView(g, x.graph);
  }

  lemma OneMore(units: seq<KeyInputs>, files: Files, extract: Extractor, rules: nat)
    requires units != []
    ensures var init, last := units[..|units| - 1], units[|units| - 1];
            AddUnits(units, files, extract, rules) ==
              match AddUnits(init, files, extract, rules) case None => None case Some(t) =>
              match extract(last, files) case None => None case Some(x) => AddUnit(t, x)
    ensures var init, last := units[..|units| - 1], units[|units| - 1];
            extract(last, files).Some? ==>
              GraphsOf(units, files, extract) == GraphsOf(init, files, extract) + [extract(last, files).value.graph]
  {
    hide AddUnit;
  }

  /** The units can be merged exactly when the frontend has an answer for each and their graphs merge in
      their order; the outcome says what the merged graph says. */
  lemma {:induction false} UnitsMerge(units: seq<KeyInputs>, files: Files, extract: Extractor, rules: nat)
    requires forall k :: k in units && extract(k, files).Some? ==> Valid(extract(k, files).value.graph)
    ensures AddUnits(units, files, extract, rules).Some? <==>
      AllExtracted(units, files, extract, rules) && MergeAll(GraphsOf(units, files, extract)).Ok?
    ensures AddUnits(units, files, extract, rules).Some? ==>
      Shows(AddUnits(units, files, extract, rules), MergeAll(GraphsOf(units, files, extract)), rules)
  {
    hide Valid, Merge, AllExtracted, Shows, AddUnits, AddUnit, GraphsOf, MergeAll;
    if units == [] {
      NothingMerged(files, extract, rules);
    } else {
      var init, last := units[..|units| - 1], units[|units| - 1];
      assert last in units && forall k :: k in init ==> k in units;
      UnitsMerge(init, files, extract, rules);
      AllExtractedLast(units, files, extract, rules);
      OneMore(units, files, extract, rules);
      var x := extract(last, files);
      if x.Some? {
        MergeAllNext(GraphsOf(init, files, extract), x.value.graph);
        if AddUnits(init, files, extract, rules).Some? {
          ShowsOk(AddUnits(init, files, extract, rules), MergeAll(GraphsOf(init, files, extract)), rules);
          ShowsNext(AddUnits(init, files, extract, rules).value, MergeAll(GraphsOf(init, files, extract)).value, x.value, rules);
        }
      }
    }
  }

  lemma ShowsOk(t: Option<Totals>, g: Result<Contents, GraphError>, rules: nat)
    requires Shows(t, g, rules)
    ensures g.Ok? && t == Some(t.value) && g == Ok(g.value)
  {
  }

  lemma NothingMerged(files: Files, extract: Extractor, rules: nat)
    ensures AllExtracted([], files, extract, rules) && GraphsOf([], files, extract) == []
    ensures MergeAll([]).Ok? && Shows(AddUnits([], files, extract, rules), MergeAll([]), rules)
  {
    assert NOTHING.All() == [];
  }

  // ---- the finished index

  /** A method and one that overrides it: both belong to classes, the first is virtual, name and
      signature agree, and its class is an ancestor of the other's. */
  ghost predicate IsOverride(m: map<string, Symbol>, records: Units.Records, resolve: Resolver, x: Fact<string>) {
    && x.Edge? && x.edgeKind == VirtualDispatch && x.evidence == Evidence("class_hierarchy", "known override of a virtual method")
    && x.from in m && x.to in m && m[x.from].kind == Method && m[x.to].kind == Method && m[x.from].isVirtual
    && m[x.from].className != [] && m[x.to].className != []
    && m[x.from].name == m[x.to].name && m[x.from].signature == m[x.to].signature
    && IsAncestor(records, resolve, m[x.to].className, m[x.from].className)
  }

  lemma OverridesMean(m: map<string, Symbol>, records: Units.Records, resolve: Resolver, x: Fact<string>)
    ensures x in DispatchFacts(m, records, resolve) <==> IsOverride(m, records, resolve, x)
  {
    hide IsAncestor;
    if IsOverride(m, records, resolve, x) { assert x == DispatchEdge(x.from, x.to) && Overrides(m[x.from], m[x.to]); }
  }

  /** A requested root names the symbol by its qualified name, its linkage name or its key. */
  predicate Calls(requested: string, s: Symbol) {
    requested in {s.qualifiedName, s.identity.linkageName, s.key}
  }

  ghost predicate IsRequestedRoot(m: map<string, Symbol>, requested: seq<string>, x: Fact<string>) {
    && x.Root? && x.rootKind == Manual && x.symbol in m
    && exists r :: r in requested && Calls(r, m[x.symbol])
         && x.evidence == Evidence("command_line", "matched configured root: " + r)
  }

  lemma RequestedRootsMean(m: map<string, Symbol>, requested: seq<string>, x: Fact<string>)
    ensures x in ManualFacts(m, requested) <==> IsRequestedRoot(m, requested, x)
  {
    if IsRequestedRoot(m, requested, x) {
      var r :| r in requested && Calls(r, m[x.symbol]) && x.evidence == Evidence("command_line", "matched configured root: " + r);
      assert NamedBy(m[x.symbol], r) && x == Root(x.symbol, Manual, ManualEvidence(r));
    }
  }

  /** Some public-API root says that this header declares it. */
  ghost predicate Declared(facts: set<Fact<string>>, header: string) {
    exists x: Fact<string> ::
      x in facts && x.Root? && x.rootKind == PublicApi && x.evidence.reason == "declaration in public header " + header
  }

  ghost predicate Reaches(facts: set<Fact<string>>) {
    exists x: Fact<string> :: x in facts && x.Root?
  }

  /** No symbol is called so. */
  ghost predicate CallsNone(m: map<string, Symbol>, requested: string) {
    forall k :: k in m ==> !Calls(requested, m[k])
  }

  ghost predicate IsMessage(t: Totals, o: Options, d: string) {
    || d in t.side.diagnostics
    || (exists r :: r in o.manualRoots && CallsNone(t.view.symbols, r) && d == "configured root did not match a symbol: " + r)
    || (o.astFilter != [] && d == "Clang AST name filter active: " + o.astFilter)
    || (exists k :: k in t.view.symbols && t.view.symbols[k].identity.quality == Fallback && d == FallbackMessage(t.view.symbols[k]))
  }

  lemma MessagesMean(t: Totals, o: Options, d: string)
    ensures d in AllMessages(t, o) <==> IsMessage(t, o, d)
  {
    hide FallbackMessage;
    forall r, k | k in t.view.symbols ensures NamedBy(t.view.symbols[k], r) <==> Calls(r, t.view.symbols[k]) {}
    if r :| r in o.manualRoots && CallsNone(t.view.symbols, r) && d == "configured root did not match a symbol: " + r {
      assert d == UnmatchedMessage(r) && d in UnmatchedMessages(t.view.symbols, o.manualRoots);
    }
  }

  /** All that the finished index holds before the policies. */
  ghost predicate IsPrepared(t: Totals, o: Options, resolve: Resolver, x: Fact<string>) {
    || x in t.view.facts || IsOverride(t.view.symbols, t.side.records, resolve, x)
    || IsRequestedRoot(t.view.symbols, o.manualRoots, x)
  }

  lemma PreparedMeans(t: Totals, o: Options, resolve: Resolver, x: Fact<string>)
    ensures x in Prepared(t, o, resolve).facts <==> IsPrepared(t, o, resolve, x)
    ensures Prepared(t, o, resolve).symbols == t.view.symbols
  {
    hide DispatchFacts, ManualFacts, IsOverride, IsRequestedRoot;
    OverridesMean(t.view.symbols, t.side.records, resolve, x);
    RequestedRootsMean(t.view.symbols, o.manualRoots, x);
  }

  ghost predicate HoldsExactly(facts: set<Fact<string>>, t: Totals, o: Options, resolve: Resolver) {
    forall x :: x in facts <==> IsPrepared(t, o, resolve, x) || Asked(t.view.symbols, o.policies, x)
  }

  /** What the units, the overrides, the requested roots and the policies give. */
  ghost function AllFactsOf(t: Totals, o: Options, resolve: Resolver): (facts: set<Fact<string>>)
    requires AllPick(t.view.symbols, o.policies)
    ensures HoldsExactly(facts, t, o, resolve)
  {
    hide Prepared, IsPrepared, Asked, ApplyToView, AllPick;
    PoliciesMean(Prepared(t, o, resolve), o.policies);
    PreparedMeans(t, o, resolve, Suppression("", Evidence("", "")));
    assert forall x :: x in Prepared(t, o, resolve).facts <==> IsPrepared(t, o, resolve, x) by {
      forall x ensures x in Prepared(t, o, resolve).facts <==> IsPrepared(t, o, resolve, x) { PreparedMeans(t, o, resolve, x); }
    }
    ApplyToView(Prepared(t, o, resolve), o.policies).value.facts
  }

  /** The index is finished exactly when every rule was matched, every entry of the policies picks its
      symbols, every public header declares a root and there is a root at all; it then holds just the
      facts of the units, the overrides, the requested roots and what the policies ask for, and the
      messages that belong to these. */
  lemma FinishedMeans(t: Totals, o: Options, resolverOf: ResolverOf)
    ensures Finished(t, o, resolverOf).Some? <==>
      && (forall i :: 0 <= i < |t.side.matches| ==> t.side.matches[i])
      && AllPick(t.view.symbols, o.policies)
      && (forall h :: h in o.publicHeaders ==> Declared(AllFactsOf(t, o, resolverOf(t.side.records)), h))
      && Reaches(AllFactsOf(t, o, resolverOf(t.side.records)))
    ensures var f := Finished(t, o, resolverOf);
            f.Some? ==>
              && f.value.view.symbols == t.view.symbols
              && HoldsExactly(f.value.view.facts, t, o, resolverOf(t.side.records))
              && forall d :: d in f.value.messages <==> IsMessage(t, o, d)
  {
    hide Prepared, IsPrepared, Asked, ApplyToView, AllPick, AllMessages, IsMessage;
    var resolve := resolverOf(t.side.records);
    var v := Prepared(t, o, resolve);
    PoliciesMean(v, o.policies);
    forall x ensures x in v.facts <==> IsPrepared(t, o, resolve, x) { PreparedMeans(t, o, resolve, x); }
    PreparedMeans(t, o, resolve, Suppression("", Evidence("", "")));
    forall d ensures d in AllMessages(t, o) <==> IsMessage(t, o, d) { MessagesMean(t, o, d); }
    if AllPick(t.view.symbols, o.policies) {
      var w := ApplyToView(v, o.policies).value;
      assert HoldsExactly(w.facts, t, o, resolve);
      SameFacts(w.facts, AllFactsOf(t, o, resolve), t, o, resolve);
    }
  }

  lemma SameFacts(a: set<Fact<string>>, b: set<Fact<string>>, t: Totals, o: Options, resolve: Resolver)
    requires HoldsExactly(a, t, o, resolve) && HoldsExactly(b, t, o, resolve)
    ensures a == b
  {
    hide IsPrepared, Asked;
  }

  /** There is an index exactly when there is a command, the public API that must be named is named, the
      units can be merged, and the finishing succeeds. */
  lemma IndexMeans(units: seq<KeyInputs>, files: Files, extract: Extractor, rules: nat, o: Options, resolverOf: ResolverOf)
    ensures Index(units, files, extract, rules, o, resolverOf).Some? <==>
      && units != []
      && (o.requireApi ==> o.publicHeaders != [] || exists p :: p in o.policies && p.publicApi != [])
      && AddUnits(units, files, extract, rules).Some?
      && Finished(AddUnits(units, files, extract, rules).value, o, resolverOf).Some?
    ensures Index(units, files, extract, rules, o, resolverOf).Some? ==>
      Index(units, files, extract, rules, o, resolverOf) == Finished(AddUnits(units, files, extract, rules).value, o, resolverOf)
  {
    hide AddUnits, Finished;
  }
}
