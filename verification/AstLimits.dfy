/** Two runs over the same files, where the limit on the output of the frontend is not seen by the
    run that uses the cache. */
module AstLimits {
  import opened Wrappers
  import opened Orders
  import opened Symbols
  import opened Facts
  import opened Merging
  import opened MergeOrder
  import opened Canonical
  import opened KeyedProviders
  import opened Dispatch
  import opened Fips180
  import opened Providers
  import opened CacheKey
  import opened CacheText
  import opened CacheRoundTrip
  import opened Cache
  import opened Units
  import opened Indexing
  import opened Runs

  const ENTRY: Fact<nat> := Root(0, ApplicationEntryPoint, Evidence("clang_ast", "main"))

  function OneRoot(): Contents {
    Named("main").(roots := [ENTRY])
  }

  /** A unit with one root, whose output has 129 bytes. */
  function BigUnit(k: KeyInputs): Extraction {
    Extraction(OneRoot(), [], seq(|k.rules|, _ => true), [], [k.file], 129, 0)
  }

  const BigExtract: Extractor := (k, files) => Some(BigUnit(k))

  function LimitedRun(k: KeyInputs, limit: nat): Run {
    Run([k], map[k.file := []], 0, limit, Options([], [], [], "", false))
  }

  function JustHashed(k: KeyInputs): Hashed
    requires Formed(k)
  {
    Hashed({KeyText(k)}, {[]}, {})
  }

  /** The cache after the run without a limit. */
  function Filled(k: KeyInputs): Store
    requires Formed(k)
  {
    map[KeyOf(k) := EntryText(KeyOf(k), EntryOf(BigUnit(k), LimitedRun(k, 0).files))]
  }

  lemma OneRootValid()
    ensures Valid(OneRoot()) && SourcesFit(OneRoot()) && GraphFits(OneRoot())
    ensures ViewOf(OneRoot()).symbols == map["k" := OneRoot().symbols[0]]
    ensures Root("k", ApplicationEntryPoint, Evidence("clang_ast", "main")) in ViewOf(OneRoot()).facts
  {
    var c := OneRoot();
    assert c.All() == [ENTRY];
    assert c.symbols[..0] == [];
    assert Keyed(c.symbols, ENTRY) == Root("k", ApplicationEntryPoint, Evidence("clang_ast", "main"));
    assert ENTRY in c.All();
  }

  lemma BigExtractDeterministic()
    ensures Deterministic(BigExtract)
  {
    hide Valid, SourcesFit;
    OneRootValid();
  }

  lemma RunsSound(k: KeyInputs, limit: nat)
    requires Formed(k) && k.rules == []
    ensures Sound(LimitedRun(k, limit), JustHashed(k)) && CollisionFree(JustHashed(k)) && AllFormed(LimitedRun(k, limit))
  {
    hide KeyText, Digest;
  }

  lemma BigUnitIndexed(k: KeyInputs, resolverOf: ResolverOf, limit: nat)
    requires Formed(k) && k.rules == []
    ensures var run := LimitedRun(k, limit); Index(run.units, run.files, BigExtract, run.rules, run.options, resolverOf).Some?
  {
    hide DispatchFacts, ManualFacts, AllMessages, ViewOf, MergeRecords;
    var run := LimitedRun(k, limit);
    OneRootValid();
    assert run.units[..0] == [];
    NothingIndexed(0);
    var root := Root("k", ApplicationEntryPoint, Evidence("clang_ast", "main"));
    assert AllRequests([]) == [];
    var start := Totals(View(map[], {}), NoSide(0));
    assert AddUnits(run.units, run.files, BigExtract, 0) == AddUnit(start, BigUnit(k));
    var t := AddUnit(start, BigUnit(k)).value;
    assert root in Prepared(t, run.options, resolverOf(t.side.records)).facts;
  }

  lemma FilledIsHit(k: KeyInputs, limit: nat)
    requires Formed(k) && k.rules == []
    ensures Found(Some(Filled(k)), k, LimitedRun(k, limit).files).Hit?
  {
    hide Digest, KeyText, ReadEntry, EntryText, Canonicalize, Sort, Valid, SourcesFit, GraphFits;
    OneRootValid();
    var files := LimitedRun(k, limit).files;
    var e := EntryOf(BigUnit(k), files);
    var sorted := SortUnique(StringLess, [k.file]);
    StringOrder();
    SortUniqueSpec(StringLess, [k.file]);
    assert sorted == [k.file];
    assert e.dependencies == [Dependency(k.file, Digest([]))];
    EntryRoundTrip(KeyOf(k), e);
    HitIff(Some(EntryText(KeyOf(k), e)), KeyOf(k), k.file, files, e.(graph := Canonicalize(e.graph)));
  }

  /** A run without a limit makes the entry; a second run with a limit of 128 bytes completes with
      the cache and is refused without it. A limit of 129 bytes, which the output just meets, would not
      have been passed. */
  lemma LimitUnseenOnHit(k: KeyInputs, resolverOf: ResolverOf, first: RunResult, warm: RunResult, cold: RunResult, met: RunResult)
    requires Formed(k) && k.rules == []
    requires AllFormed(LimitedRun(k, 0)) && AllFormed(LimitedRun(k, 128)) && AllFormed(LimitedRun(k, 129))
    requires Correct(LimitedRun(k, 0), BigExtract, resolverOf, Some(map[]), first)
    requires Correct(LimitedRun(k, 128), BigExtract, resolverOf, Some(Filled(k)), warm)
    requires Correct(LimitedRun(k, 128), BigExtract, resolverOf, None, cold)
    requires Correct(LimitedRun(k, 129), BigExtract, resolverOf, None, met)
    ensures Deterministic(BigExtract) && CollisionFree(JustHashed(k)) && Trusted(Filled(k), BigExtract, JustHashed(k), 0)
    ensures Sound(LimitedRun(k, 0), JustHashed(k)) && Sound(LimitedRun(k, 128), JustHashed(k))
    ensures first.Complete? && warm.Complete? && cold == Incomplete && met.Complete?
  {
    hide Index, Presents, KeyText, EntryText, EntryOf, Load, KeyOf;
    BigExtractDeterministic();
    RunsSound(k, 0);
    RunsSound(k, 128);
    BigUnitIndexed(k, resolverOf, 0);
    BigUnitIndexed(k, resolverOf, 128);
    BigUnitIndexed(k, resolverOf, 129);
    FilledIsHit(k, 128);
    assert GenuineFor(BigExtract, JustHashed(k), 0, KeyOf(k), Filled(k)[KeyOf(k)], k, LimitedRun(k, 0).files);
    assert Oversized(None, LimitedRun(k, 128).units[0], LimitedRun(k, 128).files, BigExtract, 128);
  }
}
