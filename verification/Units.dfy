/** What one translation unit contributes to an index, directly or through its cache entry. */
module Units {
  import opened Wrappers
  import opened Orders
  import opened Symbols
  import opened Facts
  import opened Merging
  import opened Canonical
  import Streams
  import opened Fips180
  import opened Providers
  import opened CacheKey
  import opened CacheText
  import opened CacheRoundTrip
  import opened Cache

  /** The facts of one unit. Its records come in an unspecified order, each class once. */
  datatype Extraction = Extraction(
    graph: Contents, diagnostics: seq<string>, matches: seq<bool>, records: seq<RecordBases>,
    dependencies: seq<string>, astBytes: nat, factBytes: nat)

  /** The frontend: what it finds for a command, given the contents of all files. */
  type Extractor = (KeyInputs, Files) -> Option<Extraction>

  // ---- records

  type Records = map<string, seq<string>>

  function BasesOf(records: Records, name: string): seq<string> {
    if name in records then records[name] else []
  }

  function MergeRecord(records: Records, r: RecordBases): Records {
    records[r.name := SortUnique(StringLess, BasesOf(records, r.name) + r.bases)]
  }

  function MergeRecords(records: Records, list: seq<RecordBases>): Records {
    if list == [] then records else MergeRecord(MergeRecords(records, list[..|list| - 1]), list[|list| - 1])
  }

  ghost predicate DistinctNames(list: seq<RecordBases>) {
    forall i, j :: 0 <= i < j < |list| ==> list[i].name != list[j].name
  }

  lemma {:induction false} MergeRecordsAt(records: Records, list: seq<RecordBases>, name: string)
    requires DistinctNames(list)
    ensures name in MergeRecords(records, list) <==> name in records || exists i :: 0 <= i < |list| && list[i].name == name
    ensures forall i :: 0 <= i < |list| && list[i].name == name ==>
      MergeRecords(records, list)[name] == SortUnique(StringLess, BasesOf(records, name) + list[i].bases)
    ensures (forall i :: 0 <= i < |list| ==> list[i].name != name) ==> BasesOf(MergeRecords(records, list), name) == BasesOf(records, name)
  {
    hide SortUnique;
    if list != [] {
      var init, last := list[..|list| - 1], list[|list| - 1];
      MergeRecordsAt(records, init, name);
      forall i | 0 <= i < |init| ensures list[i] == init[i] && list[i].name != last.name {}
      assert list[|list| - 1] == last;
    }
  }

  function Normal(r: RecordBases): RecordBases {
    RecordBases(r.name, SortUnique(StringLess, r.bases))
  }

  function NormalAll(list: seq<RecordBases>): seq<RecordBases> {
    seq(|list|, i requires 0 <= i < |list| => Normal(list[i]))
  }

  predicate RecordLess(a: RecordBases, b: RecordBases) {
    StringLess(a.name, b.name)
  }

  function StoredRecords(list: seq<RecordBases>): seq<RecordBases> {
    Sort(RecordLess, NormalAll(list))
  }

  lemma StoredMembers(list: seq<RecordBases>)
    requires DistinctNames(list)
    ensures DistinctNames(StoredRecords(list))
    ensures forall r :: r in StoredRecords(list) <==> exists i :: 0 <= i < |list| && r == Normal(list[i])
  {
    hide Normal, Sort, RecordLess;
    var n, s := NormalAll(list), StoredRecords(list);
    SortMembers(RecordLess, n);
    forall r ensures r in s <==> exists i :: 0 <= i < |list| && r == Normal(list[i]) {
      assert forall i :: 0 <= i < |list| ==> n[i] == Normal(list[i]);
    }
    forall i, j | 0 <= i < j < |n| ensures n[i] != n[j] {
      NormalName(list[i]);
      NormalName(list[j]);
    }
    SortDistinct(RecordLess, n);
    forall i, j | 0 <= i < j < |s| ensures s[i].name != s[j].name {
      assert s[i] in s && s[j] in s;
      var a :| 0 <= a < |list| && s[i] == Normal(list[a]);
      var b :| 0 <= b < |list| && s[j] == Normal(list[b]);
      NormalName(list[a]);
      NormalName(list[b]);
    }
  }

  lemma NormalName(r: RecordBases)
    ensures Normal(r).name == r.name
  {
  }

  lemma NormalBases(old': seq<string>, bases: seq<string>)
    ensures SortUnique(StringLess, old' + SortUnique(StringLess, bases)) == SortUnique(StringLess, old' + bases)
  {
    hide StringLess, SortUnique;
    StringOrder();
    SortUniqueSpec(StringLess, bases);
    SortUniqueBySet(StringLess, old' + SortUnique(StringLess, bases), old' + bases);
  }

  /** Merging the stored, sorted records gives the same hierarchy as merging the records in the
      order in which the frontend found them. */
  lemma StoredRecordsMerge(records: Records, list: seq<RecordBases>)
    requires DistinctNames(list)
    ensures MergeRecords(records, StoredRecords(list)) == MergeRecords(records, list)
  {
    hide StoredRecords, MergeRecords, SortUnique, Normal;
    var s := StoredRecords(list);
    StoredMembers(list);
    var a, b := MergeRecords(records, s), MergeRecords(records, list);
    forall name ensures (name in a <==> name in b) && BasesOf(a, name) == BasesOf(b, name) {
      MergeRecordsAt(records, s, name);
      MergeRecordsAt(records, list, name);
      if i :| 0 <= i < |list| && list[i].name == name {
        assert Normal(list[i]) in s;
        var j :| 0 <= j < |s| && s[j] == Normal(list[i]);
        NormalOf(records, list[i]);
        assert s[j].name == name;
      } else {
        forall j | 0 <= j < |s| ensures s[j].name != name {
          assert s[j] in s;
          var i :| 0 <= i < |list| && s[j] == Normal(list[i]);
          NormalName(list[i]);
        }
      }
    }
    assert a.Keys == b.Keys;
    forall name | name in a ensures a[name] == b[name] { assert BasesOf(a, name) == BasesOf(b, name); }
  }

  lemma NormalOf(records: Records, r: RecordBases)
    ensures Normal(r).name == r.name
    ensures SortUnique(StringLess, BasesOf(records, r.name) + Normal(r).bases)
      == SortUnique(StringLess, BasesOf(records, r.name) + r.bases)
  {
    hide SortUnique;
    NormalBases(BasesOf(records, r.name), r.bases);
  }

  // ---- the entry of an extraction

  /** The bytes of a text. */
  function TextOctets(s: string): seq<Octet> {
    seq(|s|, i requires 0 <= i < |s| => (s[i] as int % 256) as bv8)
  }

  function KeyOf(k: KeyInputs): string
    requires Formed(k)
  {
    Digest(TextOctets(KeyText(k)))
  }

  /** Each dependency once, in order, with the digest of its contents. */
  function HashDependencies(paths: seq<string>, files: Files): seq<Dependency> {
    var sorted := SortUnique(StringLess, paths);
    seq(|sorted|, i requires 0 <= i < |sorted| =>
      Dependency(sorted[i], if sorted[i] in files then Digest(files[sorted[i]]) else ""))
  }

  function EntryOf(x: Extraction, files: Files): Entry {
    Entry(x.graph, x.diagnostics, x.matches, StoredRecords(x.records), HashDependencies(x.dependencies, files), x.astBytes, x.factBytes)
  }

  /** Every dependency can be hashed. Without that no entry is made. */
  predicate Readable(paths: seq<string>, files: Files) {
    forall p :: p in paths ==> p in files
  }

  /** The frontend lists what it read, the command's own file included, and sizes are 64-bit values. */
  ghost predicate Proper(k: KeyInputs, x: Extraction) {
    && Valid(x.graph) && SourcesFit(x.graph) && x.astBytes < Streams.TWO_64 && x.factBytes < Streams.TWO_64
    && DistinctNames(x.records) && |x.matches| == |k.rules| && k.file in x.dependencies
  }

  predicate SameOn(f: Files, g: Files, paths: seq<string>) {
    forall p :: p in paths ==> p in f && p in g && f[p] == g[p]
  }

  /** The frontend depends on the command and on the contents of the files it lists, and on
      nothing else. */
  ghost predicate Deterministic(extract: Extractor) {
    && (forall k, f :: extract(k, f).Some? ==> Proper(k, extract(k, f).value))
    && (forall k, f, g :: extract(k, f).Some? && SameOn(f, g, extract(k, f).value.dependencies) ==> extract(k, g) == extract(k, f))
  }

  /** The limit on the output of the frontend; 0 is no limit. */
  predicate Exceeds(bytes: nat, limit: nat) {
    limit != 0 && bytes > limit
  }

  lemma DependencyMembers(paths: seq<string>, files: Files)
    requires Readable(paths, files)
    ensures forall p :: p in paths ==> Dependency(p, Digest(files[p])) in HashDependencies(paths, files)
    ensures forall d :: d in HashDependencies(paths, files) ==> d.path in paths
  {
    hide Digest, SortUnique;
    StringOrder();
    SortUniqueSpec(StringLess, paths);
    var sorted, ds := SortUnique(StringLess, paths), HashDependencies(paths, files);
    forall p | p in paths ensures Dependency(p, Digest(files[p])) in ds {
      assert p in sorted;
      var i :| 0 <= i < |sorted| && sorted[i] == p;
      assert ds[i] == Dependency(p, Digest(files[p]));
    }
  }

  // ---- a hit is what the frontend would find now

  /** The key texts and the file contents that are hashed, and the selectors in callback rules. */
  datatype Hashed = Hashed(texts: set<string>, contents: set<seq<Octet>>, selectors: set<Selector>)

  /** No two of them have the same digest, or the same description. */
  ghost predicate CollisionFree(h: Hashed) {
    && (forall a, b :: a in h.texts && b in h.texts && Digest(TextOctets(a)) == Digest(TextOctets(b)) ==> a == b)
    && (forall a, b :: a in h.contents && b in h.contents && Digest(a) == Digest(b) ==> a == b)
    && (forall a, b :: a in h.selectors && b in h.selectors && Describe(a) == Describe(b) ==> a == b)
  }

  ghost predicate KeyHashed(h: Hashed, k: KeyInputs)
    requires Formed(k)
  {
    KeyText(k) in h.texts && forall i :: 0 <= i < |k.rules| ==> k.rules[i].callee in h.selectors
  }

  /** Everything that is hashed when a unit is indexed. */
  ghost predicate AllHashed(h: Hashed, k: KeyInputs, files: Files)
    requires Formed(k)
  {
    KeyHashed(h, k) && forall p :: p in files ==> files[p] in h.contents
  }

  /** The stored text was written for this key, from some files that were indexed, by a run whose
      limit is at most the one given. */
  ghost predicate Genuine(extract: Extractor, hashed: Hashed, limit: nat, key: string, text: string) {
    exists k, files :: GenuineFor(extract, hashed, limit, key, text, k, files)
  }

  ghost predicate GenuineFor(
    extract: Extractor, hashed: Hashed, limit: nat, key: string, text: string, k: KeyInputs, files: Files)
  {
    && Formed(k) && KeyOf(k) == key && AllHashed(hashed, k, files)
    && extract(k, files).Some? && Readable(extract(k, files).value.dependencies, files)
    && !Exceeds(extract(k, files).value.astBytes, limit)
    && text == EntryText(key, EntryOf(extract(k, files).value, files))
  }

  lemma SameKeySameInputs(h: Hashed, a: KeyInputs, b: KeyInputs)
    requires Formed(a) && Formed(b) && KeyOf(a) == KeyOf(b) && CollisionFree(h)
    requires KeyHashed(h, a) && KeyHashed(h, b)
    ensures a == b
  {
    hide Digest, TextOctets, KeyText, Describe;
    KeyTextInjective(a, b);
    forall i | 0 <= i < |a.rules| ensures a.rules[i] == b.rules[i] { assert SameRule(a.rules[i], b.rules[i]); }
    assert a.rules == b.rules;
  }

  lemma UnchangedFiles(hashed: Hashed, paths: seq<string>, f: Files, g: Files)
    requires CollisionFree(hashed) && (forall p :: p in f ==> f[p] in hashed.contents) && (forall p :: p in g ==> g[p] in hashed.contents)
    requires Readable(paths, f) && forall d :: d in HashDependencies(paths, f) ==> Unchanged(g, d)
    ensures SameOn(f, g, paths)
  {
    hide Digest, HashDependencies, Describe;
    DependencyMembers(paths, f);
    forall p | p in paths ensures p in g && f[p] == g[p] {
      assert Unchanged(g, Dependency(p, Digest(f[p])));
    }
  }

  lemma HitOnEntry(x: Extraction, k: KeyInputs, f: Files, files: Files, e: Entry)
    requires Formed(k) && Proper(k, x) && Load(Some(EntryText(KeyOf(k), EntryOf(x, f))), KeyOf(k), k.file, files) == Hit(e)
    ensures e == EntryOf(x, f).(graph := Canonicalize(x.graph))
    ensures forall d :: d in HashDependencies(x.dependencies, f) ==> Unchanged(files, d)
  {
    hide KeyText, Digest, Canonicalize, Load, ReadEntry, HashDependencies, StoredRecords, CountsFit, KeyOf, Unchanged, Valid, SourcesFit;
    EntryRoundTrip(KeyOf(k), EntryOf(x, f));
    HitIff(Some(EntryText(KeyOf(k), EntryOf(x, f))), KeyOf(k), k.file, files, e);
  }

  /** A hit on a genuine entry is, up to the form of its graph, the entry that would be made from
      the files as they are now. */
  lemma HitIsFresh(extract: Extractor, hashed: Hashed, limit: nat, text: string, k: KeyInputs, files: Files, e: Entry)
    requires Deterministic(extract) && CollisionFree(hashed) && Formed(k) && AllHashed(hashed, k, files)
    requires Genuine(extract, hashed, limit, KeyOf(k), text) && Load(Some(text), KeyOf(k), k.file, files) == Hit(e)
    ensures extract(k, files).Some?
    ensures var x := extract(k, files).value;
            && Proper(k, x) && e.graph == Canonicalize(x.graph) && e.diagnostics == x.diagnostics
            && e.ruleMatches == x.matches && e.records == StoredRecords(x.records)
            && e.astBytes == x.astBytes && !Exceeds(x.astBytes, limit)
  {
    hide KeyText, Digest, Canonicalize, Load, HashDependencies, StoredRecords, SourcesFit, KeyOf, CollisionFree, Valid, TextOctets, Exceeds;
    var k', f :| GenuineFor(extract, hashed, limit, KeyOf(k), text, k', f);
    SameKeySameInputs(hashed, k', k);
    var x := extract(k, f).value;
    HitOnEntry(x, k, f, files, e);
    UnchangedFiles(hashed, x.dependencies, f, files);
    assert extract(k, files) == extract(k, f);
  }
}
