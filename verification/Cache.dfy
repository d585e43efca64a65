/** Looking up a cache entry: it is used only if every file it was made from is unchanged. */
module Cache {
  import opened Wrappers
  import opened Fips180
  import opened CacheText
  import CacheReader

  type Files = map<string, seq<Octet>>

  /** Unusable entries are reported in a warning; a stale one is not. */
  datatype Lookup = Hit(entry: Entry) | Absent | Stale | Unusable

  predicate LowerHex(s: string) {
    forall i :: 0 <= i < |s| ==> '0' <= s[i] <= '9' || 'a' <= s[i] <= 'f'
  }

  predicate HexText(s: string) {
    |s| == 64 && LowerHex(s)
  }

  /** What one dependency says about the entry: None if its file is unchanged. */
  function Judge(files: Files, d: Dependency): Option<Lookup> {
    if !HexText(d.digest) then Some(Unusable)
    else if d.path !in files then Some(Unusable)
    else if Digest(files[d.path]) != d.digest then Some(Stale)
    else None
  }

  /** The first dependency that rules the entry out decides. */
  function JudgeAll(files: Files, ds: seq<Dependency>): Option<Lookup> {
    if ds == [] then None
    else if Judge(files, ds[0]).Some? then Judge(files, ds[0])
    else JudgeAll(files, ds[1..])
  }

  predicate Lists(ds: seq<Dependency>, path: string) {
    exists d :: d in ds && d.path == path
  }

  function Load(stored: Option<string>, key: string, source: string, files: Files): Lookup {
    match stored case None => Absent case Some(text) =>
    match ReadEntry(text, key) case None => Unusable case Some(entry) =>
    if !Lists(entry.dependencies, source) then Unusable
    else
      match JudgeAll(files, entry.dependencies)
      case Some(answer) => answer
      case None => Hit(entry)
  }

  predicate Unchanged(files: Files, d: Dependency) {
    d.path in files && Digest(files[d.path]) == d.digest
  }

  lemma WordIsHex(w: Word)
    ensures LowerHex(HexWord(w))
  {
    hide HexDigit;
    forall x ensures LowerHex([HexDigit(x)]) { DigitIsHex(x); }
    var s := HexWord(w);
    forall i | 0 <= i < |s| ensures LowerHex([s[i]]) {}
    forall i | 0 <= i < |s| ensures '0' <= s[i] <= '9' || 'a' <= s[i] <= 'f' { assert [s[i]][0] == s[i]; }
  }

  lemma DigitIsHex(x: Word)
    ensures LowerHex([HexDigit(x)])
  {
  }

  lemma DigestIsHex(m: seq<Octet>)
    ensures HexText(Digest(m))
  {
    hide HashBlocks, Pad, HexWord, LowerHex;
    var v := HashBlocks(Pad(m));
    WordIsHex(v.a);
    WordIsHex(v.b);
    var s := HexWord(v.a) + HexWord(v.b);
    HexJoin(HexWord(v.a), HexWord(v.b));
    s := HexAppend(s, v.c);
    s := HexAppend(s, v.d);
    s := HexAppend(s, v.e);
    s := HexAppend(s, v.f);
    s := HexAppend(s, v.g);
    s := HexAppend(s, v.h);
  }

  lemma HexJoin(a: string, b: string)
    requires LowerHex(a) && LowerHex(b)
    ensures LowerHex(a + b)
  {
  }

  lemma HexAppend(s: string, w: Word) returns (t: string)
    requires LowerHex(s)
    ensures t == s + HexWord(w) && LowerHex(t)
  {
    hide LowerHex, HexWord;
    WordIsHex(w);
    HexJoin(s, HexWord(w));
    t := s + HexWord(w);
  }

  lemma {:induction false} JudgeAllIff(files: Files, ds: seq<Dependency>)
    ensures JudgeAll(files, ds).None? <==> forall d :: d in ds ==> Unchanged(files, d)
    ensures JudgeAll(files, ds).Some? ==> JudgeAll(files, ds).value == Stale || JudgeAll(files, ds).value == Unusable
  {
    hide Digest, HexText;
    if ds != [] {
      JudgeAllIff(files, ds[1..]);
      assert ds == [ds[0]] + ds[1..];
      if ds[0].path in files { DigestIsHex(files[ds[0].path]); }
      assert Judge(files, ds[0]).None? <==> Unchanged(files, ds[0]);
    }
  }

  /** A lookup is a hit exactly when the stored text is an entry for the key, the entry names the
      source among its dependencies, and every dependency still has the recorded digest. */
  lemma HitIff(stored: Option<string>, key: string, source: string, files: Files, e: Entry)
    ensures Load(stored, key, source, files) == Hit(e) <==>
      && stored.Some? && ReadEntry(stored.value, key) == Some(e)
      && Lists(e.dependencies, source)
      && forall d :: d in e.dependencies ==> Unchanged(files, d)
  {
    hide ReadEntry, JudgeAll, Lists, Unchanged;
    if stored.Some? && ReadEntry(stored.value, key).Some? {
      JudgeAllIff(files, ReadEntry(stored.value, key).value.dependencies);
    }
  }

  method LoadEntry(stored: Option<string>, key: string, source: string, files: Files) returns (r: Lookup)
    ensures r == Load(stored, key, source, files)
  {
    hide ReadEntry, Digest, HexText;
    if stored.None? { return Absent; }
    var entry := CacheReader.Read(stored.value, key);
    if entry.None? || !Lists(entry.value.dependencies, source) { return Unusable; }
    var ds := entry.value.dependencies;
    var index := 0;
    assert ds[0..] == ds;
    while index < |ds|
      invariant index <= |ds| && JudgeAll(files, ds) == JudgeAll(files, ds[index..])
    {
      var d := ds[index];
      if !HexText(d.digest) { return Unusable; }
      if d.path !in files { return Unusable; }
      if Digest(files[d.path]) != d.digest { return Stale; }
      index := index + 1;
    }
    r := Hit(entry.value);
  }

  /** The first dependency that is not unchanged. */
  predicate FirstChanged(files: Files, ds: seq<Dependency>, i: nat) {
    i < |ds| && !Unchanged(files, ds[i]) && forall j :: 0 <= j < i ==> Unchanged(files, ds[j])
  }

  lemma {:induction false} JudgeFirst(files: Files, ds: seq<Dependency>, i: nat)
    requires FirstChanged(files, ds, i)
    ensures JudgeAll(files, ds) == Judge(files, ds[i])
  {
    hide Digest, HexText;
    if ds[0].path in files { DigestIsHex(files[ds[0].path]); }
    if i > 0 {
      assert Unchanged(files, ds[0]);
      forall j | 0 <= j < i - 1 ensures Unchanged(files, ds[1..][j]) { assert Unchanged(files, ds[j + 1]); }
      JudgeFirst(files, ds[1..], i - 1);
    }
  }

  /** The first changed dependency is a file that still exists, and its recorded digest is one. */
  predicate OutOfDate(files: Files, ds: seq<Dependency>) {
    exists i :: 0 <= i < |ds| && FirstChanged(files, ds, i) && HexText(ds[i].digest) && ds[i].path in files
  }

  lemma JudgedOutOfDate(files: Files, ds: seq<Dependency>)
    ensures JudgeAll(files, ds) == Some(Stale) <==> OutOfDate(files, ds)
  {
    hide Digest, HexText, FirstChanged;
    JudgeAllIff(files, ds);
    if JudgeAll(files, ds).Some? {
      var i := FindChanged(files, ds);
      FirstInRange(files, ds, i);
      JudgedStale(files, ds, i);
      forall j | 0 <= j < |ds| && FirstChanged(files, ds, j) ensures i == j { OneFirst(files, ds, i, j); }
    } else {
      forall j | 0 <= j < |ds| ensures !FirstChanged(files, ds, j) { NoneChanged(files, ds, j); }
    }
  }

  lemma FirstInRange(files: Files, ds: seq<Dependency>, i: nat)
    requires FirstChanged(files, ds, i)
    ensures i < |ds|
  {
  }

  /** An entry that is not a hit is passed over in silence exactly when there is none, or it is an entry
      for the key that names the source and is out of date; in all other cases it is reported as
      unusable. */
  lemma StaleIff(stored: Option<string>, key: string, source: string, files: Files)
    ensures Load(stored, key, source, files) == Absent <==> stored.None?
    ensures Load(stored, key, source, files) == Stale <==>
      && stored.Some? && ReadEntry(stored.value, key).Some?
      && (exists d :: d in ReadEntry(stored.value, key).value.dependencies && d.path == source)
      && OutOfDate(files, ReadEntry(stored.value, key).value.dependencies)
  {
    hide ReadEntry, OutOfDate, JudgeAll;
    if stored.Some? && ReadEntry(stored.value, key).Some? {
      var ds := ReadEntry(stored.value, key).value.dependencies;
      JudgeAllIff(files, ds);
      JudgedOutOfDate(files, ds);
    }
  }

  lemma FindChanged(files: Files, ds: seq<Dependency>) returns (i: nat)
    requires exists d :: d in ds && !Unchanged(files, d)
    ensures FirstChanged(files, ds, i)
  {
    hide Unchanged;
    i := 0;
    while Unchanged(files, ds[i])
      invariant i < |ds| && forall j :: 0 <= j < i ==> Unchanged(files, ds[j])
      invariant exists j :: i <= j < |ds| && !Unchanged(files, ds[j])
      decreases |ds| - i
    {
      i := i + 1;
    }
  }

  lemma OneFirst(files: Files, ds: seq<Dependency>, i: nat, j: nat)
    requires FirstChanged(files, ds, i) && FirstChanged(files, ds, j)
    ensures i == j
  {
  }

  lemma NoneChanged(files: Files, ds: seq<Dependency>, j: nat)
    requires j < |ds| && forall d :: d in ds ==> Unchanged(files, d)
    ensures !FirstChanged(files, ds, j)
  {
  }

  lemma JudgedStale(files: Files, ds: seq<Dependency>, i: nat)
    requires FirstChanged(files, ds, i)
    ensures JudgeAll(files, ds) == Some(Stale) <==> HexText(ds[i].digest) && ds[i].path in files
  {
    hide Digest, HexText;
    JudgeFirst(files, ds, i);
  }
}
