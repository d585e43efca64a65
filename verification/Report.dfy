/** The report of an analysis: findings, entry points of providers, and dead components. */
module Report {
  import opened Wrappers
  import opened Orders
  import opened Symbols
  import opened Facts
  import opened Canonical
  import opened SortKeys
  import opened Digraph
  import opened Tarjan
  import opened Condensation
  import opened Analysis
  import opened Lines
  import opened Findings

  // ---- lists of entries

  datatype Entry = Entry(symbol: nat, origin: Option<nat>, evidence: Evidence)

  function EntryKey(symbols: seq<Symbol>, e: Entry): SortKey {
    SortKey(KeyAt(symbols, e.symbol), if e.origin.Some? then KeyAt(symbols, e.origin.value) else "", 0, e.evidence)
  }

  predicate EntryLess(symbols: seq<Symbol>, a: Entry, b: Entry) {
    SortKeyLess(EntryKey(symbols, a), EntryKey(symbols, b))
  }

  function EntryOrder(symbols: seq<Symbol>): (Entry, Entry) -> bool {
    (a: Entry, b: Entry) => EntryLess(symbols, a, b)
  }

  /** A provider edge from a live symbol, or a provider root, to a definition that is live only
      through providers. */
  ghost predicate IsProviderEntry(c: Contents, r: Reachability, e: Entry)
    requires Sized(c, r)
  {
    && e.symbol < |c.symbols| && r.provider[e.symbol] && c.symbols[e.symbol].defined && c.symbols[e.symbol].scope == Reportable
    && match e.origin
       case Some(from) => from < |c.symbols| && r.reachable[from] &&
         exists x: Fact<nat> :: x in c.edges && x.Edge? && IsProviderEdge(x.edgeKind) && x.from == from && x.to == e.symbol && x.evidence == e.evidence
       case None =>
         exists x: Fact<nat> :: x in c.roots && x.Root? && IsProviderRoot(x.rootKind) && x.symbol == e.symbol && x.evidence == e.evidence
  }

  ghost predicate IsApiEntry(c: Contents, e: Entry) {
    && e.symbol < |c.symbols| && c.symbols[e.symbol].scope == Reportable && e.origin.None?
    && Root(e.symbol, PublicApi, e.evidence) in c.roots
  }

  predicate InRangeEntry(symbols: seq<Symbol>, e: Entry) {
    e.symbol < |symbols| && (e.origin.Some? ==> e.origin.value < |symbols|)
  }

  lemma EntryOrderWeak(symbols: seq<Symbol>)
    ensures StrictWeak(EntryOrder(symbols))
  {
    hide SortKeyLess, EntryKey;
    var less := EntryOrder(symbols);
    forall a, b, c
      ensures less(a, b) && less(b, c) ==> less(a, c)
      ensures !less(a, b) && !less(b, c) ==> !less(a, c)
    {
      SortKeyTrans(EntryKey(symbols, a), EntryKey(symbols, b), EntryKey(symbols, c));
    }
    forall a ensures !less(a, a) { SortKeyTrans(EntryKey(symbols, a), EntryKey(symbols, a), EntryKey(symbols, a)); }
  }

  lemma EntryKeyInjective(symbols: seq<Symbol>, a: Entry, b: Entry)
    requires DistinctKeys(symbols) && (forall i :: 0 <= i < |symbols| ==> symbols[i].key != [])
    requires InRangeEntry(symbols, a) && InRangeEntry(symbols, b) && EntryKey(symbols, a) == EntryKey(symbols, b)
    ensures a == b
  {
    forall i: nat, j: nat | i < |symbols| && j < |symbols| && KeyAt(symbols, i) == KeyAt(symbols, j) ensures i == j {
      FindUnique(symbols, i);
      FindUnique(symbols, j);
    }
  }

  /** Sorting and dropping repeats: every entry once. */
  lemma EntriesOnce(c: Contents, list: seq<Entry>)
    requires Valid(c) && forall e :: e in list ==> InRangeEntry(c.symbols, e)
    ensures var s := SortUnique(EntryOrder(c.symbols), list);
            Distinct(s) && StrictlySortedBy(EntryOrder(c.symbols), s) && forall e :: e in s <==> e in list
  {
    hide Valid, EntryKey, SortKeyLess;
    var less := EntryOrder(c.symbols);
    EntryOrderWeak(c.symbols);
    KeysOfValid(c);
    forall a, b | a in list && b in list && a != b ensures less(a, b) || less(b, a) {
      SortKeyTrans(EntryKey(c.symbols, a), EntryKey(c.symbols, b), EntryKey(c.symbols, a));
      if EntryKey(c.symbols, a) == EntryKey(c.symbols, b) { EntryKeyInjective(c.symbols, a, b); }
    }
    SortUniqueUntied(less, list);
    StrictDistinct(less, SortUnique(less, list));
  }

  lemma KeysOfValid(c: Contents)
    requires Valid(c)
    ensures DistinctKeys(c.symbols) && forall i :: 0 <= i < |c.symbols| ==> c.symbols[i].key != []
  {
    forall i | 0 <= i < |c.symbols| ensures c.symbols[i].key != [] { assert Admissible(c.symbols[i]); }
  }

  predicate EdgeEntry(c: Contents, r: Reachability, x: Fact<nat>)
    requires Sized(c, r) && InRange(x, |c.symbols|)
  {
    x.Edge? && IsProviderEdge(x.edgeKind) && r.reachable[x.from] && r.provider[x.to]
    && c.symbols[x.to].defined && c.symbols[x.to].scope == Reportable
  }

  predicate RootEntry(c: Contents, r: Reachability, x: Fact<nat>)
    requires Sized(c, r) && InRange(x, |c.symbols|)
  {
    x.Root? && IsProviderRoot(x.rootKind) && r.provider[x.symbol] && c.symbols[x.symbol].defined && c.symbols[x.symbol].scope == Reportable
  }

  lemma FactInRange(c: Contents, x: Fact<nat>)
    requires Valid(c) && x in c.All()
    ensures InRange(x, |c.symbols|)
  {
  }

  method ProviderEntries(c: Contents, r: Reachability) returns (list: seq<Entry>)
    requires Valid(c) && Sized(c, r)
    ensures Distinct(list) && StrictlySortedBy(EntryOrder(c.symbols), list)
    ensures forall e :: e in list <==> IsProviderEntry(c, r, e)
  {
    hide Valid, EntryOrder, SortUnique, Distinct, StrictlySortedBy, IsProviderEdge, IsProviderRoot;
    var edges := EdgeEntries(c, r);
    var roots := RootEntries(c, r);
    EntriesOnce(c, edges + roots);
    list := SortUnique(EntryOrder(c.symbols), edges + roots);
  }

  method EdgeEntries(c: Contents, r: Reachability) returns (list: seq<Entry>)
    requires Valid(c) && Sized(c, r)
    ensures forall e :: e in list <==> e.origin.Some? && IsProviderEntry(c, r, e)
    ensures forall e :: e in list ==> InRangeEntry(c.symbols, e)
  {
    hide Valid, IsProviderEdge, IsProviderRoot;
    list := [];
    for k := 0 to |c.edges|
      invariant forall e :: e in list <==> exists j :: 0 <= j < k && EdgeEntryAt(c, r, j, e)
    {
      var x := c.edges[k];
      assert x in c.edges && x in c.All();
      FactInRange(c, x);
      if x.Edge? && EdgeEntry(c, r, x) {
        assert EdgeEntryAt(c, r, k, Entry(x.to, Some(x.from), x.evidence));
        list := list + [Entry(x.to, Some(x.from), x.evidence)];
      }
    }
    forall e ensures e in list <==> e.origin.Some? && IsProviderEntry(c, r, e) {
      if e.origin.Some? && IsProviderEntry(c, r, e) {
        var x: Fact<nat> :| x in c.edges && x.Edge? && IsProviderEdge(x.edgeKind) && x.from == e.origin.value && x.to == e.symbol && x.evidence == e.evidence;
        var j :| 0 <= j < |c.edges| && c.edges[j] == x;
        assert EdgeEntryAt(c, r, j, e);
      }
    }
  }

  ghost predicate EdgeEntryAt(c: Contents, r: Reachability, j: nat, e: Entry)
    requires Sized(c, r)
  {
    j < |c.edges| && InRange(c.edges[j], |c.symbols|) && EdgeEntry(c, r, c.edges[j])
    && e == Entry(c.edges[j].to, Some(c.edges[j].from), c.edges[j].evidence)
  }

  method RootEntries(c: Contents, r: Reachability) returns (list: seq<Entry>)
    requires Valid(c) && Sized(c, r)
    ensures forall e :: e in list <==> e.origin.None? && IsProviderEntry(c, r, e)
    ensures forall e :: e in list ==> InRangeEntry(c.symbols, e)
  {
    hide Valid, IsProviderEdge, IsProviderRoot;
    list := [];
    for k := 0 to |c.roots|
      invariant forall e :: e in list <==> exists j :: 0 <= j < k && RootEntryAt(c, r, j, e)
    {
      var x := c.roots[k];
      assert x in c.roots && x in c.All();
      FactInRange(c, x);
      if x.Root? && RootEntry(c, r, x) {
        assert RootEntryAt(c, r, k, Entry(x.symbol, None, x.evidence));
        list := list + [Entry(x.symbol, None, x.evidence)];
      }
    }
    forall e ensures e in list <==> e.origin.None? && IsProviderEntry(c, r, e) {
      if e.origin.None? && IsProviderEntry(c, r, e) {
        var x: Fact<nat> :| x in c.roots && x.Root? && IsProviderRoot(x.rootKind) && x.symbol == e.symbol && x.evidence == e.evidence;
        var j :| 0 <= j < |c.roots| && c.roots[j] == x;
        assert RootEntryAt(c, r, j, e);
      }
    }
  }

  ghost predicate RootEntryAt(c: Contents, r: Reachability, j: nat, e: Entry)
    requires Sized(c, r)
  {
    j < |c.roots| && InRange(c.roots[j], |c.symbols|) && RootEntry(c, r, c.roots[j])
    && e == Entry(c.roots[j].symbol, None, c.roots[j].evidence)
  }

  /** The public API: its reportable entries, and which symbols are its roots. */
  method PublicApiRoots(c: Contents) returns (list: seq<Entry>, isRoot: seq<bool>)
    requires Valid(c)
    ensures Distinct(list) && StrictlySortedBy(EntryOrder(c.symbols), list)
    ensures forall e :: e in list <==> IsApiEntry(c, e)
    ensures |isRoot| == |c.symbols| && forall i: nat :: i < |c.symbols| ==> (isRoot[i] <==> i in ApiRoots(c))
  {
    hide Valid, EntryOrder, SortUnique, Distinct, StrictlySortedBy;
    list, isRoot := [], seq(|c.symbols|, _ => false);
    for k := 0 to |c.roots|
      invariant forall e :: e in list <==> exists j :: 0 <= j < k && ApiEntryAt(c, j, e)
      invariant |isRoot| == |c.symbols|
      invariant forall i: nat :: i < |c.symbols| ==>
        (isRoot[i] <==> exists j :: 0 <= j < k && c.roots[j].Root? && c.roots[j].rootKind == PublicApi && c.roots[j].symbol == i)
    {
      var x := c.roots[k];
      assert x in c.roots && x in c.All();
      FactInRange(c, x);
      if x.Root? && x.rootKind == PublicApi {
        isRoot := isRoot[x.symbol := true];
        if c.symbols[x.symbol].scope == Reportable {
          assert ApiEntryAt(c, k, Entry(x.symbol, None, x.evidence));
          list := list + [Entry(x.symbol, None, x.evidence)];
        }
      }
    }
    forall e ensures e in list <==> IsApiEntry(c, e) {
      if IsApiEntry(c, e) {
        var j :| 0 <= j < |c.roots| && c.roots[j] == Root(e.symbol, PublicApi, e.evidence);
        assert ApiEntryAt(c, j, e);
      }
    }
    forall i: nat | i < |c.symbols| && i in ApiRoots(c) ensures isRoot[i] {
      var x: Fact<nat> :| x in c.roots && x.Root? && x.rootKind == PublicApi && x.symbol == i;
      var j :| 0 <= j < |c.roots| && c.roots[j] == x;
    }
    EntriesOnce(c, list);
    list := SortUnique(EntryOrder(c.symbols), list);
  }

  ghost predicate ApiEntryAt(c: Contents, j: nat, e: Entry) {
    j < |c.roots| && InRange(c.roots[j], |c.symbols|) && c.roots[j].Root? && c.roots[j].rootKind == PublicApi
    && c.symbols[c.roots[j].symbol].scope == Reportable && e == Entry(c.roots[j].symbol, None, c.roots[j].evidence)
  }

  // ---- components

  datatype Member = Member(symbol: nat, suppressed: bool)

  datatype Summary = Summary(owner: string, members: seq<Member>, lines: Estimate)

  datatype Aggregate = Aggregate(
    weak: nat, sccs: seq<nat>, edges: seq<(nat, nat)>, members: seq<Member>, lines: Estimate,
    types: seq<Summary>, files: seq<Summary>, directories: seq<Summary>)

  function Ids(members: seq<Member>): seq<nat> {
    seq(|members|, i requires 0 <= i < |members| => members[i].symbol)
  }

  ghost predicate EstimateOf(symbols: seq<Symbol>, members: seq<Member>, e: Estimate) {
    && InBounds(symbols, Ids(members))
    && e.loc == |Covered(symbols, Ids(members))| && e.unmeasured == UnmeasuredCount(symbols, Ids(members))
  }

  /** The members of one owner, in order. */
  function OwnedBy(symbols: seq<Symbol>, members: seq<Member>, ownerOf: Symbol -> string, owner: string): seq<Member>
    requires InBounds(symbols, Ids(members))
  {
    if members == [] then []
    else
      var init, last := members[..|members| - 1], members[|members| - 1];
      InBoundsInit(symbols, members);
      OwnedBy(symbols, init, ownerOf, owner) + if ownerOf(symbols[last.symbol]) == owner then [last] else []
  }

  lemma InBoundsInit(symbols: seq<Symbol>, members: seq<Member>)
    requires InBounds(symbols, Ids(members))
    ensures forall i :: 0 <= i < |members| ==> members[i].symbol < |symbols|
    ensures forall k :: 0 <= k <= |members| ==> InBounds(symbols, Ids(members[..k]))
  {
    forall i | 0 <= i < |members| ensures members[i].symbol < |symbols| { assert Ids(members)[i] < |symbols|; }
  }

  lemma {:induction false} OwnedMembers(symbols: seq<Symbol>, members: seq<Member>, ownerOf: Symbol -> string, owner: string, m: Member)
    requires InBounds(symbols, Ids(members))
    ensures m in OwnedBy(symbols, members, ownerOf, owner) <==>
      m in members && m.symbol < |symbols| && ownerOf(symbols[m.symbol]) == owner
  {
    InBoundsInit(symbols, members);
    if members != [] {
      var init, last := members[..|members| - 1], members[|members| - 1];
      OwnedMembers(symbols, init, ownerOf, owner, m);
      assert members == init + [last];
    }
  }

  lemma OwnedInBounds(symbols: seq<Symbol>, members: seq<Member>, ownerOf: Symbol -> string, owner: string)
    requires InBounds(symbols, Ids(members))
    ensures InBounds(symbols, Ids(OwnedBy(symbols, members, ownerOf, owner)))
  {
    hide OwnedBy;
    var o := OwnedBy(symbols, members, ownerOf, owner);
    forall i | 0 <= i < |o| ensures o[i].symbol < |symbols| {
      assert o[i] in o;
      OwnedMembers(symbols, members, ownerOf, owner, o[i]);
    }
  }

  /** One summary for each owner with a name, in the order of the names. */
  ghost predicate Summarizes(symbols: seq<Symbol>, members: seq<Member>, ownerOf: Symbol -> string, s: seq<Summary>)
    requires InBounds(symbols, Ids(members))
  {
    && (forall i, j :: 0 <= i < j < |s| ==> StringLess(s[i].owner, s[j].owner))
    && (forall i :: 0 <= i < |s| ==>
          && s[i].owner != [] && s[i].members != []
          && s[i].members == OwnedBy(symbols, members, ownerOf, s[i].owner)
          && EstimateOf(symbols, s[i].members, s[i].lines))
    && (forall m :: m in members && m.symbol < |symbols| && ownerOf(symbols[m.symbol]) != [] ==>
          HasOwner(s, ownerOf(symbols[m.symbol])))
  }

  ghost predicate HasOwner(s: seq<Summary>, owner: string) {
    exists i :: 0 <= i < |s| && s[i].owner == owner
  }

  method CollectOwners(symbols: seq<Symbol>, members: seq<Member>, ownerOf: Symbol -> string) returns (owners: seq<string>)
    requires InBounds(symbols, Ids(members))
    ensures StrictlySortedBy(StringLess, owners)
    ensures forall o :: o in owners <==> o != [] && OwnedBy(symbols, members, ownerOf, o) != []
  {
    hide StringLess;
    var seen: seq<string> := [];
    InBoundsInit(symbols, members);
    for k := 0 to |members|
      invariant forall o :: o in seen <==> o != [] && OwnedBy(symbols, members[..k], ownerOf, o) != []
    {
      assert members[..k + 1][..k] == members[..k];
      var o := ownerOf(symbols[members[k].symbol]);
      if o != [] { seen := seen + [o]; }
    }
    assert members[..|members|] == members;
    StringOrder();
    SortUniqueSpec(StringLess, seen);
    owners := SortUnique(StringLess, seen);
  }

  method SummarizeOwnership(symbols: seq<Symbol>, members: seq<Member>, ownerOf: Symbol -> string) returns (s: seq<Summary>)
    requires InBounds(symbols, Ids(members))
    ensures Summarizes(symbols, members, ownerOf, s)
  {
    hide StringLess, OwnedBy, Covered, UnmeasuredCount, InBounds;
    var owners := CollectOwners(symbols, members, ownerOf);
    s := [];
    for k := 0 to |owners|
      invariant |s| == k
      invariant forall i :: 0 <= i < k ==>
        && s[i].owner == owners[i] && s[i].members == OwnedBy(symbols, members, ownerOf, s[i].owner)
        && EstimateOf(symbols, s[i].members, s[i].lines)
    {
      var owned := OwnedBy(symbols, members, ownerOf, owners[k]);
      OwnedInBounds(symbols, members, ownerOf, owners[k]);
      var lines := EstimateLines(symbols, Ids(owned));
      s := s + [Summary(owners[k], owned, lines)];
    }
    forall i | 0 <= i < |s| ensures s[i].owner != [] && s[i].members != [] { assert owners[i] in owners; }
    forall m | m in members && m.symbol < |symbols| && ownerOf(symbols[m.symbol]) != []
      ensures HasOwner(s, ownerOf(symbols[m.symbol]))
    {
      var o := ownerOf(symbols[m.symbol]);
      OwnedMembers(symbols, members, ownerOf, o, m);
      assert o in owners;
      var i :| 0 <= i < |owners| && owners[i] == o;
      assert s[i].owner == o;
    }
  }
}
