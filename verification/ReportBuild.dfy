/** Putting a report together. */
module ReportBuild {
  import opened Wrappers
  import opened Orders
  import opened Symbols
  import opened Facts
  import opened Canonical
  import opened SortKeys
  import opened Digraph
  import opened Tarjan
  import opened Condensation
  import opened Analysis
  import opened Lines
  import opened Findings
  import opened Report

  datatype AnalysisReport = AnalysisReport(
    counts: Counts, publicApi: seq<Entry>, providerReachable: seq<Entry>,
    findings: seq<Finding>, suppressedFindings: seq<SuppressedFinding>, components: seq<Aggregate>)

  // ---- the order of findings: file, line, qualified name, signature

  function FindingKey(symbols: seq<Symbol>, id: nat): SortKey {
    if id < |symbols| then
      var p := PrimaryExtent(symbols[id]).location;
      SortKey(p.file, "", p.line, Evidence(symbols[id].qualifiedName, symbols[id].signature))
    else SortKey("", "", 0, Evidence("", ""))
  }

  function FindingOrder(symbols: seq<Symbol>): (Finding, Finding) -> bool {
    (a: Finding, b: Finding) => SortKeyLess(FindingKey(symbols, a.symbol), FindingKey(symbols, b.symbol))
  }

  function SuppressedOrder(symbols: seq<Symbol>): (SuppressedFinding, SuppressedFinding) -> bool {
    (a: SuppressedFinding, b: SuppressedFinding) =>
      SortKeyLess(FindingKey(symbols, a.finding.symbol), FindingKey(symbols, b.finding.symbol))
  }

  lemma FindingOrders(symbols: seq<Symbol>)
    ensures StrictWeak(FindingOrder(symbols)) && StrictWeak(SuppressedOrder(symbols))
  {
    hide SortKeyLess, FindingKey;
    forall x, y, z
      ensures SortKeyLess(x, y) && SortKeyLess(y, z) ==> SortKeyLess(x, z)
      ensures !SortKeyLess(x, y) && !SortKeyLess(y, z) ==> !SortKeyLess(x, z)
      ensures !SortKeyLess(x, x)
    {
      SortKeyTrans(x, y, z);
    }
  }

  ghost function DeadDefinitions(c: Contents, r: Reachability): set<nat> {
    Definitions(c) - MarkedIds(r.reachable)
  }

  /** Exactly the unreachable definitions without a suppression, each once, in order. */
  ghost predicate ListsFindings(c: Contents, r: Reachability, findings: seq<Finding>) {
    && (forall i :: 0 <= i < |findings| ==> findings[i].symbol < |c.symbols| && findings[i] == Classified(c, findings[i].symbol))
    && (forall i, j :: 0 <= i < j < |findings| ==> findings[i].symbol != findings[j].symbol)
    && (forall id: nat :: HasFinding(findings, id) <==> id in DeadDefinitions(c, r) - SuppressedIds(c))
    && SortedBy(FindingOrder(c.symbols), findings)
  }

  ghost predicate ListsSuppressed(c: Contents, r: Reachability, list: seq<SuppressedFinding>) {
    && (forall i :: 0 <= i < |list| ==>
         && list[i].finding.symbol < |c.symbols|
         && list[i].finding == Classified(c, list[i].finding.symbol)
         && list[i].suppressions == EvidencesOf(c.suppressions, list[i].finding.symbol))
    && (forall i, j :: 0 <= i < j < |list| ==> list[i].finding.symbol != list[j].finding.symbol)
    && (forall id: nat :: HasSuppressed(list, id) <==> id in DeadDefinitions(c, r) * SuppressedIds(c))
    && SortedBy(SuppressedOrder(c.symbols), list)
  }

  lemma FindingsSorted(c: Contents, r: Reachability, findings: seq<Finding>, suppressed: seq<SuppressedFinding>)
    requires Sized(c, r) && FoundBelow(c, r, |c.symbols|, findings, suppressed)
    ensures ListsFindings(c, r, Sort(FindingOrder(c.symbols), findings))
  {
    hide FindingKey, SortKeyLess, Classified, SuppressedIds, Sort, EvidencesOf;
    var less, s := FindingOrder(c.symbols), Sort(FindingOrder(c.symbols), findings);
    FindingOrders(c.symbols);
    SortIsSorted(less, findings);
    SortMembers(less, findings);
    SortDistinct(less, findings);
    forall i | 0 <= i < |s| ensures s[i].symbol < |c.symbols| && s[i] == Classified(c, s[i].symbol) { assert s[i] in findings; }
    forall i, j | 0 <= i < j < |s| ensures s[i].symbol != s[j].symbol {
      assert s[i] in findings && s[j] in findings;
    }
    forall id: nat ensures HasFinding(s, id) <==> HasFinding(findings, id) {
      if HasFinding(s, id) { var i :| 0 <= i < |s| && s[i].symbol == id; assert s[i] in findings; }
      if HasFinding(findings, id) { var i :| 0 <= i < |findings| && findings[i].symbol == id; assert findings[i] in s; }
    }
  }

  lemma SuppressedSorted(c: Contents, r: Reachability, findings: seq<Finding>, list: seq<SuppressedFinding>)
    requires Sized(c, r) && FoundBelow(c, r, |c.symbols|, findings, list)
    ensures ListsSuppressed(c, r, Sort(SuppressedOrder(c.symbols), list))
  {
    hide FindingKey, SortKeyLess, Classified, SuppressedIds, Sort, EvidencesOf;
    var less, s := SuppressedOrder(c.symbols), Sort(SuppressedOrder(c.symbols), list);
    FindingOrders(c.symbols);
    SortIsSorted(less, list);
    SortMembers(less, list);
    SortDistinct(less, list);
    forall i | 0 <= i < |s|
      ensures s[i].finding.symbol < |c.symbols| && s[i].finding == Classified(c, s[i].finding.symbol)
        && s[i].suppressions == EvidencesOf(c.suppressions, s[i].finding.symbol)
    {
      assert s[i] in list;
    }
    forall i, j | 0 <= i < j < |s| ensures s[i].finding.symbol != s[j].finding.symbol {
      assert s[i] in list && s[j] in list;
    }
    forall id: nat ensures HasSuppressed(s, id) <==> HasSuppressed(list, id) {
      if HasSuppressed(s, id) { var i :| 0 <= i < |s| && s[i].finding.symbol == id; assert s[i] in list; }
      if HasSuppressed(list, id) { var i :| 0 <= i < |list| && list[i].finding.symbol == id; assert list[i] in s; }
    }
  }

  // ---- the members of a component

  /** The members of the given strong components, one after the other. */
  function Flatten(sccs: seq<seq<nat>>, ids: seq<nat>): seq<nat>
    requires forall i :: 0 <= i < |ids| ==> ids[i] < |sccs|
  {
    if ids == [] then [] else Flatten(sccs, ids[..|ids| - 1]) + sccs[ids[|ids| - 1]]
  }

  ghost predicate InWeak(sccs: seq<seq<nat>>, ids: seq<nat>, x: nat) {
    exists i :: 0 <= i < |ids| && ids[i] < |sccs| && x in sccs[ids[i]]
  }

  lemma {:induction false} FlattenMembers(sccs: seq<seq<nat>>, ids: seq<nat>, x: nat)
    requires forall i :: 0 <= i < |ids| ==> ids[i] < |sccs|
    ensures x in Flatten(sccs, ids) <==> InWeak(sccs, ids, x)
  {
    if ids != [] {
      FlattenMembers(sccs, ids[..|ids| - 1], x);
      if InWeak(sccs, ids, x) {
        var i :| 0 <= i < |ids| && ids[i] < |sccs| && x in sccs[ids[i]];
        assert i < |ids| - 1 ==> ids[..|ids| - 1][i] == ids[i];
      }
    }
  }

  lemma {:induction false} FlattenDistinct(sccs: seq<seq<nat>>, ids: seq<nat>)
    requires forall i :: 0 <= i < |ids| ==> ids[i] < |sccs|
    requires forall i, j :: 0 <= i < j < |ids| ==> ids[i] < ids[j]
    requires (forall k :: 0 <= k < |sccs| ==> Distinct(sccs[k])) && Disjoint(sccs)
    ensures Distinct(Flatten(sccs, ids))
  {
    if ids != [] {
      var init, last := ids[..|ids| - 1], ids[|ids| - 1];
      FlattenDistinct(sccs, init);
      var a, b := Flatten(sccs, init), sccs[last];
      forall x | x in a ensures x !in b {
        FlattenMembers(sccs, init, x);
        var i :| 0 <= i < |init| && init[i] < |sccs| && x in sccs[init[i]];
        assert ids[i] < ids[|ids| - 1];
      }
      forall i, j | 0 <= i < j < |a + b| ensures (a + b)[i] != (a + b)[j] {
        if i < |a| <= j { assert a[i] in a && b[j - |a|] in b; }
      }
    }
  }

  function MemberOrder(symbols: seq<Symbol>): (Member, Member) -> bool {
    (a: Member, b: Member) => StringLess(KeyAt(symbols, a.symbol), KeyAt(symbols, b.symbol))
  }

  method CollectMembers(sccs: seq<seq<nat>>, ids: seq<nat>, suppressedSymbol: seq<bool>) returns (members: seq<Member>)
    requires forall i :: 0 <= i < |ids| ==> ids[i] < |sccs|
    requires forall k, i :: 0 <= k < |sccs| && 0 <= i < |sccs[k]| ==> sccs[k][i] < |suppressedSymbol|
    ensures Ids(members) == Flatten(sccs, ids)
    ensures forall i :: 0 <= i < |members| ==> members[i].symbol < |suppressedSymbol| && members[i].suppressed == suppressedSymbol[members[i].symbol]
  {
    members := [];
    for i := 0 to |ids|
      invariant Ids(members) == Flatten(sccs, ids[..i])
      invariant forall k :: 0 <= k < |members| ==> members[k].symbol < |suppressedSymbol| && members[k].suppressed == suppressedSymbol[members[k].symbol]
    {
      assert ids[..i + 1][..i] == ids[..i];
      var scc := sccs[ids[i]];
      for j := 0 to |scc|
        invariant Ids(members) == Flatten(sccs, ids[..i]) + scc[..j]
        invariant forall k :: 0 <= k < |members| ==> members[k].symbol < |suppressedSymbol| && members[k].suppressed == suppressedSymbol[members[k].symbol]
      {
        var m := Member(scc[j], suppressedSymbol[scc[j]]);
        assert Ids(members + [m]) == Ids(members) + [scc[j]];
        members := members + [m];
      }
      assert scc[..|scc|] == scc;
    }
    assert ids[..|ids|] == ids;
  }

  /** How files and their directories name the owners of symbols. */
  function TypeOf(s: Symbol): string { s.className }

  function FileOf(s: Symbol): string {
    var e := PrimaryExtent(s);
    if e.location.file == [] then e.begin.file else e.location.file
  }

  function DirectoryOf(parent: string -> string): Symbol -> string {
    (s: Symbol) => if FileOf(s) == [] then [] else parent(FileOf(s))
  }

  /** The condensation edges between members of a component, in order. */
  function EdgesWithin(edges: seq<(nat, nat)>, ids: seq<nat>): seq<(nat, nat)> {
    if edges == [] then []
    else
      var last := edges[|edges| - 1];
      EdgesWithin(edges[..|edges| - 1], ids) + if last.0 in ids && last.1 in ids then [last] else []
  }

  ghost predicate MembersRight(c: Contents, r: Reachability, ids: seq<nat>, members: seq<Member>) {
    && Distinct(Ids(members)) && InBounds(c.symbols, Ids(members))
    && (forall x: nat :: x in Ids(members) <==> InWeak(r.sccs, ids, x))
    && (forall i :: 0 <= i < |members| ==> (members[i].suppressed <==> members[i].symbol in DeadDefinitions(c, r) * SuppressedIds(c)))
    && SortedBy(MemberOrder(c.symbols), members)
  }

  /** What a component of the report says, apart from its edges. */
  ghost predicate AggregateRight(c: Contents, r: Reachability, parent: string -> string, k: nat, a: Aggregate) {
    && k < |r.weak| && a.weak == k && a.sccs == r.weak[k]
    && MembersRight(c, r, r.weak[k], a.members)
    && EstimateOf(c.symbols, a.members, a.lines)
    && Summarizes(c.symbols, a.members, TypeOf, a.types)
    && Summarizes(c.symbols, a.members, FileOf, a.files)
    && Summarizes(c.symbols, a.members, DirectoryOf(parent), a.directories)
  }

  lemma SortedMembers(c: Contents, r: Reachability, ids: seq<nat>, members: seq<Member>)
    requires Sized(c, r) && DeadGraphCorrect(c, r) && (forall i :: 0 <= i < |ids| ==> ids[i] < |r.sccs|)
    requires forall i, j :: 0 <= i < j < |ids| ==> ids[i] < ids[j]
    requires Ids(members) == Flatten(r.sccs, ids)
    requires forall i :: 0 <= i < |members| ==>
      && members[i].symbol < |c.symbols|
      && (members[i].suppressed <==> members[i].symbol in DeadDefinitions(c, r) * SuppressedIds(c))
    ensures MembersRight(c, r, ids, Sort(MemberOrder(c.symbols), members))
  {
    hide DeadArcs, IsCondensation, IsWeakPartition, DeadDefinitions, SuppressedIds, StringLess, Sort, Reach, Flatten;
    var less, s := MemberOrder(c.symbols), Sort(MemberOrder(c.symbols), members);
    SccsDistinct(c, r);
    FlattenDistinct(r.sccs, ids);
    MemberOrderWeak(c.symbols);
    SortIsSorted(less, members);
    SortMembers(less, members);
    forall i, j | 0 <= i < j < |members| ensures members[i] != members[j] { assert Ids(members)[i] != Ids(members)[j]; }
    SortDistinct(less, members);
    forall i | 0 <= i < |s| ensures s[i].symbol < |c.symbols|
      && (s[i].suppressed <==> s[i].symbol in DeadDefinitions(c, r) * SuppressedIds(c))
    {
      assert s[i] in members;
    }
    forall i, j | 0 <= i < j < |s| ensures Ids(s)[i] != Ids(s)[j] {
      assert s[i] in members && s[j] in members && s[i] != s[j];
      SameSymbolSameMember(members, s[i], s[j]);
    }
    forall x: nat ensures x in Ids(s) <==> InWeak(r.sccs, ids, x) {
      FlattenMembers(r.sccs, ids, x);
      IdsMembers(members, x);
      IdsMembers(s, x);
    }
  }

  lemma SccsDistinct(c: Contents, r: Reachability)
    requires Sized(c, r) && DeadGraphCorrect(c, r)
    ensures (forall k :: 0 <= k < |r.sccs| ==> Distinct(r.sccs[k])) && Disjoint(r.sccs)
    ensures forall k, i :: 0 <= k < |r.sccs| && 0 <= i < |r.sccs[k]| ==> r.sccs[k][i] < |c.symbols|
    ensures forall k, i :: 0 <= k < |r.weak| && 0 <= i < |r.weak[k]| ==> r.weak[k][i] < |r.sccs|
    ensures forall k, i, j :: 0 <= k < |r.weak| && 0 <= i < j < |r.weak[k]| ==> r.weak[k][i] < r.weak[k][j]
    ensures Disjoint(r.weak) && forall x: nat :: InSome(r.weak, x) <==> x < |r.sccs|
  {
    hide DeadArcs, IsCondensation, Reach, BothWays;
    var candidate := Candidates(c, r.reachable);
    assert forall k :: 0 <= k < |r.sccs| ==> IsScc(DeadArcs(c, candidate), r.sccs[k]);
    assert forall k :: 0 <= k < |r.weak| ==> IsWeakComponent(BothWays(r.condensation), |r.sccs|, r.weak[k]);
    MembersAreCandidates(DeadArcs(c, candidate), candidate, r.sccs);
    forall k, i | 0 <= k < |r.sccs| && 0 <= i < |r.sccs[k]| ensures r.sccs[k][i] < |c.symbols| {
      assert r.sccs[k][i] in r.sccs[k];
    }
    forall k, i | 0 <= k < |r.weak| && 0 <= i < |r.weak[k]| ensures r.weak[k][i] < |r.sccs| {
      assert r.weak[k][i] in r.weak[k];
    }
  }

  lemma MemberOrderWeak(symbols: seq<Symbol>)
    ensures StrictWeak(MemberOrder(symbols))
  {
    hide StringLess, KeyAt;
    forall x, y, z
      ensures StringLess(x, y) && StringLess(y, z) ==> StringLess(x, z)
      ensures !StringLess(x, y) && !StringLess(y, z) ==> !StringLess(x, z)
      ensures !StringLess(x, x)
    {
      StringTrans(x, y, z);
      StringTotal(x, y);
      StringTotal(x, x);
    }
  }

  lemma SameSymbolSameMember(members: seq<Member>, a: Member, b: Member)
    requires Distinct(Ids(members)) && a in members && b in members && a != b
    ensures a.symbol != b.symbol
  {
    var i :| 0 <= i < |members| && members[i] == a;
    var j :| 0 <= j < |members| && members[j] == b;
    assert Ids(members)[i] == a.symbol && Ids(members)[j] == b.symbol;
  }

  lemma IdsMembers(members: seq<Member>, x: nat)
    ensures x in Ids(members) <==> exists m :: m in members && m.symbol == x
  {
    if m :| m in members && m.symbol == x {
      var i :| 0 <= i < |members| && members[i] == m;
      assert Ids(members)[i] == x;
    }
    if x in Ids(members) {
      var i :| 0 <= i < |members| && Ids(members)[i] == x;
      assert members[i] in members;
    }
  }

  method BuildAggregate(c: Contents, r: Reachability, parent: string -> string, k: nat, suppressedSymbol: seq<bool>) returns (a: Aggregate)
    requires Sized(c, r) && DeadGraphCorrect(c, r) && k < |r.weak| && |suppressedSymbol| == |c.symbols|
    requires forall i: nat :: i < |c.symbols| ==> (suppressedSymbol[i] <==> i in DeadDefinitions(c, r) * SuppressedIds(c))
    ensures AggregateRight(c, r, parent, k, a) && a.edges == []
  {
    hide DeadGraphCorrect, DeadDefinitions, SuppressedIds, Sort, Flatten, Covered, UnmeasuredCount, Summarizes, MemberOrder;
    SccsDistinct(c, r);
    var members := CollectMembers(r.sccs, r.weak[k], suppressedSymbol);
    SortedMembers(c, r, r.weak[k], members);
    members := Sort(MemberOrder(c.symbols), members);
    var lines := EstimateLines(c.symbols, Ids(members));
    var types := SummarizeOwnership(c.symbols, members, TypeOf);
    var files := SummarizeOwnership(c.symbols, members, FileOf);
    var directories := SummarizeOwnership(c.symbols, members, DirectoryOf(parent));
    a := Aggregate(k, r.weak[k], [], members, lines, types, files, directories);
  }

  // ---- the components and their edges

  ghost predicate ComponentsRight(c: Contents, r: Reachability, parent: string -> string, components: seq<Aggregate>, edges: seq<(nat, nat)>) {
    && |components| == |r.weak|
    && forall k :: 0 <= k < |components| ==>
         AggregateRight(c, r, parent, k, components[k]) && components[k].edges == EdgesWithin(edges, r.weak[k])
  }

  method BuildComponents(c: Contents, r: Reachability, parent: string -> string, suppressedSymbol: seq<bool>) returns (components: seq<Aggregate>)
    requires Sized(c, r) && DeadGraphCorrect(c, r) && |suppressedSymbol| == |c.symbols|
    requires forall i: nat :: i < |c.symbols| ==> (suppressedSymbol[i] <==> i in DeadDefinitions(c, r) * SuppressedIds(c))
    ensures ComponentsRight(c, r, parent, components, r.condensation)
  {
    hide DeadGraphCorrect, DeadDefinitions, SuppressedIds, MembersRight, EstimateOf, Summarizes, DirectoryOf, InSome;
    SccsDistinct(c, r);
    components := [];
    for k := 0 to |r.weak|
      invariant |components| == k
      invariant forall i :: 0 <= i < k ==> AggregateRight(c, r, parent, i, components[i]) && components[i].edges == []
    {
      var a := BuildAggregate(c, r, parent, k, suppressedSymbol);
      components := components + [a];
    }
    WeakMembers(r);
    var owner := OwnerOf(r.weak, |r.sccs|);
    CondensationEnds(c, r);
    for i := 0 to |r.condensation|
      invariant ComponentsRight(c, r, parent, components, r.condensation[..i])
    {
      var e := r.condensation[i];
      assert r.condensation[..i + 1][..i] == r.condensation[..i];
      OwnerMeans(r, owner, e.0);
      OwnerMeans(r, owner, e.1);
      var k := owner[e.0];
      if k == owner[e.1] {
        components := components[k := components[k].(edges := components[k].edges + [e])];
      }
    }
    assert r.condensation[..|r.condensation|] == r.condensation;
  }

  lemma WeakMembers(r: Reachability)
    requires forall k, i :: 0 <= k < |r.weak| && 0 <= i < |r.weak[k]| ==> r.weak[k][i] < |r.sccs|
    ensures forall k, x: nat :: 0 <= k < |r.weak| && x in r.weak[k] ==> x < |r.sccs|
  {
  }

  lemma OwnerMeans(r: Reachability, owner: seq<int>, x: nat)
    requires IsOwner(r.weak, owner) && |owner| == |r.sccs| && x < |r.sccs| && (forall y: nat :: InSome(r.weak, y) <==> y < |r.sccs|)
    ensures 0 <= owner[x] < |r.weak|
    ensures forall k :: 0 <= k < |r.weak| ==> (x in r.weak[k] <==> owner[x] == k)
  {
    assert InSome(r.weak, x);
    var k :| 0 <= k < |r.weak| && x in r.weak[k];
  }

  lemma CondensationEnds(c: Contents, r: Reachability)
    requires Sized(c, r) && DeadGraphCorrect(c, r)
    ensures forall i :: 0 <= i < |r.condensation| ==> r.condensation[i].0 < |r.sccs| && r.condensation[i].1 < |r.sccs|
  {
    hide DeadArcs, IsSccPartition, IsWeakPartition, IsCondensation;
    CondensationInRange(DeadArcs(c, Candidates(c, r.reachable)), r.sccs, r.condensation);
  }

  // ---- the report

  ghost predicate ReportRight(c: Contents, r: Reachability, parent: string -> string, report: AnalysisReport)
    requires Sized(c, r)
  {
    && Counted(c, r, report.counts, |c.symbols|)
    && (forall e :: e in report.publicApi <==> IsApiEntry(c, e)) && Distinct(report.publicApi)
    && (forall e :: e in report.providerReachable <==> IsProviderEntry(c, r, e)) && Distinct(report.providerReachable)
    && ListsFindings(c, r, report.findings) && ListsSuppressed(c, r, report.suppressedFindings)
    && ComponentsRight(c, r, parent, report.components, r.condensation)
  }

  /** The report of a result whose dead graph is what the analysis computes. */
  method BuildReport(c: Contents, r: Reachability, parent: string -> string) returns (report: AnalysisReport)
    requires Valid(c) && Sized(c, r) && DeadGraphCorrect(c, r)
    ensures ReportRight(c, r, parent, report)
  {
    hide Valid, DeadGraphCorrect, Counted, IsApiEntry, IsProviderEntry, ListsFindings, ListsSuppressed, ComponentsRight, Sort, FoundBelow;
    hide FindingOrder, SuppressedOrder, SuppressedIds, Definitions, MarkedIds, StrictlySortedBy, Distinct;
    var publicApi, publicApiRoot := PublicApiRoots(c);
    var counts, findings, suppressed, suppressedSymbol := Survey(c, r, publicApiRoot);
    var provider := ProviderEntries(c, r);
    FindingsSorted(c, r, findings, suppressed);
    SuppressedSorted(c, r, findings, suppressed);
    var components := BuildComponents(c, r, parent, suppressedSymbol);
    report := AnalysisReport(counts, publicApi, provider, Sort(FindingOrder(c.symbols), findings),
                             Sort(SuppressedOrder(c.symbols), suppressed), components);
  }
}
