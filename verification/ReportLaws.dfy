/** What the numbers and lists of a report mean for the graph that was analysed. */
module ReportLaws {
  import opened Wrappers
  import opened Orders
  import opened Symbols
  import opened Facts
  import opened Digraph
  import opened Tarjan
  import opened Condensation
  import opened Analysis
  import opened KeyedAnalysis
  import opened Lines
  import opened Findings
  import opened Report
  import opened ReportBuild

  lemma SplitSize(s: set<nat>, t: set<nat>)
    ensures |s| == |s * t| + |s - t|
  {
    assert s == (s * t) + (s - t);
  }

  /** A public-API symbol is a root, so it is never counted as unreachable. */
  lemma ApiIsReachable(c: Contents, r: Reachability)
    requires Valid(c) && MarksCorrect(c, r)
    ensures ApiRoots(c) <= MarkedIds(r.reachable)
  {
    hide Reach, LiveArcs, StructurallyReachable, DistinctKeys;
    forall i | i in ApiRoots(c) ensures i in MarkedIds(r.reachable) {
      var x: Fact<nat> :| x in c.roots && x.Root? && x.rootKind == PublicApi && x.symbol == i;
      assert x in c.All();
      ReachRefl(LiveArcs(c), i);
      assert i in RootIds(c);
      assert Reachable(c, i);
    }
  }

  /** The counts of a report on the graph's own analysis add up. */
  lemma CountsAddUp(c: Contents, r: Reachability, k: Counts)
    requires Valid(c) && MarksCorrect(c, r) && Counted(c, r, k, |c.symbols|)
    ensures k.defined == k.reachable + k.unreachable
    ensures k.defined == k.publicApi + k.internalLive + k.internalUnreachable
    ensures k.reachable == k.structural + k.provider
    ensures k.unreachable == k.actionable + k.suppressed
  {
    hide Counted, Valid, MarksCorrect, ApiRoots, SuppressedIds, MarkedIds, Definitions;
    MarksSized(c, r);
    CountedAll(c, r, k);
    ApiIsReachable(c, r);
    var d, m := Definitions(c), MarkedIds(r.reachable);
    SplitSize(d, m);
    SplitSize(d * m, MarkedIds(r.provider));
    SplitSize(d * m, ApiRoots(c));
    SplitSize(d - m, SuppressedIds(c));
    assert d * m * ApiRoots(c) == d * ApiRoots(c);
  }

  lemma MarksSized(c: Contents, r: Reachability)
    requires MarksCorrect(c, r)
    ensures Sized(c, r)
  {
  }

  // ---- findings and components

  ghost predicate InAggregate(components: seq<Aggregate>, x: nat) {
    exists k :: 0 <= k < |components| && x in Ids(components[k].members)
  }

  lemma CandidatesAreDead(c: Contents, r: Reachability, x: nat)
    requires Sized(c, r)
    ensures x in DeadDefinitions(c, r) <==> x < |c.symbols| && Candidates(c, r.reachable)[x]
  {
  }

  lemma ComponentsHoldDead(c: Contents, r: Reachability, x: nat)
    requires Sized(c, r) && DeadGraphCorrect(c, r)
    ensures x in DeadDefinitions(c, r) <==> exists k :: 0 <= k < |r.weak| && InWeak(r.sccs, r.weak[k], x)
  {
    hide DeadArcs, IsScc, IsCondensation, BothWays, IsWeakComponent, DeadDefinitions;
    CandidatesAreDead(c, r, x);
    var candidate := Candidates(c, r.reachable);
    assert InSome(r.sccs, x) <==> x < |candidate| && candidate[x];
    if InSome(r.sccs, x) {
      var s: nat :| s < |r.sccs| && x in r.sccs[s];
      assert InSome(r.weak, s);
      var k :| 0 <= k < |r.weak| && s in r.weak[k];
      var i :| 0 <= i < |r.weak[k]| && r.weak[k][i] == s;
      assert InWeak(r.sccs, r.weak[k], x);
    }
  }

  /** The findings and the suppressed findings together are exactly the members of all components,
      and no symbol is listed twice in either view. */
  lemma FindingsAreMembers(c: Contents, r: Reachability, parent: string -> string, report: AnalysisReport, x: nat)
    requires Sized(c, r) && DeadGraphCorrect(c, r) && ReportRight(c, r, parent, report)
    ensures InAggregate(report.components, x) <==> HasFinding(report.findings, x) || HasSuppressed(report.suppressedFindings, x)
    ensures !(HasFinding(report.findings, x) && HasSuppressed(report.suppressedFindings, x))
    ensures forall k, l :: 0 <= k < l < |report.components| ==>
      !(x in Ids(report.components[k].members) && x in Ids(report.components[l].members))
  {
    hide DeadGraphCorrect, DeadDefinitions, SuppressedIds, Counted, IsApiEntry, IsProviderEntry, InWeak, Summarizes, EstimateOf;
    hide HasFinding, HasSuppressed, Classified, EvidencesOf, FindingOrder, SuppressedOrder, SortedBy, Distinct, MemberOrder;
    ComponentsHoldDead(c, r, x);
    var components := report.components;
    forall k | 0 <= k < |components| ensures x in Ids(components[k].members) <==> InWeak(r.sccs, r.weak[k], x) {
      assert AggregateRight(c, r, parent, k, components[k]);
    }
    forall k, l | 0 <= k < l < |components| ensures !(InWeak(r.sccs, r.weak[k], x) && InWeak(r.sccs, r.weak[l], x)) {
      if InWeak(r.sccs, r.weak[k], x) && InWeak(r.sccs, r.weak[l], x) {
        OneComponent(c, r, k, l, x);
      }
    }
  }

  /** A symbol is in the strong components of one weak component only. */
  lemma OneComponent(c: Contents, r: Reachability, k: nat, l: nat, x: nat)
    requires Sized(c, r) && DeadGraphCorrect(c, r) && k < |r.weak| && l < |r.weak|
    requires InWeak(r.sccs, r.weak[k], x) && InWeak(r.sccs, r.weak[l], x)
    ensures k == l
  {
    hide DeadGraphCorrect, Distinct;
    SccsDistinct(c, r);
    var i :| 0 <= i < |r.weak[k]| && r.weak[k][i] < |r.sccs| && x in r.sccs[r.weak[k][i]];
    var j :| 0 <= j < |r.weak[l]| && r.weak[l][j] < |r.sccs| && x in r.sccs[r.weak[l][j]];
    var s, t := r.weak[k][i], r.weak[l][j];
    assert s in r.weak[k] && t in r.weak[l];
    assert s == t;
  }

  // ---- condensation edges

  lemma {:induction false} WithinMembers(edges: seq<(nat, nat)>, ids: seq<nat>, a: nat, b: nat)
    ensures (a, b) in EdgesWithin(edges, ids) <==> (a, b) in edges && a in ids && b in ids
  {
    if edges != [] {
      var init, last := edges[..|edges| - 1], edges[|edges| - 1];
      WithinMembers(init, ids, a, b);
      assert edges == init + [last];
    }
  }

  /** Every condensation edge appears in exactly one component, and a component has no other. */
  lemma EdgeInOneComponent(c: Contents, r: Reachability, parent: string -> string, report: AnalysisReport, a: nat, b: nat) returns (k: nat)
    requires Sized(c, r) && DeadGraphCorrect(c, r) && ReportRight(c, r, parent, report) && (a, b) in r.condensation
    ensures k < |report.components| && (a, b) in report.components[k].edges
    ensures forall l :: 0 <= l < |report.components| && (a, b) in report.components[l].edges ==> l == k
  {
    hide DeadGraphCorrect, Counted, IsApiEntry, IsProviderEntry, ListsFindings, ListsSuppressed, AggregateRight, Distinct, InSome;
    k := EdgeHome(c, r, a, b);
    forall l | 0 <= l < |report.components|
      ensures (a, b) in report.components[l].edges <==> a in r.weak[l] && b in r.weak[l]
    {
      WithinMembers(r.condensation, r.weak[l], a, b);
    }
  }

  lemma EdgeHome(c: Contents, r: Reachability, a: nat, b: nat) returns (k: nat)
    requires Sized(c, r) && DeadGraphCorrect(c, r) && (a, b) in r.condensation
    ensures k < |r.weak| && a in r.weak[k] && b in r.weak[k]
    ensures forall l :: 0 <= l < |r.weak| && a in r.weak[l] ==> l == k
  {
    hide DeadArcs, IsSccPartition, IsCondensation, Reach;
    var i :| 0 <= i < |r.condensation| && r.condensation[i] == (a, b);
    CondensationEnds(c, r);
    assert InSome(r.weak, a);
    k :| 0 <= k < |r.weak| && a in r.weak[k];
    BothWaysMember(r.condensation, a, b);
    ReachArc(BothWays(r.condensation), a, b);
    assert IsWeakComponent(BothWays(r.condensation), |r.sccs|, r.weak[k]);
  }

  lemma BothWaysMember(arcs: seq<(nat, nat)>, a: nat, b: nat)
    requires (a, b) in arcs
    ensures (a, b) in BothWays(arcs)
  {
    var i :| 0 <= i < |arcs| && arcs[i] == (a, b);
  }

  // ---- ownership

  /** No owner is credited with more lines than its component has, and every member whose owner
      has a name is in that owner's summary and in no other. */
  lemma OwnersWithinComponent(symbols: seq<Symbol>, members: seq<Member>, ownerOf: Symbol -> string, s: seq<Summary>, total: Estimate)
    requires InBounds(symbols, Ids(members)) && Summarizes(symbols, members, ownerOf, s) && EstimateOf(symbols, members, total)
    ensures forall i :: 0 <= i < |s| ==> s[i].lines.loc <= total.loc
    ensures forall m, i :: m in members && m.symbol < |symbols| && 0 <= i < |s| ==>
      (m in s[i].members <==> ownerOf(symbols[m.symbol]) == s[i].owner)
  {
    hide Covered, UnmeasuredCount, OwnedBy, InBounds;
    forall i | 0 <= i < |s| ensures s[i].lines.loc <= total.loc {
      OwnedInBounds(symbols, members, ownerOf, s[i].owner);
      forall x: nat | x in Ids(s[i].members) ensures x in Ids(members) {
        IdsMembers(s[i].members, x);
        var m :| m in s[i].members && m.symbol == x;
        OwnedMembers(symbols, members, ownerOf, s[i].owner, m);
        IdsMembers(members, x);
      }
      CoveredMono(symbols, Ids(s[i].members), Ids(members));
    }
    forall m, i | m in members && m.symbol < |symbols| && 0 <= i < |s|
      ensures m in s[i].members <==> ownerOf(symbols[m.symbol]) == s[i].owner
    {
      OwnedMembers(symbols, members, ownerOf, s[i].owner, m);
    }
  }

  /** Measured and unmeasured members are all members. */
  lemma {:induction false} MeasuredAndNot(symbols: seq<Symbol>, ids: seq<nat>)
    requires InBounds(symbols, ids)
    ensures |(set i | 0 <= i < |ids| && Measured(PrimaryExtent(symbols[ids[i]])) :: i)| + UnmeasuredCount(symbols, ids) == |ids|
  {
    hide Measured, PrimaryExtent;
    var all := set i | 0 <= i < |ids| && Measured(PrimaryExtent(symbols[ids[i]])) :: i;
    if ids == [] {
      assert all == {};
    } else {
      var n := |ids| - 1;
      var init := ids[..n];
      MeasuredAndNot(symbols, init);
      MeasuredLast(symbols, init, ids[n]);
      assert ids == init + [ids[n]];
    }
  }

  lemma MeasuredLast(symbols: seq<Symbol>, init: seq<nat>, last: nat)
    requires InBounds(symbols, init) && last < |symbols|
    ensures var ids, n := init + [last], |init|;
            var before := set i | 0 <= i < |init| && Measured(PrimaryExtent(symbols[init[i]])) :: i;
            InBounds(symbols, ids) && n !in before &&
            (set i | 0 <= i < |ids| && Measured(PrimaryExtent(symbols[ids[i]])) :: i) ==
              if Measured(PrimaryExtent(symbols[last])) then before + {n} else before
  {
    hide Measured, PrimaryExtent;
    var ids, n := init + [last], |init|;
    var before := set i | 0 <= i < |init| && Measured(PrimaryExtent(symbols[init[i]])) :: i;
    var after := set i | 0 <= i < |ids| && Measured(PrimaryExtent(symbols[ids[i]])) :: i;
    assert forall i :: 0 <= i < n ==> ids[i] == init[i];
    assert ids[n] == last;
    forall i ensures i in after <==> i in before || (i == n && Measured(PrimaryExtent(symbols[last]))) {
      if 0 <= i < n { assert ids[i] == init[i]; }
    }
  }

  // ---- provider-only definitions

  /** A definition that is live only through providers is reached over an entry, and if the entry
      leads to a reportable definition the report lists it. */
  lemma ProviderEntryListed(c: Contents, r: Reachability, parent: string -> string, report: AnalysisReport, v: nat) returns (x: Fact<nat>)
    requires Valid(c) && MarksCorrect(c, r) && Sized(c, r) && ReportRight(c, r, parent, report)
    requires v < |c.symbols| && r.provider[v]
    ensures EntersByEdge(c, x, v) || EntersByRoot(c, x, v)
    ensures InRange(x, |c.symbols|) && (x.Edge? || x.Root?)
    ensures var target := if x.Edge? then x.to else x.symbol;
            c.symbols[target].defined && c.symbols[target].scope == Reportable ==>
              Entry(target, if x.Edge? then Some(x.from) else None, x.evidence) in report.providerReachable
  {
    hide Valid, Counted, ListsFindings, ListsSuppressed, ComponentsRight, Reach, LiveArcs, Reachable, StructurallyReachable;
    hide IsProviderEdge, IsProviderRoot, IsProviderEntry, IsApiEntry, Distinct, IsLive;
    assert ProviderOnly(c, v);
    x := ProviderOnlyHasEntry(c, v);
    EntryFacts(c, x, v);
    FactInRange(c, x);
    var target := if x.Edge? then x.to else x.symbol;
    if c.symbols[target].defined && c.symbols[target].scope == Reportable {
      EntryIsListed(c, r, x, v);
    }
  }

  lemma EntryFacts(c: Contents, x: Fact<nat>, v: nat)
    requires EntersByEdge(c, x, v) || EntersByRoot(c, x, v)
    ensures x in c.All() && (x.Edge? || x.Root?)
  {
    hide Reach, LiveArcs, Reachable, StructurallyReachable;
  }

  lemma EntryIsListed(c: Contents, r: Reachability, x: Fact<nat>, v: nat)
    requires Valid(c) && MarksCorrect(c, r) && Sized(c, r) && InRange(x, |c.symbols|)
    requires EntersByEdge(c, x, v) || EntersByRoot(c, x, v)
    requires x.Edge? || x.Root?
    requires var target := if x.Edge? then x.to else x.symbol;
             c.symbols[target].defined && c.symbols[target].scope == Reportable
    ensures IsProviderEntry(c, r, Entry(if x.Edge? then x.to else x.symbol, if x.Edge? then Some(x.from) else None, x.evidence))
  {
    hide Valid, Reach, LiveArcs, Reachable, StructurallyReachable, IsProviderEdge, IsProviderRoot;
  }

  // ---- lines and owners, field by field

  /** Where a symbol is, for reports: where its macro is expanded, or else where it is spelled. */
  function ExtentOf(s: Symbol): SourceExtent {
    if s.source.expansion.Some? then s.source.expansion.value else s.source.spelling
  }

  /** The extent begins and ends in this file and covers this line. */
  predicate OnLine(e: SourceExtent, file: string, line: nat) {
    file != [] && e.begin.file == file && e.end.file == file && 1 <= e.begin.line <= line <= e.end.line
  }

  /** A line of a file is counted exactly when the extent of some member covers it. */
  lemma LinesMean(symbols: seq<Symbol>, ids: seq<nat>, file: string, line: nat)
    requires InBounds(symbols, ids)
    ensures (file, line) in Covered(symbols, ids) <==> exists i :: 0 <= i < |ids| && OnLine(ExtentOf(symbols[ids[i]]), file, line)
  {
    if (file, line) in Covered(symbols, ids) {
      var i :| 0 <= i < |ids| && (file, line) in ExtentLines(PrimaryExtent(symbols[ids[i]]));
      assert OnLine(ExtentOf(symbols[ids[i]]), file, line);
    }
    if i :| 0 <= i < |ids| && OnLine(ExtentOf(symbols[ids[i]]), file, line) {
      assert line in Interval(ExtentOf(symbols[ids[i]]).begin.line, ExtentOf(symbols[ids[i]]).end.line);
      assert (file, line) in ExtentLines(PrimaryExtent(symbols[ids[i]]));
    }
  }

  /** A member is measured exactly when its extent covers some line of some file. */
  lemma MeasuredMeans(s: Symbol)
    ensures Measured(PrimaryExtent(s)) <==> exists file, line :: OnLine(ExtentOf(s), file, line)
  {
    if Measured(PrimaryExtent(s)) { assert OnLine(ExtentOf(s), ExtentOf(s).begin.file, ExtentOf(s).begin.line); }
  }

  /** The file of the location, or if that is not known of the beginning of the extent. */
  function FileName(s: Symbol): string {
    if ExtentOf(s).location.file != [] then ExtentOf(s).location.file else ExtentOf(s).begin.file
  }

  /** The summaries list, for each of these names that is not empty and that a member has, exactly the
      members that have it. */
  ghost predicate GroupedBy(symbols: seq<Symbol>, members: seq<Member>, list: seq<Summary>, name: Symbol -> string) {
    && (forall i, m :: 0 <= i < |list| ==>
          (m in list[i].members <==> m in members && m.symbol < |symbols| && name(symbols[m.symbol]) == list[i].owner))
    && (forall m :: m in members && m.symbol < |symbols| && name(symbols[m.symbol]) != [] ==> HasOwner(list, name(symbols[m.symbol])))
  }

  lemma SummariesGroup(symbols: seq<Symbol>, members: seq<Member>, ownerOf: Symbol -> string, list: seq<Summary>)
    requires InBounds(symbols, Ids(members)) && Summarizes(symbols, members, ownerOf, list)
    ensures GroupedBy(symbols, members, list, ownerOf)
  {
    hide OwnedBy, EstimateOf, InBounds;
    forall i, m | 0 <= i < |list|
      ensures m in list[i].members <==> m in members && m.symbol < |symbols| && ownerOf(symbols[m.symbol]) == list[i].owner
    {
      OwnedMembers(symbols, members, ownerOf, list[i].owner, m);
    }
  }

  lemma SameGroups(symbols: seq<Symbol>, members: seq<Member>, list: seq<Summary>, f: Symbol -> string, g: Symbol -> string)
    requires GroupedBy(symbols, members, list, f) && forall s :: f(s) == g(s)
    ensures GroupedBy(symbols, members, list, g)
  {
    hide HasOwner;
  }

  /** The owners of a component's members are their classes, their files, and the parents of these. */
  lemma OwnersMean(c: Contents, r: Reachability, parent: string -> string, k: nat, a: Aggregate)
    requires AggregateRight(c, r, parent, k, a)
    ensures GroupedBy(c.symbols, a.members, a.types, (s: Symbol) => s.className)
    ensures GroupedBy(c.symbols, a.members, a.files, (s: Symbol) => FileName(s))
    ensures GroupedBy(c.symbols, a.members, a.directories, (s: Symbol) => if FileName(s) == [] then [] else parent(FileName(s)))
  {
    hide GroupedBy, Summarizes;
    var m := a.members;
    SummariesGroup(c.symbols, m, TypeOf, a.types);
    SummariesGroup(c.symbols, m, FileOf, a.files);
    SummariesGroup(c.symbols, m, DirectoryOf(parent), a.directories);
    SameGroups(c.symbols, m, a.types, TypeOf, (s: Symbol) => s.className);
    SameGroups(c.symbols, m, a.files, FileOf, (s: Symbol) => FileName(s));
    SameGroups(c.symbols, m, a.directories, DirectoryOf(parent), (s: Symbol) => if FileName(s) == [] then [] else parent(FileName(s)));
  }
}
