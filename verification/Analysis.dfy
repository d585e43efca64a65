/** Reachability, dead components, and the graph between them. */
module Analysis {
  import opened Wrappers
  import opened Digraph
  import opened Orders
  import opened Symbols
  import opened Facts
  import opened Tarjan
  import opened TarjanRun
  import opened Condensation
  import opened Arrangement
  import Traversal

  datatype Reachability = Reachability(
    reachable: seq<bool>,
    structural: seq<bool>,
    provider: seq<bool>,
    sccs: seq<seq<nat>>,
    condensation: seq<(nat, nat)>,
    weak: seq<seq<nat>>)

  // ---- what the analysis is about

  /** An edge that is followed: of a traversable kind, from a symbol whose body was indexed.
      An opaque symbol is a terminal. */
  predicate IsLive(c: Contents, x: Fact<nat>) {
    x.Edge? && Traversable(x.edgeKind) && x.from < |c.symbols| && HasIndexedBody(c.symbols[x.from].scope)
  }

  ghost function LiveArcs(c: Contents): set<(nat, nat)> {
    set x | x in c.edges && IsLive(c, x) :: (x.from, x.to)
  }

  ghost function StructuralArcs(c: Contents): set<(nat, nat)> {
    set x | x in c.edges && IsLive(c, x) && !IsProviderEdge(x.edgeKind) :: (x.from, x.to)
  }

  ghost function RootIds(c: Contents): set<nat> {
    set x | x in c.roots && x.Root? :: x.symbol
  }

  ghost function StructuralRootIds(c: Contents): set<nat> {
    set x | x in c.roots && x.Root? && !IsProviderRoot(x.rootKind) :: x.symbol
  }

  ghost predicate Reachable(c: Contents, v: nat) {
    Traversal.ReachedFrom(LiveArcs(c), RootIds(c), v)
  }

  ghost predicate StructurallyReachable(c: Contents, v: nat) {
    Traversal.ReachedFrom(StructuralArcs(c), StructuralRootIds(c), v)
  }

  predicate IsCandidate(s: Symbol, reachable: bool) {
    s.defined && s.scope == Reportable && !reachable && s.kind != Synthetic
  }

  function Candidates(c: Contents, reachable: seq<bool>): seq<bool>
    requires |reachable| == |c.symbols|
  {
    seq(|c.symbols|, i requires 0 <= i < |c.symbols| => IsCandidate(c.symbols[i], reachable[i]))
  }

  /** The live arcs between candidates. */
  ghost function DeadArcs(c: Contents, candidate: seq<bool>): set<(nat, nat)> {
    set a | a in LiveArcs(c) && a.0 < |candidate| && a.1 < |candidate| && candidate[a.0] && candidate[a.1] :: a
  }

  ghost predicate MarksCorrect(c: Contents, r: Reachability) {
    && |r.reachable| == |r.structural| == |r.provider| == |c.symbols|
    && (forall v: nat :: v < |c.symbols| ==> (r.reachable[v] <==> Reachable(c, v)))
    && (forall v: nat :: v < |c.symbols| ==> (r.structural[v] <==> StructurallyReachable(c, v)))
    && (forall v: nat :: v < |c.symbols| ==> (r.provider[v] <==> r.reachable[v] && !r.structural[v]))
  }

  ghost predicate DeadGraphCorrect(c: Contents, r: Reachability)
    requires |r.reachable| == |c.symbols|
  {
    var candidate := Candidates(c, r.reachable);
    && IsSccPartition(DeadArcs(c, candidate), candidate, r.sccs)
    && IsCondensation(DeadArcs(c, candidate), r.sccs, r.condensation)
    && IsWeakPartition(BothWays(r.condensation), |r.sccs|, r.weak)
  }

  // ---- adjacency lists and starting nodes

  ghost predicate Lists(adjacency: seq<seq<nat>>, E: set<(nat, nat)>) {
    && Traversal.InBounds(adjacency)
    && Traversal.Arcs(adjacency) == E
  }

  method Adjacency(c: Contents) returns (all: seq<seq<nat>>, structural: seq<seq<nat>>)
    requires Valid(c)
    ensures |all| == |structural| == |c.symbols|
    ensures Lists(all, LiveArcs(c)) && Lists(structural, StructuralArcs(c))
  {
    hide DistinctKeys, Distinct, Traversable, IsProviderEdge, HasIndexedBody;
    var n := |c.symbols|;
    all, structural := seq(n, _ => []), seq(n, _ => []);
    for k := 0 to |c.edges|
      invariant |all| == |structural| == n
      invariant forall x: nat, y: nat :: x < n ==> (y in all[x] <==> exists j :: 0 <= j < k && ArcAt(c, j, x, y))
      invariant forall x: nat, y: nat :: x < n ==>
                  (y in structural[x] <==> exists j :: 0 <= j < k && ArcAt(c, j, x, y) && !IsProviderEdge(c.edges[j].edgeKind))
    {
      var e := c.edges[k];
      assert e in c.edges && e in c.All();
      if IsLive(c, e) {
        assert ArcAt(c, k, e.from, e.to);
        all := all[e.from := all[e.from] + [e.to]];
        if !IsProviderEdge(e.edgeKind) {
          structural := structural[e.from := structural[e.from] + [e.to]];
        }
      }
    }
    ListsAll(c, all, structural);
  }

  ghost predicate ArcAt(c: Contents, j: nat, x: nat, y: nat) {
    j < |c.edges| && IsLive(c, c.edges[j]) && c.edges[j].from == x && c.edges[j].to == y
  }

  lemma ListsAll(c: Contents, all: seq<seq<nat>>, structural: seq<seq<nat>>)
    requires Valid(c) && |all| == |structural| == |c.symbols|
    requires forall x: nat, y: nat :: x < |all| ==> (y in all[x] <==> exists j :: 0 <= j < |c.edges| && ArcAt(c, j, x, y))
    requires forall x: nat, y: nat :: x < |all| ==>
               (y in structural[x] <==> exists j :: 0 <= j < |c.edges| && ArcAt(c, j, x, y) && !IsProviderEdge(c.edges[j].edgeKind))
    ensures Lists(all, LiveArcs(c)) && Lists(structural, StructuralArcs(c))
  {
    hide DistinctKeys, Distinct, Traversable, IsProviderEdge, HasIndexedBody;
    forall j | 0 <= j < |c.edges| && IsLive(c, c.edges[j]) ensures c.edges[j].to < |c.symbols| {
      assert c.edges[j] in c.edges && c.edges[j] in c.All();
    }
    forall x: nat, y: nat ensures (x, y) in LiveArcs(c) <==> x < |all| && y in all[x] {
      if (x, y) in LiveArcs(c) {
        var e :| e in c.edges && IsLive(c, e) && (e.from, e.to) == (x, y);
        var j :| 0 <= j < |c.edges| && c.edges[j] == e;
        assert ArcAt(c, j, x, y);
      }
    }
    forall x: nat, y: nat ensures (x, y) in StructuralArcs(c) <==> x < |all| && y in structural[x] {
      if (x, y) in StructuralArcs(c) {
        var e :| e in c.edges && IsLive(c, e) && !IsProviderEdge(e.edgeKind) && (e.from, e.to) == (x, y);
        var j :| 0 <= j < |c.edges| && c.edges[j] == e;
        assert ArcAt(c, j, x, y);
      }
    }
  }

  method Starts(c: Contents, includeProvider: bool) returns (start: seq<nat>)
    requires Valid(c)
    ensures forall i :: 0 <= i < |start| ==> start[i] < |c.symbols|
    ensures (set i | 0 <= i < |start| :: start[i]) == if includeProvider then RootIds(c) else StructuralRootIds(c)
  {
    hide DistinctKeys, Distinct, IsProviderRoot;
    start := [];
    for k := 0 to |c.roots|
      invariant forall i :: 0 <= i < |start| ==> start[i] < |c.symbols|
      invariant forall v: nat :: v in start <==>
                  exists j :: 0 <= j < k && c.roots[j].Root? && c.roots[j].symbol == v && (includeProvider || !IsProviderRoot(c.roots[j].rootKind))
    {
      var x := c.roots[k];
      assert x in c.roots && x in c.All() && x.Root?;
      if includeProvider || !IsProviderRoot(x.rootKind) {
        start := start + [x.symbol];
      }
    }
    ghost var ids := set i | 0 <= i < |start| :: start[i];
    forall v: nat ensures v in ids <==> v in start {}
    forall v: nat ensures v in start <==> v in (if includeProvider then RootIds(c) else StructuralRootIds(c)) {
      if v in (if includeProvider then RootIds(c) else StructuralRootIds(c)) {
        var x :| x in c.roots && x.Root? && x.symbol == v && (includeProvider || !IsProviderRoot(x.rootKind));
        var j :| 0 <= j < |c.roots| && c.roots[j] == x;
      }
    }
  }

  // ---- dead components

  lemma CandidateArcsAreDead(c: Contents, adjacency: seq<seq<nat>>, candidate: seq<bool>)
    requires |candidate| == |adjacency| == |c.symbols| && Lists(adjacency, LiveArcs(c))
    ensures WellFormed(adjacency, candidate)
    ensures CandidateArcs(adjacency, candidate) == DeadArcs(c, candidate)
  {
    hide LiveArcs;
    forall x: nat, y: nat ensures (x, y) in LiveArcs(c) <==> x < |adjacency| && y in adjacency[x] {
      assert (x, y) in Traversal.Arcs(adjacency) <==> x < |adjacency| && y < |adjacency| && y in adjacency[x];
    }
  }

  lemma ComponentsDistinct(E: set<(nat, nat)>, sccs: seq<seq<nat>>)
    requires (forall k :: 0 <= k < |sccs| ==> IsScc(E, sccs[k])) && Disjoint(sccs)
    ensures Distinct(sccs)
  {
    hide Reach;
    forall k, l | 0 <= k < l < |sccs| ensures sccs[k] != sccs[l] {
      assert IsScc(E, sccs[k]) && sccs[k][0] in sccs[k];
    }
  }

  /** Reordering the components keeps them the partition they are. */
  lemma PartitionPermuted(E: set<(nat, nat)>, candidate: seq<bool>, a: seq<seq<nat>>, b: seq<seq<nat>>)
    requires IsSccPartition(E, candidate, a) && multiset(a) == multiset(b)
    ensures IsSccPartition(E, candidate, b)
  {
    hide IsScc;
    ComponentsDistinct(E, a);
    DistinctPermuted(a, b);
    SameMultisetSameMembers(a, b);
    forall k | 0 <= k < |b| ensures IsScc(E, b[k]) {
      assert b[k] in a;
    }
    forall k, l, x: nat | 0 <= k < l < |b| && x in b[k] ensures x !in b[l] {
      assert b[k] in a && b[l] in a && b[k] != b[l];
    }
    forall x: nat ensures InSome(b, x) <==> InSome(a, x) {
      if InSome(a, x) {
        var k :| 0 <= k < |a| && x in a[k];
        assert a[k] in b;
      }
      if InSome(b, x) {
        var k :| 0 <= k < |b| && x in b[k];
        assert b[k] in a;
      }
    }
  }

  lemma MembersAreCandidates(E: set<(nat, nat)>, candidate: seq<bool>, sccs: seq<seq<nat>>)
    requires IsSccPartition(E, candidate, sccs)
    ensures forall k, x: nat :: 0 <= k < |sccs| && x in sccs[k] ==> x < |candidate|
    ensures forall k, x: nat :: 0 <= k < |sccs| && x in sccs[k] ==> candidate[x]
  {
    hide IsScc;
    forall k, x: nat | 0 <= k < |sccs| && x in sccs[k] ensures x < |candidate| {
      assert InSome(sccs, x);
    }
    forall k, x: nat | 0 <= k < |sccs| && x in sccs[k] ensures candidate[x] {
      assert InSome(sccs, x);
    }
  }

  method DeadComponents(c: Contents, adjacency: seq<seq<nat>>, candidate: seq<bool>) returns (sccs: seq<seq<nat>>)
    requires |candidate| == |adjacency| == |c.symbols| && Lists(adjacency, LiveArcs(c))
    ensures IsSccPartition(DeadArcs(c, candidate), candidate, sccs) && Arranged(c.symbols, sccs)
  {
    hide LiveArcs, IsSccPartition, Sort, Arranged, SortedBy;
    MemberOrderWeak(c.symbols);
    CandidateArcsAreDead(c, adjacency, candidate);
    var search := new Search(adjacency, candidate, MemberOrder(c.symbols));
    search.Run();
    sccs := Sort(ComponentOrder(c.symbols), search.sccs);
    ArrangedBySorting(c.symbols, search.sccs);
    PartitionPermuted(DeadArcs(c, candidate), candidate, search.sccs, sccs);
  }

  /** All edges of a traversable kind; between members of components these are the live ones,
      because every candidate has an indexed body. */
  method TraversablePairs(c: Contents) returns (arcs: seq<(nat, nat)>)
    requires Valid(c)
    ensures forall i :: 0 <= i < |arcs| ==> arcs[i].0 < |c.symbols| && arcs[i].1 < |c.symbols|
    ensures forall x: nat, y: nat :: (x, y) in arcs <==>
              exists e :: e in c.edges && e.Edge? && Traversable(e.edgeKind) && e.from == x && e.to == y
  {
    hide DistinctKeys, Distinct, Traversable;
    arcs := [];
    for k := 0 to |c.edges|
      invariant forall i :: 0 <= i < |arcs| ==> arcs[i].0 < |c.symbols| && arcs[i].1 < |c.symbols|
      invariant forall x: nat, y: nat :: (x, y) in arcs <==>
                  exists j :: 0 <= j < k && c.edges[j].Edge? && Traversable(c.edges[j].edgeKind) && c.edges[j].from == x && c.edges[j].to == y
    {
      var e := c.edges[k];
      assert e in c.edges && e in c.All() && e.Edge?;
      if Traversable(e.edgeKind) {
        arcs := arcs + [(e.from, e.to)];
      }
    }
    forall x: nat, y: nat
      ensures (x, y) in arcs <==> exists e :: e in c.edges && e.Edge? && Traversable(e.edgeKind) && e.from == x && e.to == y
    {
      if exists e :: e in c.edges && e.Edge? && Traversable(e.edgeKind) && e.from == x && e.to == y {
        var e :| e in c.edges && e.Edge? && Traversable(e.edgeKind) && e.from == x && e.to == y;
        var j :| 0 <= j < |c.edges| && c.edges[j] == e;
      }
    }
  }

  lemma TraversableBetweenDead(c: Contents, reachable: seq<bool>, arcs: seq<(nat, nat)>, x: nat, y: nat)
    requires Valid(c) && |reachable| == |c.symbols|
    requires forall x: nat, y: nat :: (x, y) in arcs <==>
               exists e :: e in c.edges && e.Edge? && Traversable(e.edgeKind) && e.from == x && e.to == y
    requires x < |reachable| && y < |reachable|
    requires Candidates(c, reachable)[x] && Candidates(c, reachable)[y]
    ensures (x, y) in arcs <==> (x, y) in DeadArcs(c, Candidates(c, reachable))
  {
    hide Valid, Traversable;
    if (x, y) in arcs {
      var e :| e in c.edges && e.Edge? && Traversable(e.edgeKind) && e.from == x && e.to == y;
      assert IsLive(c, e);
      assert (x, y) in LiveArcs(c);
    }
  }

  /** Condensing all traversable edges is condensing the dead graph. */
  lemma CondensationOfDead(c: Contents, reachable: seq<bool>, arcs: seq<(nat, nat)>, sccs: seq<seq<nat>>, r: seq<(nat, nat)>)
    requires Valid(c) && |reachable| == |c.symbols|
    requires forall x: nat, y: nat :: (x, y) in arcs <==>
               exists e :: e in c.edges && e.Edge? && Traversable(e.edgeKind) && e.from == x && e.to == y
    requires IsSccPartition(DeadArcs(c, Candidates(c, reachable)), Candidates(c, reachable), sccs)
    requires IsCondensation(set i | 0 <= i < |arcs| :: arcs[i], sccs, r)
    ensures IsCondensation(DeadArcs(c, Candidates(c, reachable)), sccs, r)
  {
    hide Valid, Traversable, IsScc, PairLess, DeadArcs;
    var E, D := set i | 0 <= i < |arcs| :: arcs[i], DeadArcs(c, Candidates(c, reachable));
    forall i: nat, j: nat ensures Joins(E, sccs, i, j) <==> Joins(D, sccs, i, j) {
      if i < |sccs| && j < |sccs| {
        forall x: nat, y: nat | x in sccs[i] && y in sccs[j] ensures (x, y) in E <==> (x, y) in D {
          MembersAreCandidates(D, Candidates(c, reachable), sccs);
          TraversableBetweenDead(c, reachable, arcs, x, y);
          assert (x, y) in E <==> (x, y) in arcs;
        }
      }
    }
  }

  lemma CondensationInRange(E: set<(nat, nat)>, sccs: seq<seq<nat>>, arcs: seq<(nat, nat)>)
    requires IsCondensation(E, sccs, arcs)
    ensures forall i :: 0 <= i < |arcs| ==> arcs[i].0 < |sccs| && arcs[i].1 < |sccs|
  {
    hide PairLess;
    forall i | 0 <= i < |arcs| ensures arcs[i].0 < |sccs| && arcs[i].1 < |sccs| {
      assert (arcs[i].0, arcs[i].1) in arcs;
    }
  }

  // ---- the analysis

  method AnalyzeReachability(c: Contents) returns (r: Reachability)
    requires Valid(c)
    ensures MarksCorrect(c, r) && DeadGraphCorrect(c, r) && Arranged(c.symbols, r.sccs)
  {
    hide Arranged, Valid, IsSccPartition, IsCondensation, IsWeakPartition, LiveArcs, StructuralArcs, RootIds, StructuralRootIds, Traversal.ReachedFrom;
    var n := |c.symbols|;
    var adjacency, structuralAdjacency := Adjacency(c);
    var start := Starts(c, false);
    var structural := Traversal.Traverse(structuralAdjacency, start);
    start := Starts(c, true);
    var reachable := Traversal.Traverse(adjacency, start);
    var provider := seq(n, i requires 0 <= i < n => reachable[i] && !structural[i]);
    var candidate := Candidates(c, reachable);
    var sccs := DeadComponents(c, adjacency, candidate);
    var condensation, weak := DeadGraph(c, reachable, sccs);
    r := Reachability(reachable, structural, provider, sccs, condensation, weak);
  }

  method DeadGraph(c: Contents, reachable: seq<bool>, sccs: seq<seq<nat>>)
    returns (condensation: seq<(nat, nat)>, weak: seq<seq<nat>>)
    requires Valid(c) && |reachable| == |c.symbols|
    requires IsSccPartition(DeadArcs(c, Candidates(c, reachable)), Candidates(c, reachable), sccs)
    ensures IsCondensation(DeadArcs(c, Candidates(c, reachable)), sccs, condensation)
    ensures IsWeakPartition(BothWays(condensation), |sccs|, weak)
  {
    hide Valid, IsScc, DeadArcs, IsCondensation, IsWeakPartition;
    MembersAreCandidates(DeadArcs(c, Candidates(c, reachable)), Candidates(c, reachable), sccs);
    var owner := OwnerOf(sccs, |c.symbols|);
    var pairs := TraversablePairs(c);
    condensation := Condense(pairs, sccs, owner);
    CondensationOfDead(c, reachable, pairs, sccs, condensation);
    CondensationInRange(DeadArcs(c, Candidates(c, reachable)), sccs, condensation);
    weak := WeakComponents(condensation, |sccs|);
  }
}
