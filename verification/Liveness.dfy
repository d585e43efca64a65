/** What the marks and components of the analysis mean, with the kinds of edges and roots and the
    scopes of symbols written out. */
module Liveness {
  import opened Digraph
  import opened Symbols
  import opened Facts
  import opened Tarjan
  import opened Condensation
  import opened Analysis
  import Traversal

  // ---- marks

  /** The code of the symbol was seen: it is reportable, or indexed beside what is reported. */
  predicate BodySeen(c: Contents, v: nat) {
    v < |c.symbols| && (c.symbols[v].scope == Reportable || c.symbols[v].scope == Indexed)
  }

  predicate InTheCode(k: EdgeKind) {
    k == DirectCall || k == Constructs || k == VirtualDispatch
  }

  /** S holds every root, and with a symbol whose code was seen the target of each of its edges, of
      whatever kind. */
  ghost predicate Closed(c: Contents, S: iset<nat>) {
    && (forall x: Fact<nat> :: x in c.roots && x.Root? ==> x.symbol in S)
    && (forall x: Fact<nat> :: x in c.edges && x.Edge? && x.from in S && BodySeen(c, x.from) ==> x.to in S)
  }

  /** The same for the roots that no provider gave and the edges that the code itself has. */
  ghost predicate StructurallyClosed(c: Contents, S: iset<nat>) {
    && (forall x: Fact<nat> :: x in c.roots && x.Root? && x.rootKind != CallbackRoot && x.rootKind != ProviderRoot ==> x.symbol in S)
    && (forall x: Fact<nat> :: x in c.edges && x.Edge? && x.from in S && BodySeen(c, x.from) && InTheCode(x.edgeKind) ==> x.to in S)
  }

  ghost function Marked(marks: seq<bool>): iset<nat> {
    iset v: nat | v < |marks| && marks[v]
  }

  lemma ArcsClosed(c: Contents, S: iset<nat>)
    requires Valid(c)
    ensures Closed(c, S) <==> (forall r: nat :: r in RootIds(c) ==> r in S) && forall x: nat, y: nat :: x in S && (x, y) in LiveArcs(c) ==> y in S
  {
    if Closed(c, S) {
      forall x: nat, y: nat | x in S && (x, y) in LiveArcs(c) ensures y in S {
        var e :| e in c.edges && IsLive(c, e) && (e.from, e.to) == (x, y);
      }
    }
    if (forall r: nat :: r in RootIds(c) ==> r in S) && forall x: nat, y: nat :: x in S && (x, y) in LiveArcs(c) ==> y in S {
      forall x: Fact<nat> | x in c.roots && x.Root? ensures x.symbol in S { assert x.symbol in RootIds(c); }
      forall x: Fact<nat> | x in c.edges && x.Edge? && x.from in S && BodySeen(c, x.from) ensures x.to in S {
        assert IsLive(c, x);
        assert (x.from, x.to) in LiveArcs(c);
      }
    }
  }

  lemma StructuralArcsClosed(c: Contents, S: iset<nat>)
    requires Valid(c)
    ensures StructurallyClosed(c, S) <==>
      (forall r: nat :: r in StructuralRootIds(c) ==> r in S) && forall x: nat, y: nat :: x in S && (x, y) in StructuralArcs(c) ==> y in S
  {
    if StructurallyClosed(c, S) {
      forall x: nat, y: nat | x in S && (x, y) in StructuralArcs(c) ensures y in S {
        var e :| e in c.edges && IsLive(c, e) && !IsProviderEdge(e.edgeKind) && (e.from, e.to) == (x, y);
      }
    }
    if (forall r: nat :: r in StructuralRootIds(c) ==> r in S) && forall x: nat, y: nat :: x in S && (x, y) in StructuralArcs(c) ==> y in S {
      forall x: Fact<nat> | x in c.roots && x.Root? && x.rootKind != CallbackRoot && x.rootKind != ProviderRoot ensures x.symbol in S {
        assert x.symbol in StructuralRootIds(c);
      }
      forall x: Fact<nat> | x in c.edges && x.Edge? && x.from in S && BodySeen(c, x.from) && InTheCode(x.edgeKind) ensures x.to in S {
        assert IsLive(c, x) && !IsProviderEdge(x.edgeKind);
        assert (x.from, x.to) in StructuralArcs(c);
      }
    }
  }

  predicate Known(c: Contents, v: nat) {
    v < |c.symbols|
  }

  lemma ArcToKnown(c: Contents, x: nat, y: nat)
    requires Valid(c) && ((x, y) in LiveArcs(c) || (x, y) in StructuralArcs(c))
    ensures Known(c, y)
  {
    var e: Fact<nat> :| e in c.edges && IsLive(c, e) && (e.from, e.to) == (x, y);
    assert e in c.All();
  }

  lemma ReachedKnown(c: Contents, E: set<(nat, nat)>, start: set<nat>, v: nat)
    requires Valid(c) && (E == LiveArcs(c) || E == StructuralArcs(c)) && (start == RootIds(c) || start == StructuralRootIds(c))
    requires Traversal.ReachedFrom(E, start, v)
    ensures Known(c, v)
  {
    hide LiveArcs, StructuralArcs, DistinctKeys;
    var r: nat :| r in start && Reach(E, r, v);
    var x: Fact<nat> :| x in c.roots && x.Root? && x.symbol == r;
    assert x in c.All();
    if !Known(c, v) {
      var a, b := ReachCrossing(E, r, v, iset i: nat | Known(c, i));
      ArcToKnown(c, a, b);
    }
  }

  /** The reachable symbols are the least closed set, and the structurally reachable ones the least
      structurally closed set. */
  lemma MarksAreLeast(c: Contents, r: Reachability)
    requires Valid(c) && MarksCorrect(c, r)
    ensures Closed(c, Marked(r.reachable)) && forall S: iset<nat> :: Closed(c, S) ==> Marked(r.reachable) <= S
    ensures StructurallyClosed(c, Marked(r.structural)) && forall S: iset<nat> :: StructurallyClosed(c, S) ==> Marked(r.structural) <= S
  {
    hide Valid, LiveArcs, StructuralArcs, RootIds, StructuralRootIds, Traversal.ReachedFrom, Closed, StructurallyClosed;
    var E, start, F, first := LiveArcs(c), RootIds(c), StructuralArcs(c), StructuralRootIds(c);
    Traversal.ReachedIsLeast(E, start);
    Traversal.ReachedIsLeast(F, first);
    forall v: nat | Traversal.ReachedFrom(E, start, v) ensures v < |c.symbols| { ReachedKnown(c, E, start, v); }
    forall v: nat | Traversal.ReachedFrom(F, first, v) ensures v < |c.symbols| { ReachedKnown(c, F, first, v); }
    assert Marked(r.reachable) == iset v: nat | Traversal.ReachedFrom(E, start, v);
    assert Marked(r.structural) == iset v: nat | Traversal.ReachedFrom(F, first, v);
    forall S: iset<nat> ensures Closed(c, S) <==> (forall r: nat :: r in start ==> r in S) && forall x: nat, y: nat :: x in S && (x, y) in E ==> y in S {
      ArcsClosed(c, S);
    }
    forall S: iset<nat> ensures StructurallyClosed(c, S) <==>
      (forall r: nat :: r in first ==> r in S) && forall x: nat, y: nat :: x in S && (x, y) in F ==> y in S
    {
      StructuralArcsClosed(c, S);
    }
  }

  // ---- components

  /** A definition that is reported on and not reachable. */
  predicate Dead(c: Contents, reachable: seq<bool>, v: nat) {
    && v < |c.symbols| && v < |reachable| && !reachable[v]
    && c.symbols[v].defined && c.symbols[v].scope == Reportable && c.symbols[v].kind != Synthetic
  }

  /** All edges between dead symbols, of whatever kind. */
  ghost function DeadEdges(c: Contents, reachable: seq<bool>): set<(nat, nat)> {
    set x | x in c.edges && x.Edge? && Dead(c, reachable, x.from) && Dead(c, reachable, x.to) :: (x.from, x.to)
  }

  lemma DeadArcsAreEdges(c: Contents, reachable: seq<bool>)
    requires Valid(c) && |reachable| == |c.symbols|
    ensures DeadArcs(c, Candidates(c, reachable)) == DeadEdges(c, reachable)
    ensures forall v: nat :: v < |c.symbols| ==> (Candidates(c, reachable)[v] <==> Dead(c, reachable, v))
  {
    hide DistinctKeys;
    var D, E := DeadArcs(c, Candidates(c, reachable)), DeadEdges(c, reachable);
    forall a | a in D ensures a in E {
      var x: Fact<nat> :| x in c.edges && IsLive(c, x) && (x.from, x.to) == a;
      assert Dead(c, reachable, x.from) && Dead(c, reachable, x.to);
    }
    forall a | a in E ensures a in D {
      var x: Fact<nat> :| x in c.edges && x.Edge? && Dead(c, reachable, x.from) && Dead(c, reachable, x.to) && (x.from, x.to) == a;
      assert IsLive(c, x);
      assert a in LiveArcs(c);
    }
  }

  /** The components hold exactly the dead symbols, two in one component exactly when each reaches the
      other over edges between dead symbols. */
  lemma ComponentsOfDead(c: Contents, r: Reachability)
    requires Valid(c) && MarksCorrect(c, r) && DeadGraphCorrect(c, r)
    ensures forall v: nat :: InSome(r.sccs, v) <==> Dead(c, r.reachable, v)
    ensures forall k, x: nat, y: nat :: 0 <= k < |r.sccs| && x in r.sccs[k] ==>
      (y in r.sccs[k] <==> Reach(DeadEdges(c, r.reachable), x, y) && Reach(DeadEdges(c, r.reachable), y, x))
  {
    hide Valid, Dead, DeadEdges, DeadArcs, Candidates, Reach, IsCondensation, IsWeakPartition, Reachable, StructurallyReachable;
    DeadArcsAreEdges(c, r.reachable);
    DeadOnly(c, r.reachable);
    forall k, x: nat, y: nat | 0 <= k < |r.sccs| && x in r.sccs[k]
      ensures y in r.sccs[k] <==> Reach(DeadEdges(c, r.reachable), x, y) && Reach(DeadEdges(c, r.reachable), y, x)
    {
      assert IsScc(DeadEdges(c, r.reachable), r.sccs[k]);
    }
  }

  lemma DeadOnly(c: Contents, reachable: seq<bool>)
    ensures forall v: nat :: Dead(c, reachable, v) ==> v < |c.symbols|
    ensures |reachable| == |c.symbols| ==> |Candidates(c, reachable)| == |c.symbols|
  {
  }

  /** One component leads to another exactly when some edge, of whatever kind, leads from a member of
      the one to a member of the other. */
  lemma CondensationOfEdges(c: Contents, r: Reachability, i: nat, j: nat)
    requires Valid(c) && MarksCorrect(c, r) && DeadGraphCorrect(c, r)
    ensures (i, j) in r.condensation <==>
      && i < |r.sccs| && j < |r.sccs| && i != j
      && exists x: Fact<nat> :: x in c.edges && x.Edge? && x.from in r.sccs[i] && x.to in r.sccs[j]
  {
    hide Dead, DeadEdges, DeadArcs, Candidates, Reach, IsScc, IsWeakPartition, Reachable, StructurallyReachable, DistinctKeys, PairLess;
    DeadArcsAreEdges(c, r.reachable);
    ComponentsOfDead(c, r);
    var E := DeadEdges(c, r.reachable);
    if i < |r.sccs| && j < |r.sccs| && i != j {
      if (i, j) in r.condensation {
        var x: nat, y: nat :| x in r.sccs[i] && y in r.sccs[j] && (x, y) in E;
        var e := EdgeOf(c, r.reachable, x, y);
      }
      if x: Fact<nat> :| x in c.edges && x.Edge? && x.from in r.sccs[i] && x.to in r.sccs[j] {
        assert InSome(r.sccs, x.from) && InSome(r.sccs, x.to);
        EdgeIn(c, r.reachable, x);
        assert Joins(E, r.sccs, i, j);
      }
    }
  }

  lemma EdgeOf(c: Contents, reachable: seq<bool>, x: nat, y: nat) returns (e: Fact<nat>)
    requires (x, y) in DeadEdges(c, reachable)
    ensures e in c.edges && e.Edge? && e.from == x && e.to == y
  {
    e :| e in c.edges && e.Edge? && Dead(c, reachable, e.from) && Dead(c, reachable, e.to) && (e.from, e.to) == (x, y);
  }

  lemma EdgeIn(c: Contents, reachable: seq<bool>, e: Fact<nat>)
    requires e in c.edges && e.Edge? && Dead(c, reachable, e.from) && Dead(c, reachable, e.to)
    ensures (e.from, e.to) in DeadEdges(c, reachable)
  {
  }
}
