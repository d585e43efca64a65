/** The graph between components, and its weakly connected parts. */
module Condensation {
  import opened Digraph
  import opened Orders
  import opened Tarjan
  import Traversal

  // ---- arcs between components

  predicate PairLess(a: (nat, nat), b: (nat, nat)) {
    a.0 < b.0 || (a.0 == b.0 && a.1 < b.1)
  }

  lemma PairOrder()
    ensures StrictTotal(PairLess)
  {
  }

  ghost predicate Disjoint(sccs: seq<seq<nat>>) {
    forall k, l, x: nat :: 0 <= k < l < |sccs| && x in sccs[k] ==> x !in sccs[l]
  }

  /** owner[x] is the component of x, or -1. */
  ghost predicate IsOwner(sccs: seq<seq<nat>>, owner: seq<int>) {
    && (forall x: nat :: x < |owner| ==> -1 <= owner[x] < |sccs|)
    && (forall k, x: nat :: 0 <= k < |sccs| && x in sccs[k] ==> x < |owner| && owner[x] == k)
    && (forall x: nat :: x < |owner| && owner[x] >= 0 ==> x in sccs[owner[x]])
  }

  method OwnerOf(sccs: seq<seq<nat>>, n: nat) returns (owner: seq<int>)
    requires Disjoint(sccs) && forall k, x: nat :: 0 <= k < |sccs| && x in sccs[k] ==> x < n
    ensures |owner| == n && IsOwner(sccs, owner)
  {
    owner := seq(n, _ => -1);
    for k := 0 to |sccs|
      invariant |owner| == n
      invariant forall x: nat :: x < n ==> -1 <= owner[x] < k
      invariant forall j, x: nat :: 0 <= j < k && x in sccs[j] ==> owner[x] == j
      invariant forall x: nat :: x < n && owner[x] >= 0 ==> x in sccs[owner[x]]
    {
      ghost var before := owner;
      for i := 0 to |sccs[k]|
        invariant |owner| == n
        invariant forall x: nat :: x < n ==> owner[x] == if x in sccs[k][..i] then k else before[x]
      {
        var x := sccs[k][i];
        assert x in sccs[k];
        assert sccs[k][..i + 1] == sccs[k][..i] + [x];
        owner := owner[x := k];
      }
      assert sccs[k][..|sccs[k]|] == sccs[k];
    }
  }

  /** Some arc leads from a member of component i to a member of component j. */
  ghost predicate Joins(E: set<(nat, nat)>, sccs: seq<seq<nat>>, i: nat, j: nat) {
    i < |sccs| && j < |sccs| && i != j && exists x: nat, y: nat :: x in sccs[i] && y in sccs[j] && (x, y) in E
  }

  ghost predicate IsCondensation(E: set<(nat, nat)>, sccs: seq<seq<nat>>, arcs: seq<(nat, nat)>) {
    && StrictlySortedBy(PairLess, arcs)
    && forall i: nat, j: nat :: (i, j) in arcs <==> Joins(E, sccs, i, j)
  }

  /** Maps every arc to the components of its ends, keeps those between different components,
      sorts them and drops repeats. */
  method Condense(arcs: seq<(nat, nat)>, sccs: seq<seq<nat>>, owner: seq<int>) returns (r: seq<(nat, nat)>)
    requires IsOwner(sccs, owner)
    requires forall i :: 0 <= i < |arcs| ==> arcs[i].0 < |owner| && arcs[i].1 < |owner|
    ensures IsCondensation(set i | 0 <= i < |arcs| :: arcs[i], sccs, r)
  {
    hide StrictTotal, SortUnique, PairLess;
    var pairs: seq<(nat, nat)> := [];
    for n := 0 to |arcs|
      invariant forall i: nat, j: nat :: (i, j) in pairs <==> JoinsUpTo(arcs, n, owner, i, j)
    {
      var f, t := owner[arcs[n].0], owner[arcs[n].1];
      ghost var before := pairs;
      if f >= 0 && t >= 0 && f != t {
        pairs := pairs + [(f, t)];
        assert JoinsUpTo(arcs, n + 1, owner, f, t);
      }
      forall i: nat, j: nat ensures (i, j) in pairs <==> JoinsUpTo(arcs, n + 1, owner, i, j) {
        assert (i, j) in pairs <==> (i, j) in before || (f >= 0 && t >= 0 && f != t && (i, j) == (f, t));
        JoinsNext(arcs, n, owner, i, j);
      }
    }
    PairOrder();
    SortUniqueSpec(PairLess, pairs);
    r := SortUnique(PairLess, pairs);
    forall i: nat, j: nat ensures (i, j) in r <==> Joins(set i | 0 <= i < |arcs| :: arcs[i], sccs, i, j) {
      JoinsAll(arcs, sccs, owner, i, j);
      assert (i, j) in r <==> (i, j) in pairs;
    }
  }

  ghost predicate JoinsUpTo(arcs: seq<(nat, nat)>, n: nat, owner: seq<int>, i: nat, j: nat)
    requires n <= |arcs| && forall k :: 0 <= k < |arcs| ==> arcs[k].0 < |owner| && arcs[k].1 < |owner|
  {
    i != j && exists k :: 0 <= k < n && owner[arcs[k].0] == i && owner[arcs[k].1] == j
  }

  lemma JoinsNext(arcs: seq<(nat, nat)>, n: nat, owner: seq<int>, i: nat, j: nat)
    requires n < |arcs| && forall k :: 0 <= k < |arcs| ==> arcs[k].0 < |owner| && arcs[k].1 < |owner|
    ensures JoinsUpTo(arcs, n + 1, owner, i, j) <==>
            JoinsUpTo(arcs, n, owner, i, j) || (i != j && owner[arcs[n].0] == i && owner[arcs[n].1] == j)
  {
  }

  lemma JoinsAll(arcs: seq<(nat, nat)>, sccs: seq<seq<nat>>, owner: seq<int>, i: nat, j: nat)
    requires IsOwner(sccs, owner)
    requires forall i :: 0 <= i < |arcs| ==> arcs[i].0 < |owner| && arcs[i].1 < |owner|
    ensures JoinsUpTo(arcs, |arcs|, owner, i, j) <==> Joins(set i | 0 <= i < |arcs| :: arcs[i], sccs, i, j)
  {
    ghost var E := set i | 0 <= i < |arcs| :: arcs[i];
    if JoinsUpTo(arcs, |arcs|, owner, i, j) {
      var k :| 0 <= k < |arcs| && owner[arcs[k].0] == i && owner[arcs[k].1] == j;
      assert (arcs[k].0, arcs[k].1) in E;
    }
    if Joins(E, sccs, i, j) {
      var x: nat, y: nat :| x in sccs[i] && y in sccs[j] && (x, y) in E;
      var k :| 0 <= k < |arcs| && arcs[k] == (x, y);
    }
  }

  // ---- no cycles between components

  ghost function ArcSet(arcs: seq<(nat, nat)>): set<(nat, nat)> {
    set a | a in arcs :: a
  }

  /** Following arcs between components can be imitated between their members. */
  lemma {:induction false} PathOfMembers(E: set<(nat, nat)>, sccs: seq<seq<nat>>, arcs: seq<(nat, nat)>, p: seq<nat>, x: nat, y: nat)
    requires (forall k :: 0 <= k < |sccs| ==> IsScc(E, sccs[k])) && IsCondensation(E, sccs, arcs)
    requires IsPath(ArcSet(arcs), p) && p[0] < |sccs| && x in sccs[p[0]]
    requires p[|p| - 1] < |sccs| && y in sccs[p[|p| - 1]]
    ensures Reach(E, x, y)
    decreases |p|
  {
    hide Reach;
    if |p| == 1 {
      assert IsScc(E, sccs[p[0]]);
    } else {
      assert (p[0], p[1]) in arcs && Joins(E, sccs, p[0], p[1]);
      var a: nat, b: nat :| a in sccs[p[0]] && b in sccs[p[1]] && (a, b) in E;
      PathOfMembers(E, sccs, arcs, p[1..], b, y);
      assert IsScc(E, sccs[p[0]]) && Reach(E, x, a);
      ReachStep(E, a, b, y);
      ReachTrans(E, x, a, y);
    }
  }

  /** The condensation has no cycle. */
  lemma CondensationAcyclic(E: set<(nat, nat)>, sccs: seq<seq<nat>>, arcs: seq<(nat, nat)>, i: nat, j: nat)
    requires (forall k :: 0 <= k < |sccs| ==> IsScc(E, sccs[k])) && Disjoint(sccs) && IsCondensation(E, sccs, arcs)
    requires (i, j) in arcs
    ensures !Reach(ArcSet(arcs), j, i)
  {
    assert Joins(E, sccs, i, j);
    var x: nat, y: nat :| x in sccs[i] && y in sccs[j] && (x, y) in E;
    ReachArc(E, x, y);
    assert IsScc(E, sccs[i]) && y !in sccs[i];
    if Reach(ArcSet(arcs), j, i) {
      var p :| IsPath(ArcSet(arcs), p) && p[0] == j && p[|p| - 1] == i;
      PathOfMembers(E, sccs, arcs, p, y, x);
    }
  }

  // ---- weakly connected parts

  /** Arcs taken in both directions. */
  ghost function BothWays(arcs: seq<(nat, nat)>): set<(nat, nat)> {
    (set a | a in arcs :: a) + (set a | a in arcs :: (a.1, a.0))
  }

  lemma {:induction false} PathBack(arcs: seq<(nat, nat)>, p: seq<nat>)
    requires IsPath(BothWays(arcs), p)
    ensures Reach(BothWays(arcs), p[|p| - 1], p[0])
  {
    hide Reach;
    var U := BothWays(arcs);
    if |p| == 1 {
      ReachRefl(U, p[0]);
    } else {
      PathBack(arcs, p[1..]);
      ReachArc(U, p[1], p[0]);
      ReachTrans(U, p[|p| - 1], p[1], p[0]);
    }
  }

  lemma ReachSymmetric(arcs: seq<(nat, nat)>, x: nat, y: nat)
    requires Reach(BothWays(arcs), x, y)
    ensures Reach(BothWays(arcs), y, x)
  {
    var p :| IsPath(BothWays(arcs), p) && p[0] == x && p[|p| - 1] == y;
    PathBack(arcs, p);
  }

  /** c lists in increasing order the nodes connected with its members. */
  ghost predicate IsWeakComponent(U: set<(nat, nat)>, n: nat, c: seq<nat>) {
    && c != []
    && (forall i, j :: 0 <= i < j < |c| ==> c[i] < c[j])
    && (forall x: nat, y: nat :: x in c ==> x < n && (y in c <==> y < n && Reach(U, x, y)))
  }

  ghost predicate IsWeakPartition(U: set<(nat, nat)>, n: nat, parts: seq<seq<nat>>) {
    && (forall k :: 0 <= k < |parts| ==> IsWeakComponent(U, n, parts[k]))
    && Disjoint(parts)
    && (forall x: nat :: InSome(parts, x) <==> x < n)
    && (forall k, l :: 0 <= k < l < |parts| ==> parts[k] != [] && parts[l] != [] && parts[k][0] < parts[l][0])
  }

  method WeakAdjacency(arcs: seq<(nat, nat)>, n: nat) returns (adjacency: seq<seq<nat>>)
    requires forall i :: 0 <= i < |arcs| ==> arcs[i].0 < n && arcs[i].1 < n
    ensures |adjacency| == n && Traversal.InBounds(adjacency)
    ensures Traversal.Arcs(adjacency) == BothWays(arcs)
  {
    adjacency := seq(n, _ => []);
    for k := 0 to |arcs|
      invariant |adjacency| == n
      invariant forall x: nat, y: nat :: x < n ==> (y in adjacency[x] <==> (x, y) in arcs[..k] || (y, x) in arcs[..k])
    {
      var (f, t) := arcs[k];
      assert arcs[..k + 1] == arcs[..k] + [arcs[k]];
      adjacency := adjacency[f := adjacency[f] + [t]];
      adjacency := adjacency[t := adjacency[t] + [f]];
    }
    assert arcs[..|arcs|] == arcs;
    forall x: nat, y: nat ensures (x, y) in BothWays(arcs) <==> x < n && y in adjacency[x] {
      InBothWays(arcs, x, y);
    }
  }

  lemma InBothWays(arcs: seq<(nat, nat)>, x: nat, y: nat)
    ensures (x, y) in BothWays(arcs) <==> (x, y) in arcs || (y, x) in arcs
  {
    if (y, x) in arcs {
      assert ((y, x).1, (y, x).0) == (x, y);
    }
  }

  ghost function Marked(taken: seq<bool>): set<nat> {
    set x: nat | x < |taken| && taken[x]
  }

  ghost predicate ClosedUnder(U: set<(nat, nat)>, taken: seq<bool>) {
    forall x: nat, y: nat :: x < |taken| && taken[x] && (x, y) in U ==> y < |taken| && taken[y]
  }

  /** component and pending together list, once each, the nodes marked since the start. */
  ghost predicate Collected(taken0: seq<bool>, taken: seq<bool>, component: seq<nat>, pending: seq<nat>) {
    && |taken| == |taken0|
    && Distinct(component + pending)
    && (forall x: nat :: x < |taken| && taken0[x] ==> taken[x])
    && (forall x: nat :: x in component + pending <==> x < |taken| && taken[x] && !taken0[x])
  }

  lemma CollectStep(taken0: seq<bool>, before: seq<bool>, component: seq<nat>, rest: seq<nat>, current: nat,
                    successors: seq<nat>, taken: seq<bool>, pending: seq<nat>)
    requires Collected(taken0, before, component, rest + [current])
    requires |taken| == |before|
    requires forall x: nat :: x < |taken| ==> (taken[x] <==> before[x] || x in successors)
    requires |rest| <= |pending| && pending[..|rest|] == rest
    requires forall i, j :: |rest| <= i < j < |pending| ==> pending[i] != pending[j]
    requires forall i :: |rest| <= i < |pending| ==> pending[i] in successors && pending[i] < |before| && !before[pending[i]]
    requires forall x: nat :: x in successors && x < |before| && !before[x] ==> x in pending
    ensures Collected(taken0, taken, component + [current], pending)
  {
    var was, now := component + (rest + [current]), component + [current] + pending;
    var added := pending[|rest|..];
    assert pending == rest + added;
    assert now == component + [current] + rest + added;
    forall x: nat ensures x in now <==> x in was || x in added {}
    forall x: nat | x in added ensures !before[x] && x < |before| && x in successors {
      var i :| 0 <= i < |added| && added[i] == x;
      assert pending[|rest| + i] == x;
    }
    DistinctReorder(component, rest, current, added);
    assert forall x: nat :: x in rest ==> x in was;
    forall x: nat ensures x in now <==> x < |taken| && taken[x] && !taken0[x] {
      if x < |taken| && x in successors && !before[x] {
        assert x in pending && x !in rest;
      }
    }
  }

  lemma DistinctReorder(component: seq<nat>, rest: seq<nat>, current: nat, added: seq<nat>)
    requires Distinct(component + (rest + [current])) && Distinct(added)
    requires forall x: nat :: x in added ==> x !in component + (rest + [current])
    ensures Distinct(component + [current] + (rest + added))
  {
    var was, now := component + (rest + [current]), component + [current] + (rest + added);
    forall i, j | 0 <= i < |was| && 0 <= j < |added| ensures was[i] != added[j] {
      assert added[j] in added && was[i] in was;
    }
    assert Distinct(was + added);
    assert multiset(was + added) == multiset(now);
    DistinctPermuted(was + added, now);
  }

  lemma FloodStart(U: set<(nat, nat)>, taken0: seq<bool>, first: nat)
    requires first < |taken0| && !taken0[first] && ClosedUnder(U, taken0)
    ensures var taken := taken0[first := true];
            Traversal.Exploring(U, Marked(taken0) + {first}, taken, [first]) && Collected(taken0, taken, [], [first])
  {
    hide Reach;
    forall v: nat | v < |taken0| && (taken0[v] || v == first)
      ensures Traversal.ReachedFrom(U, Marked(taken0) + {first}, v)
    {
      ReachRefl(U, v);
      assert v in Marked(taken0) + {first};
    }
    assert [] + [first] == [first];
  }

  /** Collects everything connected with the first node. */
  method Flood(adjacency: seq<seq<nat>>, taken0: seq<bool>, first: nat)
    returns (component: seq<nat>, taken: seq<bool>)
    requires Traversal.InBounds(adjacency) && |adjacency| == |taken0|
    requires first < |taken0| && !taken0[first] && ClosedUnder(Traversal.Arcs(adjacency), taken0)
    ensures Collected(taken0, taken, component, [])
    ensures taken[first]
    ensures Traversal.Exploring(Traversal.Arcs(adjacency), Marked(taken0) + {first}, taken, [])
  {
    hide Reach, Traversal.ReachedFrom, ClosedUnder, Collected;
    ghost var U, start := Traversal.Arcs(adjacency), Marked(taken0) + {first};
    FloodStart(U, taken0, first);
    component, taken := [], taken0[first := true];
    var pending := [first];
    while pending != []
      invariant |taken| == |taken0| && taken[first]
      invariant Traversal.Exploring(U, start, taken, pending)
      invariant Collected(taken0, taken, component, pending)
      decreases Traversal.Unmarked(taken), |pending|
    {
      var current := pending[|pending| - 1];
      var rest := pending[..|pending| - 1];
      assert pending == rest + [current];
      forall k | 0 <= k < |adjacency[current]| ensures adjacency[current][k] < |taken| {
        assert adjacency[current][k] in adjacency[current];
      }
      ghost var before := taken;
      taken, pending := Traversal.MarkSuccessors(adjacency[current], taken, rest);
      Traversal.ExploreStep(U, adjacency, start, before, rest, current, taken, pending);
      CollectStep(taken0, before, component, rest, current, adjacency[current], taken, pending);
      component := component + [current];
    }
  }

  /** What the flood from first leaves behind. */
  lemma Flooded(arcs: seq<(nat, nat)>, taken0: seq<bool>, taken: seq<bool>, first: nat, component: seq<nat>)
    requires first < |taken0| && !taken0[first] && ClosedUnder(BothWays(arcs), taken0)
    requires Collected(taken0, taken, component, []) && taken[first]
    requires Traversal.Exploring(BothWays(arcs), Marked(taken0) + {first}, taken, [])
    ensures ClosedUnder(BothWays(arcs), taken)
    ensures forall y: nat :: y in component <==> y < |taken| && Reach(BothWays(arcs), first, y)
    ensures forall y: nat :: y < |taken| ==> (taken[y] <==> taken0[y] || y in component)
  {
    hide Reach;
    var U, start := BothWays(arcs), Marked(taken0) + {first};
    assert component + [] == component;
    assert ClosedUnder(U, taken);
    Traversal.Explored(U, start, taken);
    forall y: nat ensures y in component <==> y < |taken| && Reach(U, first, y) {
      if y in component {
        var r: nat :| r in start && Reach(U, r, y);
        if r != first {
          Closure(U, taken0, r, y);
        }
      } else if y < |taken| && Reach(U, first, y) {
        assert first in start;
        assert Traversal.ReachedFrom(U, start, y);
        ReachSymmetric(arcs, first, y);
        Closure(U, taken0, y, first);
      }
    }
  }

  lemma Closure(U: set<(nat, nat)>, taken: seq<bool>, x: nat, y: nat)
    requires ClosedUnder(U, taken) && x < |taken| && taken[x] && Reach(U, x, y)
    ensures y < |taken| && taken[y]
  {
    hide Reach;
    var S := iset z: nat | z < |taken| && taken[z];
    if y !in S {
      var a, b := ReachCrossing(U, x, y, S);
    }
  }

  predicate Less(a: nat, b: nat) {
    a < b
  }

  lemma FloodedIsComponent(arcs: seq<(nat, nat)>, n: nat, first: nat, component: seq<nat>)
    requires Distinct(component) && first < n
    requires forall y: nat :: y in component <==> y < n && Reach(BothWays(arcs), first, y)
    ensures IsWeakComponent(BothWays(arcs), n, Sort(Less, component))
    ensures forall y: nat :: y in Sort(Less, component) <==> y in component
  {
    hide Reach, BothWays, Sort;
    var U, c := BothWays(arcs), Sort(Less, component);
    SortStrict(Less, component);
    SortMembers(Less, component);
    ReachRefl(U, first);
    assert first in component && first in c;
    forall x: nat, y: nat | x in c ensures x < n && (y in c <==> y < n && Reach(U, x, y)) {
      assert x in component;
      ReachSymmetric(arcs, first, x);
      if y in c { assert y in component; ReachTrans(U, x, first, y); }
      if Reach(U, x, y) { ReachTrans(U, first, x, y); }
    }
  }

  predicate FrontLess(a: seq<nat>, b: seq<nat>) {
    a != [] && b != [] && a[0] < b[0]
  }

  /** The parts found so far, when the nodes below first have been looked at. */
  ghost predicate Partial(U: set<(nat, nat)>, parts: seq<seq<nat>>, taken: seq<bool>, first: nat) {
    && first <= |taken|
    && ClosedUnder(U, taken)
    && (forall x: nat :: x < first ==> taken[x])
    && (forall x: nat :: InSome(parts, x) <==> x < |taken| && taken[x])
    && (forall k :: 0 <= k < |parts| ==> IsWeakComponent(U, |taken|, parts[k]) && parts[k][0] < first)
    && Disjoint(parts)
    && (forall k, l :: 0 <= k < l < |parts| ==> FrontLess(parts[k], parts[l]))
  }

  lemma PartialNext(arcs: seq<(nat, nat)>, parts: seq<seq<nat>>, taken0: seq<bool>, first: nat, taken: seq<bool>, c: seq<nat>)
    requires Partial(BothWays(arcs), parts, taken0, first) && first < |taken0| == |taken| && !taken0[first]
    requires ClosedUnder(BothWays(arcs), taken) && IsWeakComponent(BothWays(arcs), |taken|, c)
    requires first in c && (forall y: nat :: y in c ==> y < |taken| && !taken0[y])
    requires forall y: nat :: y < |taken| ==> (taken[y] <==> taken0[y] || y in c)
    ensures Partial(BothWays(arcs), parts + [c], taken, first + 1)
  {
    hide Reach, ClosedUnder;
    var all := parts + [c];
    var i :| 0 <= i < |c| && c[i] == first;
    assert c[0] in c;
    assert c[0] == first;
    forall x: nat ensures InSome(all, x) <==> x < |taken| && taken[x] {
      if InSome(parts, x) {
        var k :| 0 <= k < |parts| && x in parts[k];
        assert all[k] == parts[k];
      }
      if x in c { assert all[|parts|] == c; }
    }
    forall k, l, x: nat | 0 <= k < l < |all| && x in all[k] ensures x !in all[l] {
      if l == |parts| { assert InSome(parts, x); }
    }
  }

  /** Groups the nodes into the classes of undirected connectivity. */
  method WeakComponents(arcs: seq<(nat, nat)>, n: nat) returns (parts: seq<seq<nat>>)
    requires forall i :: 0 <= i < |arcs| ==> arcs[i].0 < n && arcs[i].1 < n
    ensures IsWeakPartition(BothWays(arcs), n, parts)
  {
    hide Reach, ClosedUnder, Collected, Traversal.Exploring, IsWeakComponent, Disjoint, Sort;
    var adjacency := WeakAdjacency(arcs, n);
    var taken := seq(n, _ => false);
    parts := [];
    assert Partial(BothWays(arcs), parts, taken, 0) by { PartialStart(BothWays(arcs), taken); }
    for first := 0 to n
      invariant |taken| == n && Partial(BothWays(arcs), parts, taken, first)
    {
      if !taken[first] {
        ghost var before := taken;
        var component;
        component, taken := Flood(adjacency, taken, first);
        Flooded(arcs, before, taken, first, component);
        CollectedDistinct(before, taken, component);
        FloodedIsComponent(arcs, n, first, component);
        ReachRefl(BothWays(arcs), first);
        PartialNext(arcs, parts, before, first, taken, Sort(Less, component));
        parts := parts + [Sort(Less, component)];
      } else {
        PartialSkip(BothWays(arcs), parts, taken, first);
      }
    }
    SortOfSorted(FrontLess, parts);
    PartialEnd(BothWays(arcs), parts, taken);
    parts := Sort(FrontLess, parts);
  }

  lemma PartialStart(U: set<(nat, nat)>, taken: seq<bool>)
    requires forall x :: 0 <= x < |taken| ==> !taken[x]
    ensures Partial(U, [], taken, 0)
  {
  }

  lemma PartialSkip(U: set<(nat, nat)>, parts: seq<seq<nat>>, taken: seq<bool>, first: nat)
    requires Partial(U, parts, taken, first) && first < |taken| && taken[first]
    ensures Partial(U, parts, taken, first + 1)
  {
    hide Reach;
  }

  lemma CollectedDistinct(taken0: seq<bool>, taken: seq<bool>, component: seq<nat>)
    requires Collected(taken0, taken, component, [])
    ensures Distinct(component) && |taken| == |taken0|
    ensures forall y: nat :: y in component ==> y < |taken| && !taken0[y]
  {
    assert component + [] == component;
  }

  lemma PartialEnd(U: set<(nat, nat)>, parts: seq<seq<nat>>, taken: seq<bool>)
    requires Partial(U, parts, taken, |taken|)
    ensures IsWeakPartition(U, |taken|, parts)
  {
    hide Reach;
  }
}
