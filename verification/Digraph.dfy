/** Finite directed graphs as sets of arcs, and what it means to reach a node. */
module Digraph {

  ghost predicate IsPath<T(!new)>(E: set<(T, T)>, p: seq<T>) {
    |p| > 0 && (|p| == 1 || ((p[0], p[1]) in E && IsPath(E, p[1..])))
  }

  /** y can be reached from x by following zero or more arcs. */
  ghost predicate Reach<T(!new)>(E: set<(T, T)>, x: T, y: T) {
    exists p :: IsPath(E, p) && p[0] == x && p[|p| - 1] == y
  }

  lemma ReachRefl<T(!new)>(E: set<(T, T)>, x: T)
    ensures Reach(E, x, x)
  {
    assert IsPath(E, [x]);
  }

  lemma ReachArc<T(!new)>(E: set<(T, T)>, x: T, y: T)
    requires (x, y) in E
    ensures Reach(E, x, y)
  {
    assert [x, y][1..] == [y];
    assert IsPath(E, [y]);
    assert IsPath(E, [x, y]);
  }

  lemma {:induction false} PathConcat<T(!new)>(E: set<(T, T)>, p: seq<T>, q: seq<T>)
    requires IsPath(E, p) && IsPath(E, q) && p[|p| - 1] == q[0]
    ensures IsPath(E, p + q[1..])
    ensures (p + q[1..])[0] == p[0] && (p + q[1..])[|p + q[1..]| - 1] == q[|q| - 1]
  {
    if |p| == 1 {
      assert p + q[1..] == q;
    } else {
      PathConcat(E, p[1..], q);
      assert (p + q[1..])[1..] == p[1..] + q[1..];
    }
  }

  lemma ReachTrans<T(!new)>(E: set<(T, T)>, x: T, y: T, z: T)
    requires Reach(E, x, y) && Reach(E, y, z)
    ensures Reach(E, x, z)
  {
    var p :| IsPath(E, p) && p[0] == x && p[|p| - 1] == y;
    var q :| IsPath(E, q) && q[0] == y && q[|q| - 1] == z;
    PathConcat(E, p, q);
  }

  /** x reaches y over an arc followed by a path. */
  lemma ReachStep<T(!new)>(E: set<(T, T)>, x: T, y: T, z: T)
    requires (x, y) in E && Reach(E, y, z)
    ensures Reach(E, x, z)
  {
    ReachArc(E, x, y);
    ReachTrans(E, x, y, z);
  }

  lemma {:induction false} PathCrossing<T(!new)>(E: set<(T, T)>, p: seq<T>, S: iset<T>) returns (a: T, b: T)
    requires IsPath(E, p) && p[0] in S && p[|p| - 1] !in S
    ensures a in S && b !in S && (a, b) in E
    ensures Reach(E, p[0], a) && Reach(E, b, p[|p| - 1])
  {
    if p[1] in S {
      a, b := PathCrossing(E, p[1..], S);
      ReachStep(E, p[0], p[1], a);
    } else {
      a, b := p[0], p[1];
      ReachRefl(E, a);
      assert IsPath(E, p[1..]);
    }
  }

  /** A path that starts inside a set and ends outside it uses an arc that leaves the set. */
  lemma ReachCrossing<T(!new)>(E: set<(T, T)>, x: T, y: T, S: iset<T>) returns (a: T, b: T)
    requires Reach(E, x, y) && x in S && y !in S
    ensures a in S && b !in S && (a, b) in E && Reach(E, x, a) && Reach(E, b, y)
  {
    var p :| IsPath(E, p) && p[0] == x && p[|p| - 1] == y;
    a, b := PathCrossing(E, p, S);
  }

  lemma {:induction false} PathMono<T(!new)>(E: set<(T, T)>, F: set<(T, T)>, p: seq<T>)
    requires E <= F && IsPath(E, p)
    ensures IsPath(F, p)
  {
    if |p| > 1 {
      PathMono(E, F, p[1..]);
    }
  }

  lemma ReachMono<T(!new)>(E: set<(T, T)>, F: set<(T, T)>, x: T, y: T)
    requires E <= F && Reach(E, x, y)
    ensures Reach(F, x, y)
  {
    var p :| IsPath(E, p) && p[0] == x && p[|p| - 1] == y;
    PathMono(E, F, p);
  }

  lemma {:induction false} PathMap<T(!new), U(!new)>(E: set<(T, T)>, F: set<(U, U)>, f: T -> U, p: seq<T>)
    requires IsPath(E, p) && forall a, b :: (a, b) in E ==> (f(a), f(b)) in F
    ensures Reach(F, f(p[0]), f(p[|p| - 1]))
  {
    if |p| == 1 {
      ReachRefl(F, f(p[0]));
    } else {
      PathMap(E, F, f, p[1..]);
      ReachStep(F, f(p[0]), f(p[1]), f(p[|p| - 1]));
    }
  }

  /** A map that takes arcs to arcs takes reachable nodes to reachable nodes. */
  lemma ReachMap<T(!new), U(!new)>(E: set<(T, T)>, F: set<(U, U)>, f: T -> U, x: T, y: T)
    requires Reach(E, x, y) && forall a, b :: (a, b) in E ==> (f(a), f(b)) in F
    ensures Reach(F, f(x), f(y))
  {
    var p :| IsPath(E, p) && p[0] == x && p[|p| - 1] == y;
    PathMap(E, F, f, p);
  }
}
