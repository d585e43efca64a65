/** Marking what can be reached from a set of starting nodes with a stack of pending nodes. */
module Traversal {
  import opened Digraph

  ghost predicate InBounds(adjacency: seq<seq<nat>>) {
    forall x: nat, y: nat :: x < |adjacency| && y in adjacency[x] ==> y < |adjacency|
  }

  ghost function Arcs(adjacency: seq<seq<nat>>): set<(nat, nat)>
    requires InBounds(adjacency)
  {
    set x: nat, y: nat | x < |adjacency| && y < |adjacency| && y in adjacency[x] :: (x, y)
  }

  ghost predicate ReachedFrom(E: set<(nat, nat)>, start: set<nat>, v: nat) {
    exists r: nat :: r in start && Reach(E, r, v)
  }

  /** marked is the least set that contains the starting nodes and is closed under the arcs. */
  ghost predicate IsLeastClosed(E: set<(nat, nat)>, start: set<nat>, marked: iset<nat>) {
    && (forall r: nat :: r in start ==> r in marked)
    && (forall x: nat, y: nat :: x in marked && (x, y) in E ==> y in marked)
    && (forall S: iset<nat> :: (forall r: nat :: r in start ==> r in S) && (forall x: nat, y: nat :: x in S && (x, y) in E ==> y in S)
          ==> marked <= S)
  }

  /** What can be reached is the least closed set. */
  lemma ReachedIsLeast(E: set<(nat, nat)>, start: set<nat>)
    ensures IsLeastClosed(E, start, iset v: nat | ReachedFrom(E, start, v))
  {
    hide Reach;
    var marked := iset v: nat | ReachedFrom(E, start, v);
    forall r: nat | r in start ensures r in marked { ReachRefl(E, r); }
    forall x: nat, y: nat | x in marked && (x, y) in E ensures y in marked {
      var r: nat :| r in start && Reach(E, r, x);
      ReachArc(E, x, y);
      ReachTrans(E, r, x, y);
    }
    forall S: iset<nat>, v: nat | (forall r: nat :: r in start ==> r in S)
        && (forall x: nat, y: nat :: x in S && (x, y) in E ==> y in S) && v in marked
      ensures v in S
    {
      var r: nat :| r in start && Reach(E, r, v);
      if v !in S {
        var a, b := ReachCrossing(E, r, v, S);
      }
    }
  }

  ghost function Unmarked(marked: seq<bool>): set<nat> {
    set x: nat | x < |marked| && !marked[x]
  }

  /** The state of a traversal: everything marked can be reached, and every arc from a marked
      node that is not pending leads to a marked node. */
  ghost predicate Exploring(E: set<(nat, nat)>, start: set<nat>, marked: seq<bool>, pending: seq<nat>) {
    && (forall x :: 0 <= x < |pending| ==> pending[x] < |marked| && marked[pending[x]])
    && (forall v: nat :: v < |marked| && marked[v] ==> ReachedFrom(E, start, v))
    && (forall x: nat, y: nat :: x < |marked| && marked[x] && x !in pending && (x, y) in E ==>
          y < |marked| && marked[y])
  }

  lemma Explored(E: set<(nat, nat)>, start: set<nat>, marked: seq<bool>)
    requires Exploring(E, start, marked, [])
    requires forall r: nat :: r in start ==> r < |marked| && marked[r]
    ensures forall v: nat :: v < |marked| ==> (marked[v] <==> ReachedFrom(E, start, v))
  {
    hide Reach;
    var S := iset x: nat | x < |marked| && marked[x];
    forall v: nat | v < |marked| && ReachedFrom(E, start, v) ensures marked[v] {
      var r: nat :| r in start && Reach(E, r, v);
      if !marked[v] {
        var a, b := ReachCrossing(E, r, v, S);
      }
    }
  }

  /** Marks the unmarked successors of a node and puts them on the stack. */
  method MarkSuccessors(successors: seq<nat>, marked0: seq<bool>, pending0: seq<nat>)
    returns (marked: seq<bool>, pending: seq<nat>)
    requires forall k :: 0 <= k < |successors| ==> successors[k] < |marked0|
    ensures |marked| == |marked0|
    ensures forall x: nat :: x < |marked| ==> (marked[x] <==> marked0[x] || x in successors)
    ensures forall x: nat :: x in pending <==> x in pending0 || (x in successors && x < |marked0| && !marked0[x])
    ensures |pending0| <= |pending| && pending[..|pending0|] == pending0
    ensures forall i, j :: |pending0| <= i < j < |pending| ==> pending[i] != pending[j]
    ensures forall i :: |pending0| <= i < |pending| ==> pending[i] in successors && !marked0[pending[i]]
    ensures Unmarked(marked) <= Unmarked(marked0)
    ensures Unmarked(marked) == Unmarked(marked0) ==> pending == pending0
  {
    marked, pending := marked0, pending0;
    for k := 0 to |successors|
      invariant |marked| == |marked0|
      invariant forall x: nat :: x < |marked| ==> (marked[x] <==> marked0[x] || x in successors[..k])
      invariant forall x: nat :: x in pending <==> x in pending0 || (x in successors[..k] && x < |marked0| && !marked0[x])
      invariant marked == marked0 ==> pending == pending0
      invariant |pending0| <= |pending| && pending[..|pending0|] == pending0
      invariant forall i, j :: |pending0| <= i < j < |pending| ==> pending[i] != pending[j]
      invariant forall i :: |pending0| <= i < |pending| ==>
                  pending[i] in successors && pending[i] < |marked0| && !marked0[pending[i]] && marked[pending[i]]
    {
      var next := successors[k];
      assert successors[..k + 1] == successors[..k] + [next];
      if !marked[next] {
        marked := marked[next := true];
        pending := pending + [next];
        assert !marked0[next] && marked[next];
      }
    }
    assert successors[..|successors|] == successors;
    assert Unmarked(marked) == Unmarked(marked0) ==> marked == marked0 by {
      if Unmarked(marked) == Unmarked(marked0) {
        forall x: nat | x < |marked| ensures marked[x] == marked0[x] {
          assert x in Unmarked(marked) <==> x in Unmarked(marked0);
        }
      }
    }
  }

  lemma ExploreStep(E: set<(nat, nat)>, adjacency: seq<seq<nat>>, start: set<nat>, marked0: seq<bool>, rest: seq<nat>, current: nat,
                    marked: seq<bool>, pending: seq<nat>)
    requires InBounds(adjacency) && E == Arcs(adjacency) && current < |marked0| == |adjacency| == |marked|
    requires Exploring(E, start, marked0, rest + [current])
    requires forall x: nat :: x < |marked| ==> (marked[x] <==> marked0[x] || x in adjacency[current])
    requires forall x: nat :: x in pending <==> x in rest || (x in adjacency[current] && x < |marked0| && !marked0[x])
    ensures Exploring(E, start, marked, pending)
  {
    hide Reach;
    assert (rest + [current])[|rest|] == current;
    forall v: nat | v < |marked| && marked[v] ensures ReachedFrom(E, start, v) {
      if !marked0[v] {
        var r: nat :| r in start && Reach(E, r, current);
        ReachArc(E, current, v);
        ReachTrans(E, r, current, v);
      }
    }
    forall x: nat, y: nat | x < |marked| && marked[x] && x !in pending && (x, y) in E ensures marked[y] {
      if x != current {
        assert x !in rest + [current];
      }
    }
    forall i | 0 <= i < |pending| ensures pending[i] < |marked| && marked[pending[i]] {
      assert pending[i] in pending;
      if pending[i] in rest {
        var j :| 0 <= j < |rest| && rest[j] == pending[i];
        assert (rest + [current])[j] == pending[i];
      }
    }
  }

  /** Empties the stack of pending nodes. */
  method Drain(adjacency: seq<seq<nat>>, ghost start: set<nat>, marked0: seq<bool>, pending0: seq<nat>)
    returns (marked: seq<bool>)
    requires InBounds(adjacency) && |marked0| == |adjacency|
    requires Exploring(Arcs(adjacency), start, marked0, pending0)
    ensures |marked| == |marked0| && Exploring(Arcs(adjacency), start, marked, [])
    ensures forall x: nat :: x < |marked| && marked0[x] ==> marked[x]
  {
    hide Reach, ReachedFrom;
    marked := marked0;
    var pending := pending0;
    while pending != []
      invariant |marked| == |marked0|
      invariant Exploring(Arcs(adjacency), start, marked, pending)
      invariant forall x: nat :: x < |marked| && marked0[x] ==> marked[x]
      decreases Unmarked(marked), |pending|
    {
      var current := pending[|pending| - 1];
      var rest := pending[..|pending| - 1];
      assert pending == rest + [current];
      forall k | 0 <= k < |adjacency[current]| ensures adjacency[current][k] < |marked| {
        assert adjacency[current][k] in adjacency[current];
      }
      ghost var before := marked;
      marked, pending := MarkSuccessors(adjacency[current], marked, rest);
      ExploreStep(Arcs(adjacency), adjacency, start, before, rest, current, marked, pending);
    }
  }

  /** Marks exactly what can be reached from the starting nodes. */
  method Traverse(adjacency: seq<seq<nat>>, start: seq<nat>) returns (marked: seq<bool>)
    requires InBounds(adjacency) && forall i :: 0 <= i < |start| ==> start[i] < |adjacency|
    ensures |marked| == |adjacency|
    ensures forall v: nat :: v < |marked| ==>
              (marked[v] <==> ReachedFrom(Arcs(adjacency), set i | 0 <= i < |start| :: start[i], v))
  {
    hide Reach;
    ghost var E, nodes := Arcs(adjacency), set i | 0 <= i < |start| :: start[i];
    var none := seq(|adjacency|, _ => false);
    var pending;
    marked, pending := MarkSuccessors(start, none, []);
    forall v: nat | v < |marked| && marked[v] ensures ReachedFrom(E, nodes, v) {
      ReachRefl(E, v);
      assert v in nodes;
    }
    forall i | 0 <= i < |pending| ensures pending[i] < |marked| && marked[pending[i]] {
      assert pending[i] in pending;
    }
    assert Exploring(E, nodes, marked, pending);
    forall r: nat | r in nodes ensures r < |marked| && marked[r] {}
    marked := Drain(adjacency, nodes, marked, pending);
    Explored(E, nodes, marked);
  }
}
