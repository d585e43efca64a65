/** The recursive search itself, over mutable vectors. */
module TarjanRun {
  import opened Digraph
  import opened Orders
  import opened Tarjan

  class Search {
    const adjacency: seq<seq<nat>>
    const candidate: seq<bool>
    /** How the members of one component are ordered. */
    const memberLess: (nat, nat) -> bool

    var index: seq<int>
    var low: seq<int>
    var onStack: seq<bool>
    var stack: seq<nat>
    var next: nat
    var sccs: seq<seq<nat>>

    ghost function Snapshot(): State
      reads this
    {
      State(index, low, onStack, stack, next, sccs)
    }

    ghost function Arcs(): set<(nat, nat)>
      requires WellFormed(adjacency, candidate)
    {
      CandidateArcs(adjacency, candidate)
    }

    ghost predicate Valid(gray: set<nat>)
      reads this
    {
      WellFormed(adjacency, candidate) && Inv(Snapshot(), Arcs(), candidate, gray)
    }

    /** The members of every component found are in order. */
    ghost predicate Ordered()
      reads this`sccs
    {
      forall k :: 0 <= k < |sccs| ==> SortedBy(memberLess, sccs[k])
    }

    constructor (adjacency: seq<seq<nat>>, candidate: seq<bool>, memberLess: (nat, nat) -> bool)
      requires WellFormed(adjacency, candidate)
      ensures Valid({})
      ensures this.adjacency == adjacency && this.candidate == candidate && this.memberLess == memberLess
      ensures sccs == [] && stack == []
    {
      this.adjacency := adjacency;
      this.candidate := candidate;
      this.memberLess := memberLess;
      index := seq(|adjacency|, _ => -1);
      low := seq(|adjacency|, _ => -1);
      onStack := seq(|adjacency|, _ => false);
      stack := [];
      next := 0;
      sccs := [];
    }

    /** Pops the stack down to and including v. */
    method PopComponent(v: nat, ghost p: nat) returns (component: seq<nat>)
      requires p < |stack| && stack[p] == v && Distinct(stack)
      requires forall i :: 0 <= i < |stack| ==> stack[i] < |onStack|
      modifies this`stack, this`onStack
      ensures stack == old(stack)[..p]
      ensures |onStack| == old(|onStack|)
      ensures forall x: nat :: x < |onStack| ==>
                onStack[x] == (old(onStack)[x] && x !in old(stack)[p..])
      ensures Distinct(component) && forall x: nat :: x in component <==> x in old(stack)[p..]
    {
      component := [];
      ghost var all := stack;
      var found := false;
      while !found
        invariant p <= |stack| <= |all| && stack == all[..|stack|]
        invariant found <==> |stack| == p
        invariant |component| == |all| - |stack|
        invariant forall i :: 0 <= i < |component| ==> component[i] == all[|all| - 1 - i]
        invariant |onStack| == old(|onStack|)
        invariant forall x: nat :: x < |onStack| ==>
                    onStack[x] == (old(onStack)[x] && x !in all[|stack|..])
        decreases |stack|
      {
        var member := stack[|stack| - 1];
        assert all[|stack| - 1..] == [member] + all[|stack|..];
        stack := stack[..|stack| - 1];
        onStack := onStack[member := false];
        component := component + [member];
        if member == v {
          found := true;
          assert |stack| == p;
        }
      }
      ReversedTail(all, p, component);
    }

    /** The last step of a call: if v is the root of a component, the component is taken off the
        stack and recorded in its canonical order. */
    method Leave(v: nat, ghost gray: set<nat>, ghost s0: State, ghost successors: seq<nat>)
      requires WellFormed(adjacency, candidate)
      requires Scanning(s0, Snapshot(), Arcs(), candidate, gray, v, successors, |successors|)
      requires Scanned(Arcs(), candidate, v, successors)
      requires forall g: nat :: g in gray ==> g in s0.stack && Reach(Arcs(), g, v)
      requires StrictWeak(memberLess) && Ordered()
      modifies this`stack, this`onStack, this`sccs
      ensures Ordered()
      ensures CallDone(s0, Snapshot(), Arcs(), candidate, gray, v)
    {
      hide Reach, Colours, StackReach, Components, Attained, NoEscape, IsScc, SortedBy, StrictWeak;
      ghost var s := Snapshot();
      if low[v] == index[v] {
        var component := PopComponent(v, |s0.stack|);
        var sorted := Sort(memberLess, component);
        SortDistinct(memberLess, component);
        SortMembers(memberLess, component);
        SortIsSorted(memberLess, component);
        sccs := sccs + [sorted];
        FinishRoot(s0, s, Snapshot(), Arcs(), candidate, gray, v, successors, sorted);
      } else {
        FinishStay(s0, s, Arcs(), candidate, gray, v, successors);
      }
    }

    method StrongConnect(v: nat, ghost gray: set<nat>)
      requires Valid(gray) && v < |candidate| && candidate[v] && index[v] == -1
      requires forall g: nat :: g in gray ==> Reach(Arcs(), g, v)
      requires StrictWeak(memberLess) && Ordered()
      modifies this
      ensures Valid(gray) && Ordered()
      ensures CallDone(old(Snapshot()), Snapshot(), Arcs(), candidate, gray, v)
      ensures Unvisited(Snapshot()) < old(Unvisited(Snapshot()))
      decreases Unvisited(Snapshot())
    {
      hide Reach, Colours, StackReach, Components, Attained, NoEscape, IsScc, CandidateArcs, Scanned, SuccessorDone, SortedBy, StrictWeak;
      ghost var s0, E := Snapshot(), Arcs();
      ghost var successors := adjacency[v];
      ArcsOf(adjacency, candidate, v);
      GrayOnStack(s0, E, candidate, gray);
      ScanStart(s0, E, candidate, gray, v, successors);
      PushShape(s0, |candidate|, v);
      index := index[v := next];
      low := low[v := next];
      next := next + 1;
      stack := stack + [v];
      onStack := onStack[v := true];
      assert Snapshot() == Push(s0, v);

      for k := 0 to |adjacency[v]|
        invariant Scanning(s0, Snapshot(), E, candidate, gray, v, successors, k) && Ordered()
        invariant Unvisited(Snapshot()) < Unvisited(s0)
      {
        var w := adjacency[v][k];
        if candidate[w] {
          if index[w] == -1 {
            ghost var s := Snapshot();
            GrayReachSuccessor(s, E, candidate, gray, v, w);
            StrongConnect(w, gray + {v});
            ScanAfterCall(s0, s, Snapshot(), E, candidate, gray, v, successors, k);
            low := low[v := if low[v] <= low[w] then low[v] else low[w]];
          } else if onStack[w] {
            ScanOnStack(s0, Snapshot(), E, candidate, gray, v, successors, k);
            low := low[v := if low[v] <= index[w] then low[v] else index[w]];
          } else {
            ScanSkip(s0, Snapshot(), E, candidate, gray, v, successors, k);
          }
        } else {
          ScanSkip(s0, Snapshot(), E, candidate, gray, v, successors, k);
        }
      }

      Leave(v, gray, s0, successors);
    }

    /** Visits every candidate. The components found are exactly the classes of mutually
        reachable candidates: each candidate is in one, and no component repeats a member. */
    method Run()
      requires Valid({}) && stack == [] && StrictWeak(memberLess) && Ordered()
      modifies this
      ensures Valid({}) && stack == [] && Ordered()
      ensures IsSccPartition(Arcs(), candidate, sccs)
    {
      hide Reach, Colours, StackReach, Components, Attained, NoEscape, IsScc;
      for id := 0 to |candidate|
        invariant Valid({}) && stack == [] && Ordered()
        invariant forall x: nat :: x < id && candidate[x] ==> index[x] != -1
      {
        if candidate[id] && index[id] == -1 {
          ghost var s := Snapshot();
          StrongConnect(id, {});
          CallFromEmptyStack(s, Snapshot(), Arcs(), candidate, id);
        }
      }
      PartitionFromInv(Snapshot(), Arcs(), candidate);
    }
  }
}
