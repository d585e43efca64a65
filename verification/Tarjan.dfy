/** Tarjan's algorithm on the subgraph induced by the candidate symbols. */
module Tarjan {
  import opened Digraph
  import opened Orders

  ghost predicate WellFormed(adjacency: seq<seq<nat>>, candidate: seq<bool>) {
    && |candidate| == |adjacency|
    && forall x: nat, y: nat :: 0 <= x < |adjacency| && y in adjacency[x] ==> y < |adjacency|
  }

  /** The arcs that the algorithm follows: between candidates only. */
  ghost function CandidateArcs(adjacency: seq<seq<nat>>, candidate: seq<bool>): set<(nat, nat)>
    requires WellFormed(adjacency, candidate)
  {
    set x: nat, y: nat | 0 <= x < |adjacency| && 0 <= y < |adjacency| && y in adjacency[x]
               && candidate[x] && candidate[y] :: (x, y)
  }

  /** c lists, without repetition, the nodes that are mutually reachable with one of its members. */
  ghost predicate IsScc(E: set<(nat, nat)>, c: seq<nat>) {
    && c != []
    && Distinct(c)
    && forall x: nat, y: nat :: x in c ==> (y in c <==> Reach(E, x, y) && Reach(E, y, x))
  }

  /** A snapshot of the algorithm's variables; `gray` are the calls in progress. */
  datatype State = State(
    index: seq<int>,
    low: seq<int>,
    onStack: seq<bool>,
    stack: seq<nat>,
    next: nat,
    sccs: seq<seq<nat>>)

  ghost predicate Shape(s: State, n: nat) {
    && |s.index| == n && |s.low| == n && |s.onStack| == n
    && (forall x: nat :: 0 <= x < n ==> -1 <= s.index[x] < s.next)
    && (forall i :: 0 <= i < |s.stack| ==> s.stack[i] < n && s.index[s.stack[i]] != -1)
    && (forall i, j :: 0 <= i < j < |s.stack| ==> s.index[s.stack[i]] < s.index[s.stack[j]])
    && (forall x: nat :: 0 <= x < n ==> (s.onStack[x] <==> x in s.stack))
  }

  ghost predicate Visited(s: State, x: nat) {
    x < |s.index| && s.index[x] != -1
  }

  ghost predicate InComponent(s: State, x: nat) {
    exists k :: 0 <= k < |s.sccs| && x in s.sccs[k]
  }

  ghost predicate Colours(s: State, E: set<(nat, nat)>, candidate: seq<bool>, gray: set<nat>)
    requires Shape(s, |candidate|)
  {
    && (forall x: nat :: x in gray ==> x in s.stack)
    && (forall x: nat :: Visited(s, x) ==> candidate[x])
    && (forall x: nat :: InComponent(s, x) <==> Visited(s, x) && x !in s.stack)
    && (forall x: nat, y: nat :: Visited(s, x) && x !in gray && (x, y) in E ==> Visited(s, y))
  }

  ghost predicate StackReach(s: State, E: set<(nat, nat)>, gray: set<nat>)
    requires Shape(s, |s.index|)
  {
    && (forall i, j :: 0 <= i <= j < |s.stack| ==> Reach(E, s.stack[i], s.stack[j]))
    && (forall x: nat :: x in s.stack ==> ReachesGray(s, E, gray, x))
  }

  ghost predicate ReachesGray(s: State, E: set<(nat, nat)>, gray: set<nat>, x: nat)
    requires x < |s.index|
  {
    exists g: nat :: g in gray && g < |s.index| && s.index[g] <= s.index[x] && Reach(E, x, g)
  }

  ghost predicate Components(s: State, E: set<(nat, nat)>) {
    && (forall k :: 0 <= k < |s.sccs| ==> IsScc(E, s.sccs[k]))
    && (forall k, l, x: nat :: 0 <= k < l < |s.sccs| && x in s.sccs[k] ==> x !in s.sccs[l])
  }

  ghost predicate Inv(s: State, E: set<(nat, nat)>, candidate: seq<bool>, gray: set<nat>) {
    && Shape(s, |candidate|)
    && Colours(s, E, candidate, gray)
    && StackReach(s, E, gray)
    && Components(s, E)
  }

  /** What a call leaves alone: the old stack is a prefix of the new one, and nothing recorded
      about a visited node or a finished component changes. */
  ghost predicate Extends(s: State, t: State) {
    && |t.index| == |s.index| && |t.low| == |s.low| && |s.low| == |s.index|
    && |s.stack| <= |t.stack| && t.stack[..|s.stack|] == s.stack
    && s.next <= t.next
    && (forall x: nat :: 0 <= x < |s.index| && s.index[x] != -1 ==>
          t.index[x] == s.index[x] && t.low[x] == s.low[x])
    && |s.sccs| <= |t.sccs| && t.sccs[..|s.sccs|] == s.sccs
  }

  /** No arc from the nodes pushed above position p reaches below index value n. */
  ghost predicate NoEscape(s: State, t: State, E: set<(nat, nat)>, p: nat, n: int)
    requires Extends(s, t)
  {
    forall i, y: nat :: p <= i < |t.stack| && y in s.stack && (t.stack[i], y) in E && y < |t.index| ==>
      n <= t.index[y]
  }

  /** Some node on the stack, reachable from v, has index value n. */
  ghost predicate Attained(t: State, E: set<(nat, nat)>, v: nat, n: int)
  {
    exists y: nat :: y in t.stack && y < |t.index| && t.index[y] == n && Reach(E, v, y)
  }

  ghost function Unvisited(s: State): set<nat> {
    set x: nat | 0 <= x < |s.index| && s.index[x] == -1
  }

  // ---- entering a node

  function Push(s: State, v: nat): State
    requires v < |s.index| && |s.low| == |s.onStack| == |s.index|
  {
    State(s.index[v := s.next], s.low[v := s.next], s.onStack[v := true], s.stack + [v], s.next + 1, s.sccs)
  }

  lemma PushShape(s: State, n: nat, v: nat)
    requires Shape(s, n) && v < n && s.index[v] == -1
    ensures Shape(Push(s, v), n) && Extends(s, Push(s, v))
    ensures Unvisited(Push(s, v)) == Unvisited(s) - {v} && v in Unvisited(s)
  {
    hide Reach;
    var t := Push(s, v);
    assert v !in s.stack;
    forall i, j | 0 <= i < j < |t.stack| ensures t.index[t.stack[i]] < t.index[t.stack[j]] {
      assert t.stack[i] == s.stack[i];
      if j < |s.stack| { assert t.stack[j] == s.stack[j]; }
    }
    forall x: nat | 0 <= x < n ensures t.onStack[x] <==> x in t.stack {
      assert x in t.stack <==> x in s.stack || x == v;
    }
  }

  lemma PushColours(s: State, E: set<(nat, nat)>, candidate: seq<bool>, gray: set<nat>, v: nat)
    requires Inv(s, E, candidate, gray) && v < |candidate| && candidate[v] && s.index[v] == -1
    requires Shape(Push(s, v), |candidate|)
    ensures Colours(Push(s, v), E, candidate, gray + {v})
  {
    hide Reach;
    var t := Push(s, v);
    assert forall x: nat :: x in t.stack <==> x in s.stack || x == v;
    assert forall x: nat :: Visited(t, x) <==> Visited(s, x) || x == v;
    assert forall x: nat :: InComponent(t, x) <==> InComponent(s, x);
  }

  /** Whatever every gray node reaches, every node on the stack reaches. */
  lemma StackReaches(s: State, E: set<(nat, nat)>, gray: set<nat>, x: nat, v: nat)
    requires x < |s.index| && ReachesGray(s, E, gray, x)
    requires forall g: nat :: g in gray ==> Reach(E, g, v)
    ensures Reach(E, x, v)
  {
    hide Reach;
    var g: nat :| g in gray && g < |s.index| && s.index[g] <= s.index[x] && Reach(E, x, g);
    ReachTrans(E, x, g, v);
  }

  lemma ReachesGrayMono(s: State, t: State, E: set<(nat, nat)>, gray: set<nat>, more: set<nat>, x: nat)
    requires |t.index| == |s.index| && x < |s.index| && ReachesGray(s, E, gray, x) && gray <= more
    requires t.index[x] == s.index[x]
    requires forall g: nat :: g in gray && g < |s.index| ==> t.index[g] == s.index[g]
    ensures ReachesGray(t, E, more, x)
  {
    hide Reach;
    var g: nat :| g in gray && g < |s.index| && s.index[g] <= s.index[x] && Reach(E, x, g);
    assert g in more && t.index[g] <= t.index[x];
  }

  lemma PushReachesGray(s: State, E: set<(nat, nat)>, gray: set<nat>, v: nat, x: nat)
    requires v < |s.index| && |s.low| == |s.onStack| == |s.index| && v !in gray
    requires x < |s.index| && (x == v || ReachesGray(s, E, gray, x))
    ensures ReachesGray(Push(s, v), E, gray + {v}, x)
  {
    hide Reach;
    var t := Push(s, v);
    if x == v {
      ReachRefl(E, v);
      assert v in gray + {v};
    } else {
      ReachesGrayMono(s, t, E, gray, gray + {v}, x);
    }
  }

  lemma PushPaths(s: State, E: set<(nat, nat)>, gray: set<nat>, v: nat)
    requires Shape(s, |s.index|) && StackReach(s, E, gray) && v < |s.index|
    requires forall g: nat :: g in gray ==> Reach(E, g, v)
    ensures var stack := s.stack + [v];
            forall i, j :: 0 <= i <= j < |stack| ==> Reach(E, stack[i], stack[j])
  {
    hide Reach;
    var stack := s.stack + [v];
    ReachRefl(E, v);
    forall i, j | 0 <= i <= j < |stack| ensures Reach(E, stack[i], stack[j]) {
      if j < |s.stack| {
        assert stack[i] == s.stack[i] && stack[j] == s.stack[j];
      } else if i < |s.stack| {
        assert stack[i] == s.stack[i];
        StackReaches(s, E, gray, s.stack[i], v);
      }
    }
  }

  lemma PushStackReach(s: State, E: set<(nat, nat)>, candidate: seq<bool>, gray: set<nat>, v: nat)
    requires Inv(s, E, candidate, gray) && v < |candidate| && s.index[v] == -1
    requires forall g: nat :: g in gray ==> Reach(E, g, v)
    requires Shape(Push(s, v), |candidate|)
    ensures StackReach(Push(s, v), E, gray + {v})
  {
    hide Reach, Components, ReachesGray;
    var t := Push(s, v);
    assert v !in gray;
    forall x: nat | x in t.stack ensures ReachesGray(t, E, gray + {v}, x) {
      assert x == v || x in s.stack;
      PushReachesGray(s, E, gray, v, x);
    }
    PushPaths(s, E, gray, v);
  }

  lemma PushInv(s: State, E: set<(nat, nat)>, candidate: seq<bool>, gray: set<nat>, v: nat)
    requires Inv(s, E, candidate, gray) && v < |candidate| && candidate[v] && s.index[v] == -1
    requires forall g: nat :: g in gray ==> Reach(E, g, v)
    ensures Inv(Push(s, v), E, candidate, gray + {v})
  {
    hide Reach, Shape, Colours, StackReach, IsScc;
    PushShape(s, |candidate|, v);
    PushColours(s, E, candidate, gray, v);
    PushStackReach(s, E, candidate, gray, v);
  }

  // ---- visiting the successors of v

  /** What holds after the first k successors of v, starting from the state s0 in which v was
      not yet visited. */
  ghost predicate Scanning(
    s0: State, s: State, E: set<(nat, nat)>, candidate: seq<bool>, gray: set<nat>,
    v: nat, successors: seq<nat>, k: nat)
  {
    && Shape(s0, |candidate|)
    && Inv(s, E, candidate, gray + {v})
    && Extends(s0, s)
    && v < |candidate| && s0.index[v] == -1 && s.index[v] == s0.next
    && |s0.stack| < |s.stack| && s.stack[|s0.stack|] == v
    && s.low[v] <= s.index[v]
    && Attained(s, E, v, s.low[v])
    && NoEscape(s0, s, E, |s0.stack| + 1, s.low[v])
    && k <= |successors|
    && (forall j :: 0 <= j < k && successors[j] < |candidate| && candidate[successors[j]] ==>
          SuccessorDone(s0, s, v, successors[j]))
  }

  ghost predicate SuccessorDone(s0: State, s: State, v: nat, w: nat) {
    && v < |s.low|
    && Visited(s, w)
    && (w in s0.stack ==> s.low[v] <= s.index[w])
  }

  /** What a call for w promises. */
  ghost predicate CallDone(s: State, t: State, E: set<(nat, nat)>, candidate: seq<bool>, gray: set<nat>, w: nat) {
    && Shape(s, |candidate|)
    && Inv(t, E, candidate, gray)
    && Extends(s, t)
    && w < |candidate| && s.index[w] == -1 && t.index[w] == s.next
    && t.low[w] <= t.index[w]
    && (w in t.stack ==> Attained(t, E, w, t.low[w]))
    && (w !in t.stack ==> t.low[w] == t.index[w])
    && NoEscape(s, t, E, |s.stack|, t.low[w])
  }

  lemma ExtendsTrans(s: State, t: State, u: State)
    requires Extends(s, t) && Extends(t, u)
    ensures Extends(s, u)
  {
    assert u.stack[..|s.stack|] == u.stack[..|t.stack|][..|s.stack|] == s.stack;
    assert u.sccs[..|s.sccs|] == u.sccs[..|t.sccs|][..|s.sccs|] == s.sccs;
  }

  /** Entering v establishes the scanning invariant. */
  lemma ScanStart(s0: State, E: set<(nat, nat)>, candidate: seq<bool>, gray: set<nat>, v: nat, successors: seq<nat>)
    requires Inv(s0, E, candidate, gray) && v < |candidate| && candidate[v] && s0.index[v] == -1
    requires forall g: nat :: g in gray ==> Reach(E, g, v)
    ensures Scanning(s0, Push(s0, v), E, candidate, gray, v, successors, 0)
  {
    hide Reach, Colours, StackReach, Components;
    var t := Push(s0, v);
    PushShape(s0, |candidate|, v);
    PushInv(s0, E, candidate, gray, v);
    ReachRefl(E, v);
    assert v in t.stack by { assert t.stack[|s0.stack|] == v; }
    assert Attained(t, E, v, t.low[v]);
  }

  /** A successor that was visited before and is still on the stack. */
  lemma ScanOnStack(s0: State, s: State, E: set<(nat, nat)>, candidate: seq<bool>, gray: set<nat>,
                    v: nat, successors: seq<nat>, k: nat)
    requires Scanning(s0, s, E, candidate, gray, v, successors, k)
    requires k < |successors| && successors[k] < |candidate| && (v, successors[k]) in E
    requires s.onStack[successors[k]]
    ensures var w := successors[k];
            var low := if s.low[v] <= s.index[w] then s.low[v] else s.index[w];
            Scanning(s0, s.(low := s.low[v := low]), E, candidate, gray, v, successors, k + 1)
  {
    hide Reach, Colours, StackReach, Components, NoEscape;
    var w := successors[k];
    var low := if s.low[v] <= s.index[w] then s.low[v] else s.index[w];
    var t := s.(low := s.low[v := low]);
    InvIgnoresLow(s, t, E, candidate, gray + {v});
    ReachArc(E, v, w);
    AttainedSame(s, t, E, v, s.low[v]);
    assert w in s.stack;
    assert s.index[w] == low ==> Attained(t, E, v, low);
    NoEscapeLower(s0, s, t, E, |s0.stack| + 1, s.low[v], low);
    forall j | 0 <= j < k + 1 && successors[j] < |candidate| && candidate[successors[j]]
      ensures SuccessorDone(s0, t, v, successors[j])
    {
      if j < k { assert SuccessorDone(s0, s, v, successors[j]); }
    }
  }

  lemma InvIgnoresLow(s: State, t: State, E: set<(nat, nat)>, candidate: seq<bool>, gray: set<nat>)
    requires Inv(s, E, candidate, gray) && t == s.(low := t.low) && |t.low| == |s.low|
    ensures Inv(t, E, candidate, gray)
  {
    hide Reach, ReachesGray, IsScc;
    assert Colours(t, E, candidate, gray) by {
      assert forall x: nat :: InComponent(t, x) <==> InComponent(s, x);
      assert forall x: nat :: Visited(t, x) <==> Visited(s, x);
    }
    assert StackReach(t, E, gray) by {
      forall x: nat | x in t.stack ensures ReachesGray(t, E, gray, x) {
        ReachesGrayMono(s, t, E, gray, gray, x);
      }
    }
  }

  lemma AttainedSame(s: State, t: State, E: set<(nat, nat)>, v: nat, n: int)
    requires t.stack == s.stack && t.index == s.index && Attained(s, E, v, n)
    ensures Attained(t, E, v, n)
  {
    hide Reach;
  }

  lemma NoEscapeLower(s0: State, s: State, t: State, E: set<(nat, nat)>, p: nat, n: int, m: int)
    requires Extends(s0, s) && Extends(s0, t) && t.stack == s.stack && t.index == s.index
    requires NoEscape(s0, s, E, p, n) && m <= n
    ensures NoEscape(s0, t, E, p, m)
  {
    hide Reach;
  }

  /** A successor that needs no work: not a candidate, or already in a finished component. */
  lemma ScanSkip(s0: State, s: State, E: set<(nat, nat)>, candidate: seq<bool>, gray: set<nat>,
                 v: nat, successors: seq<nat>, k: nat)
    requires Scanning(s0, s, E, candidate, gray, v, successors, k)
    requires k < |successors| && successors[k] < |candidate|
    requires candidate[successors[k]] ==> s.index[successors[k]] != -1 && !s.onStack[successors[k]]
    ensures Scanning(s0, s, E, candidate, gray, v, successors, k + 1)
  {
    hide Reach, Colours, StackReach, Components, NoEscape, Attained;
    var w := successors[k];
    if candidate[w] {
      assert w !in s.stack;
      assert w in s0.stack ==> w in s.stack by {
        if w in s0.stack { StackKept(s0, s, w); }
      }
    }
  }

  lemma StackKept(s: State, t: State, x: nat)
    requires Extends(s, t) && x in s.stack
    ensures x in t.stack
  {
    var i :| 0 <= i < |s.stack| && s.stack[i] == x;
    assert t.stack[..|s.stack|][i] == x;
  }

  lemma AttainedKept(s: State, t: State, E: set<(nat, nat)>, v: nat, n: int)
    requires Extends(s, t) && Shape(s, |s.index|) && Attained(s, E, v, n)
    ensures Attained(t, E, v, n)
  {
    hide Reach;
    var y: nat :| y in s.stack && y < |s.index| && s.index[y] == n && Reach(E, v, y);
    StackKept(s, t, y);
    assert t.index[y] == n;
  }

  lemma AttainedStep(t: State, E: set<(nat, nat)>, v: nat, w: nat, n: int)
    requires (v, w) in E && Attained(t, E, w, n)
    ensures Attained(t, E, v, n)
  {
    hide Reach;
    var y: nat :| y in t.stack && y < |t.index| && t.index[y] == n && Reach(E, w, y);
    ReachStep(E, v, w, y);
  }

  lemma NoEscapeCall(s0: State, s: State, t: State, E: set<(nat, nat)>, p: nat, m: int, n: int)
    requires Shape(s0, |s0.index|) && Shape(s, |s0.index|) && Extends(s0, s) && Extends(s, t) && Extends(s0, t)
    requires NoEscape(s0, s, E, p, m) && NoEscape(s, t, E, |s.stack|, n)
    ensures NoEscape(s0, t, E, p, if m <= n then m else n)
  {
    forall i, y: nat | p <= i < |t.stack| && y in s0.stack && (t.stack[i], y) in E && y < |t.index|
      ensures (if m <= n then m else n) <= t.index[y]
    {
      StackKept(s0, s, y);
      assert s.index[y] == t.index[y];
      if i < |s.stack| {
        assert t.stack[..|s.stack|][i] == s.stack[i];
      }
    }
  }

  /** A successor that was visited by a recursive call. */
  lemma ScanAfterCall(s0: State, s: State, t: State, E: set<(nat, nat)>, candidate: seq<bool>, gray: set<nat>,
                      v: nat, successors: seq<nat>, k: nat)
    requires Scanning(s0, s, E, candidate, gray, v, successors, k)
    requires k < |successors| && successors[k] < |candidate| && (v, successors[k]) in E
    requires CallDone(s, t, E, candidate, gray + {v}, successors[k])
    ensures var w := successors[k];
            var low := if t.low[v] <= t.low[w] then t.low[v] else t.low[w];
            Scanning(s0, t.(low := t.low[v := low]), E, candidate, gray, v, successors, k + 1)
  {
    hide Reach, Colours, StackReach, Components, NoEscape, Attained, IsScc;
    var w := successors[k];
    var low := if t.low[v] <= t.low[w] then t.low[v] else t.low[w];
    var u := t.(low := t.low[v := low]);
    InvIgnoresLow(t, u, E, candidate, gray + {v});
    ExtendsTrans(s0, s, t);
    assert t.low[v] == s.low[v] && t.index[v] == s.index[v];
    assert t.stack[|s0.stack|] == v by { assert t.stack[..|s.stack|][|s0.stack|] == v; }
    NoEscapeCall(s0, s, t, E, |s0.stack| + 1, s.low[v], t.low[w]);
    NoEscapeLower(s0, t, u, E, |s0.stack| + 1, low, low);
    if low == s.low[v] {
      AttainedKept(s, t, E, v, low);
    } else {
      assert w in t.stack;
      AttainedStep(t, E, v, w, low);
    }
    AttainedSame(t, u, E, v, low);
    forall j | 0 <= j < k + 1 && successors[j] < |candidate| && candidate[successors[j]]
      ensures SuccessorDone(s0, u, v, successors[j])
    {
      if j < k { assert SuccessorDone(s0, s, v, successors[j]); }
    }
  }

  // ---- leaving a node

  /** Every arc of v has been looked at. */
  ghost predicate Scanned(E: set<(nat, nat)>, candidate: seq<bool>, v: nat, successors: seq<nat>) {
    forall y: nat :: (v, y) in E ==> y in successors && y < |candidate| && candidate[y]
  }

  lemma ScannedVisited(s0: State, s: State, E: set<(nat, nat)>, candidate: seq<bool>, gray: set<nat>,
                       v: nat, successors: seq<nat>, y: nat)
    requires Scanning(s0, s, E, candidate, gray, v, successors, |successors|)
    requires Scanned(E, candidate, v, successors) && (v, y) in E
    ensures Visited(s, y) && (y in s0.stack ==> s.low[v] <= s.index[y])
  {
    hide Reach, Colours, StackReach, Components, NoEscape, Attained;
    var j :| 0 <= j < |successors| && successors[j] == y;
    assert SuccessorDone(s0, s, v, successors[j]);
  }

  lemma BlackColours(s0: State, s: State, E: set<(nat, nat)>, candidate: seq<bool>, gray: set<nat>,
                     v: nat, successors: seq<nat>)
    requires Scanning(s0, s, E, candidate, gray, v, successors, |successors|)
    requires Scanned(E, candidate, v, successors)
    ensures Colours(s, E, candidate, gray)
  {
    hide Reach, Shape, StackReach, Components, NoEscape, Attained, InComponent;
    forall x: nat, y: nat | Visited(s, x) && x !in gray && (x, y) in E ensures Visited(s, y) {
      if x == v {
        ScannedVisited(s0, s, E, candidate, gray, v, successors, y);
      } else {
        assert x !in gray + {v};
      }
    }
  }

  // ---- leaving a node that stays on the stack

  lemma GrayBelow(s: State, E: set<(nat, nat)>, candidate: seq<bool>, gray: set<nat>, v: nat)
    requires Shape(s, |candidate|) && StackReach(s, E, gray + {v})
    requires v < |candidate| == |s.low| && s.low[v] < s.index[v] && Attained(s, E, v, s.low[v])
    ensures ReachesGray(s, E, gray, v)
  {
    hide Reach;
    var y: nat :| y in s.stack && y < |s.index| && s.index[y] == s.low[v] && Reach(E, v, y);
    assert ReachesGray(s, E, gray + {v}, y);
    var g: nat :| g in gray + {v} && g < |s.index| && s.index[g] <= s.index[y] && Reach(E, y, g);
    assert g in gray;
    ReachTrans(E, v, y, g);
  }

  lemma DropGray(s: State, E: set<(nat, nat)>, candidate: seq<bool>, gray: set<nat>, v: nat)
    requires Shape(s, |candidate|) && StackReach(s, E, gray + {v})
    requires v < |candidate| == |s.low| && s.low[v] < s.index[v] && Attained(s, E, v, s.low[v])
    ensures StackReach(s, E, gray)
  {
    hide Reach, Attained;
    GrayBelow(s, E, candidate, gray, v);
    forall x: nat | x in s.stack ensures ReachesGray(s, E, gray, x) {
      assert ReachesGray(s, E, gray + {v}, x);
      var g: nat :| g in gray + {v} && g < |s.index| && s.index[g] <= s.index[x] && Reach(E, x, g);
      if g == v {
        var h: nat :| h in gray && h < |s.index| && s.index[h] <= s.index[v] && Reach(E, v, h);
        ReachTrans(E, x, v, h);
      } else {
        assert g in gray;
      }
    }
  }

  lemma NoEscapeOwn(s0: State, s: State, E: set<(nat, nat)>, candidate: seq<bool>, gray: set<nat>,
                    v: nat, successors: seq<nat>)
    requires Scanning(s0, s, E, candidate, gray, v, successors, |successors|)
    requires Scanned(E, candidate, v, successors)
    ensures NoEscape(s0, s, E, |s0.stack|, s.low[v])
  {
    hide Reach, Colours, StackReach, Components, Attained;
    forall i, y: nat | |s0.stack| <= i < |s.stack| && y in s0.stack && (s.stack[i], y) in E && y < |s.index|
      ensures s.low[v] <= s.index[y]
    {
      if i == |s0.stack| {
        ScannedVisited(s0, s, E, candidate, gray, v, successors, y);
      }
    }
  }

  lemma FinishStay(s0: State, s: State, E: set<(nat, nat)>, candidate: seq<bool>, gray: set<nat>,
                   v: nat, successors: seq<nat>)
    requires Scanning(s0, s, E, candidate, gray, v, successors, |successors|)
    requires Scanned(E, candidate, v, successors) && s.low[v] < s.index[v]
    ensures CallDone(s0, s, E, candidate, gray, v)
  {
    hide Reach, Colours, StackReach, Components, NoEscape, Attained;
    BlackColours(s0, s, E, candidate, gray, v, successors);
    NoEscapeOwn(s0, s, E, candidate, gray, v, successors);
    DropGray(s, E, candidate, gray, v);
    assert v in s.stack by { assert s.stack[|s0.stack|] == v; }
  }

  // ---- leaving the root of a component

  lemma TopIndex(s0: State, s: State, n: nat, x: nat)
    requires Shape(s0, n) && Shape(s, n) && Extends(s0, s) && |s0.stack| < |s.stack|
    requires x in s.stack
    ensures x in s.stack[|s0.stack|..] <==> s.index[s.stack[|s0.stack|]] <= s.index[x]
    ensures x in s.stack[|s0.stack|..] <==> x !in s0.stack
  {
    var p := |s0.stack|;
    var i :| 0 <= i < |s.stack| && s.stack[i] == x;
    forall j | 0 <= j < |s.stack| && j != i ensures s.stack[j] != x {
      if j < i { assert s.index[s.stack[j]] < s.index[s.stack[i]]; }
    }
    SplitAt(s.stack, p, i, x);
    if i < p { assert s.index[x] < s.index[s.stack[p]]; }
  }

  /** Which side of position p the only occurrence of x is on. */
  lemma SplitAt(q: seq<nat>, p: nat, i: nat, x: nat)
    requires p <= |q| && i < |q| && q[i] == x
    requires forall j :: 0 <= j < |q| && j != i ==> q[j] != x
    ensures (x in q[..p] <==> i < p) && (x in q[p..] <==> p <= i)
  {
    if i < p { assert q[..p][i] == x; } else { assert q[p..][i - p] == x; }
  }

  /** v and the nodes above it reach each other. */
  lemma TopMutual(s0: State, s: State, E: set<(nat, nat)>, candidate: seq<bool>, gray: set<nat>,
                  v: nat, successors: seq<nat>, x: nat)
    requires Scanning(s0, s, E, candidate, gray, v, successors, |successors|)
    requires forall g: nat :: g in gray ==> Reach(E, g, v)
    requires x in s.stack[|s0.stack|..]
    ensures Reach(E, v, x) && Reach(E, x, v)
  {
    hide Reach, Colours, Components, NoEscape, Attained;
    var p := |s0.stack|;
    var i :| 0 <= i < |s.stack[p..]| && s.stack[p..][i] == x;
    assert s.stack[p + i] == x;
    ReachRefl(E, v);
    assert Reach(E, s.stack[p], s.stack[p + i]);
    assert x in s.stack;
    StackReaches(s, E, gray + {v}, x, v);
  }

  /** From the nodes v and above, every arc stays there or leads to a finished component. */
  lemma TopClosed(s0: State, s: State, E: set<(nat, nat)>, candidate: seq<bool>, gray: set<nat>,
                  v: nat, successors: seq<nat>, x: nat, y: nat)
    requires Scanning(s0, s, E, candidate, gray, v, successors, |successors|)
    requires Scanned(E, candidate, v, successors) && s.low[v] == s.index[v]
    requires forall g: nat :: g in gray ==> g in s0.stack
    requires x in s.stack[|s0.stack|..] && (x, y) in E
    ensures y in s.stack[|s0.stack|..] || InComponent(s, y)
  {
    hide Reach, StackReach, Components, Attained, InComponent;
    var p := |s0.stack|;
    var i :| 0 <= i < |s.stack[p..]| && s.stack[p..][i] == x;
    assert s.stack[p + i] == x;
    assert Visited(s, y) by {
      if x == v {
        ScannedVisited(s0, s, E, candidate, gray, v, successors, y);
      } else {
        TopIndex(s0, s, |candidate|, x);
        assert x !in gray;
      }
    }
    if y in s.stack {
      NoEscapeOwn(s0, s, E, candidate, gray, v, successors);
      TopIndex(s0, s, |candidate|, y);
    }
  }

  lemma TopMaximal(s0: State, s: State, E: set<(nat, nat)>, candidate: seq<bool>, gray: set<nat>,
                   v: nat, successors: seq<nat>, x: nat, y: nat)
    requires Scanning(s0, s, E, candidate, gray, v, successors, |successors|)
    requires Scanned(E, candidate, v, successors) && s.low[v] == s.index[v]
    requires forall g: nat :: g in gray ==> g in s0.stack && Reach(E, g, v)
    requires x in s.stack[|s0.stack|..] && y !in s.stack[|s0.stack|..]
    requires Reach(E, x, y) && Reach(E, y, x)
    ensures InComponent(s, v)
  {
    hide Reach, Colours, StackReach, NoEscape, Attained;
    var top := iset z: nat | z in s.stack[|s0.stack|..];
    var a, b := ReachCrossing(E, x, y, top);
    TopClosed(s0, s, E, candidate, gray, v, successors, a, b);
    TopMutual(s0, s, E, candidate, gray, v, successors, x);
    TopMutual(s0, s, E, candidate, gray, v, successors, a);
    ReachTrans(E, b, y, x);
    ReachTrans(E, b, x, v);
    ReachArc(E, a, b);
    ReachTrans(E, v, a, b);
    var k :| 0 <= k < |s.sccs| && b in s.sccs[k];
    assert IsScc(E, s.sccs[k]);
    assert v in s.sccs[k];
  }

  lemma TopIsScc(s0: State, s: State, E: set<(nat, nat)>, candidate: seq<bool>, gray: set<nat>,
                 v: nat, successors: seq<nat>, c: seq<nat>)
    requires Scanning(s0, s, E, candidate, gray, v, successors, |successors|)
    requires Scanned(E, candidate, v, successors) && s.low[v] == s.index[v]
    requires forall g: nat :: g in gray ==> g in s0.stack && Reach(E, g, v)
    requires Distinct(c) && (forall x: nat :: x in c <==> x in s.stack[|s0.stack|..])
    ensures IsScc(E, c)
  {
    hide Reach, Shape, StackReach, Components, NoEscape, Attained, InComponent;
    assert s.stack[|s0.stack|..][0] == v;
    assert v in c;
    assert !InComponent(s, v) by { assert v in s.stack; }
    forall x: nat, y: nat | x in c ensures y in c <==> Reach(E, x, y) && Reach(E, y, x) {
      TopMutual(s0, s, E, candidate, gray, v, successors, x);
      if y in c {
        TopMutual(s0, s, E, candidate, gray, v, successors, y);
        ReachTrans(E, x, v, y);
        ReachTrans(E, y, v, x);
      } else if Reach(E, x, y) && Reach(E, y, x) {
        TopMaximal(s0, s, E, candidate, gray, v, successors, x, y);
      }
    }
  }

  /** The state after popping v and everything above it into component c. */
  ghost predicate Popped(s0: State, s: State, t: State, c: seq<nat>)
    requires |s0.stack| <= |s.stack|
  {
    && t.index == s.index && t.low == s.low && t.next == s.next
    && t.stack == s.stack[..|s0.stack|]
    && t.sccs == s.sccs + [c]
    && |t.onStack| == |s.onStack|
    && (forall x: nat :: x < |s.onStack| ==>
          t.onStack[x] == (s.onStack[x] && x !in s.stack[|s0.stack|..]))
  }

  lemma PopShape(s0: State, s: State, t: State, n: nat, c: seq<nat>)
    requires Shape(s0, n) && Shape(s, n) && Extends(s0, s) && |s0.stack| < |s.stack| && Popped(s0, s, t, c)
    ensures Shape(t, n) && Extends(s0, t) && t.stack == s0.stack
  {
    assert t.sccs[..|s0.sccs|] == s.sccs[..|s0.sccs|] == s0.sccs;
    forall x: nat | x < n ensures t.onStack[x] <==> x in t.stack {
      if x in s.stack {
        TopIndex(s0, s, n, x);
      } else if x in s0.stack {
        StackKept(s0, s, x);
      }
    }
  }

  lemma PopColours(s0: State, s: State, t: State, E: set<(nat, nat)>, candidate: seq<bool>, gray: set<nat>, c: seq<nat>)
    requires Shape(s0, |candidate|) && Shape(s, |candidate|) && Shape(t, |candidate|)
    requires Extends(s0, s) && |s0.stack| < |s.stack| && Popped(s0, s, t, c)
    requires Colours(s, E, candidate, gray)
    requires forall x: nat :: x in c <==> x in s.stack[|s0.stack|..]
    requires forall g: nat :: g in gray ==> g in s0.stack
    ensures Colours(t, E, candidate, gray)
  {
    assert forall x: nat :: Visited(t, x) <==> Visited(s, x);
    forall x: nat ensures InComponent(t, x) <==> InComponent(s, x) || x in c {
      if InComponent(s, x) {
        var k :| 0 <= k < |s.sccs| && x in s.sccs[k];
        assert t.sccs[k] == s.sccs[k];
      }
      if x in c { assert t.sccs[|s.sccs|] == c; }
    }
    forall x: nat ensures x in s.stack <==> x in t.stack || x in c {
      assert s.stack == s.stack[..|s0.stack|] + s.stack[|s0.stack|..];
    }
    forall x: nat | x in c ensures x !in t.stack && Visited(t, x) {
      assert x in s.stack;
      TopIndex(s0, s, |candidate|, x);
    }
  }

  lemma PopComponents(s0: State, s: State, t: State, E: set<(nat, nat)>, candidate: seq<bool>, gray: set<nat>, c: seq<nat>)
    requires Shape(s, |candidate|) && Colours(s, E, candidate, gray) && Components(s, E) && IsScc(E, c)
    requires |s0.stack| <= |s.stack| && Popped(s0, s, t, c)
    requires forall x: nat :: x in c ==> x in s.stack
    ensures Components(t, E)
  {
    hide Reach, IsScc, Shape;
    forall k, l, x: nat | 0 <= k < l < |t.sccs| && x in t.sccs[k] ensures x !in t.sccs[l] {
      if l == |s.sccs| {
        assert InComponent(s, x);
      }
    }
  }

  lemma PopStackReach(s0: State, s: State, t: State, E: set<(nat, nat)>, n: nat, gray: set<nat>, v: nat, c: seq<nat>)
    requires Shape(s0, n) && Shape(s, n) && Shape(t, n) && StackReach(s, E, gray + {v})
    requires Extends(s0, s) && |s0.stack| < |s.stack| && s.stack[|s0.stack|] == v && Popped(s0, s, t, c)
    ensures StackReach(t, E, gray)
  {
    hide Reach, ReachesGray;
    assert t.stack == s.stack[..|s0.stack|];
    forall x: nat | x in t.stack ensures ReachesGray(t, E, gray, x) {
      var i :| 0 <= i < |t.stack| && t.stack[i] == x;
      assert s.stack[i] == x;
      assert s.index[x] < s.index[v];
      GrayBelowRoot(s, t, E, gray, v, x);
    }
  }

  lemma GrayBelowRoot(s: State, t: State, E: set<(nat, nat)>, gray: set<nat>, v: nat, x: nat)
    requires t.index == s.index && x < |s.index| && v < |s.index| && s.index[x] < s.index[v]
    requires ReachesGray(s, E, gray + {v}, x)
    ensures ReachesGray(t, E, gray, x)
  {
    hide Reach;
    var g: nat :| g in gray + {v} && g < |s.index| && s.index[g] <= s.index[x] && Reach(E, x, g);
    assert g in gray;
  }

  lemma FinishRoot(s0: State, s: State, t: State, E: set<(nat, nat)>, candidate: seq<bool>, gray: set<nat>,
                   v: nat, successors: seq<nat>, c: seq<nat>)
    requires Scanning(s0, s, E, candidate, gray, v, successors, |successors|)
    requires Scanned(E, candidate, v, successors) && s.low[v] == s.index[v]
    requires forall g: nat :: g in gray ==> g in s0.stack && Reach(E, g, v)
    requires Distinct(c) && (forall x: nat :: x in c <==> x in s.stack[|s0.stack|..])
    requires Popped(s0, s, t, c)
    ensures CallDone(s0, t, E, candidate, gray, v)
  {
    hide Reach, Colours, StackReach, Components, Attained, IsScc;
    PopShape(s0, s, t, |candidate|, c);
    BlackColours(s0, s, E, candidate, gray, v, successors);
    PopColours(s0, s, t, E, candidate, gray, c);
    TopIsScc(s0, s, E, candidate, gray, v, successors, c);
    PopComponents(s0, s, t, E, candidate, gray, c);
    PopStackReach(s0, s, t, E, |candidate|, gray, v, c);
    TopIndex(s0, s, |candidate|, v);
  }

  lemma ReversedTail(all: seq<nat>, p: nat, c: seq<nat>)
    requires p <= |all| && Distinct(all) && |c| == |all| - p
    requires forall i :: 0 <= i < |c| ==> c[i] == all[|all| - 1 - i]
    ensures Distinct(c) && forall x: nat :: x in c <==> x in all[p..]
  {
    forall x: nat ensures x in c <==> x in all[p..] {
      if x in c {
        var i :| 0 <= i < |c| && c[i] == x;
        assert all[p..][|all| - 1 - i - p] == x;
      }
      if x in all[p..] {
        var j :| 0 <= j < |all[p..]| && all[p..][j] == x;
        assert c[|c| - 1 - j] == x;
      }
    }
  }

  /** The entries of v's adjacency list are its arcs, apart from the non-candidates. */
  lemma ArcsOf(adjacency: seq<seq<nat>>, candidate: seq<bool>, v: nat)
    requires WellFormed(adjacency, candidate) && v < |candidate| && candidate[v]
    ensures forall k :: 0 <= k < |adjacency[v]| ==>
              && adjacency[v][k] < |candidate|
              && (candidate[adjacency[v][k]] ==> (v, adjacency[v][k]) in CandidateArcs(adjacency, candidate))
    ensures Scanned(CandidateArcs(adjacency, candidate), candidate, v, adjacency[v])
  {
    forall k | 0 <= k < |adjacency[v]|
      ensures adjacency[v][k] < |candidate|
      ensures candidate[adjacency[v][k]] ==> (v, adjacency[v][k]) in CandidateArcs(adjacency, candidate)
    {
      assert adjacency[v][k] in adjacency[v];
    }
  }

  lemma GrayReachSuccessor(s: State, E: set<(nat, nat)>, candidate: seq<bool>, gray: set<nat>, v: nat, w: nat)
    requires (v, w) in E && forall g: nat :: g in gray ==> Reach(E, g, v)
    ensures forall g: nat :: g in gray + {v} ==> Reach(E, g, w)
  {
    hide Reach;
    ReachArc(E, v, w);
    forall g: nat | g in gray + {v} ensures Reach(E, g, w) {
      if g != v { ReachTrans(E, g, v, w); }
    }
  }

  lemma GrayOnStack(s: State, E: set<(nat, nat)>, candidate: seq<bool>, gray: set<nat>)
    requires Inv(s, E, candidate, gray)
    ensures forall g: nat :: g in gray ==> g in s.stack
  {
    hide Reach;
  }

  ghost predicate InSome(sccs: seq<seq<nat>>, x: nat) {
    exists k :: 0 <= k < |sccs| && x in sccs[k]
  }

  /** The components are the maximal classes of mutually reachable candidates, and they
      partition the candidates. */
  ghost predicate IsSccPartition(E: set<(nat, nat)>, candidate: seq<bool>, sccs: seq<seq<nat>>) {
    && (forall k :: 0 <= k < |sccs| ==> IsScc(E, sccs[k]))
    && (forall k, l, x: nat :: 0 <= k < l < |sccs| && x in sccs[k] ==> x !in sccs[l])
    && (forall x: nat :: InSome(sccs, x) <==> x < |candidate| && candidate[x])
  }

  lemma CallFromEmptyStack(s: State, t: State, E: set<(nat, nat)>, candidate: seq<bool>, v: nat)
    requires CallDone(s, t, E, candidate, {}, v)
    ensures t.stack == []
    ensures Visited(t, v)
    ensures forall x: nat :: Visited(s, x) ==> Visited(t, x)
  {
    hide Reach, Components, NoEscape, Attained;
    NonemptyHasMember(t.stack);
    assert forall x: nat :: x in t.stack ==> ReachesGray(t, E, {}, x);
  }

  lemma PartitionFromInv(s: State, E: set<(nat, nat)>, candidate: seq<bool>)
    requires Inv(s, E, candidate, {}) && s.stack == []
    requires forall x: nat :: x < |candidate| && candidate[x] ==> s.index[x] != -1
    ensures IsSccPartition(E, candidate, s.sccs)
  {
    hide Reach, IsScc;
    forall x: nat ensures InSome(s.sccs, x) <==> x < |candidate| && candidate[x] {
      assert InSome(s.sccs, x) <==> InComponent(s, x);
      assert InComponent(s, x) <==> Visited(s, x);
    }
  }
}
