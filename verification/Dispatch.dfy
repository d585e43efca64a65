/** Edges from a virtual method to the methods of derived classes that override it. */
module Dispatch {
  import opened Wrappers
  import opened Digraph
  import opened Symbols
  import opened Facts
  import opened Graphs

  /** Base names by class, as they are spelled. */
  type Records = map<string, seq<string>>

  /** The class that a spelled base name stands for, inside a given derived class. */
  type Resolver = (string, string) -> Option<string>

  const HIERARCHY := Evidence("class_hierarchy", "known override of a virtual method")

  // ---- what the edges mean

  /** Class y names a base that stands for class x, as seen from the derived class. */
  ghost function BaseArcs(records: Records, resolve: Resolver, derived: string): set<(string, string)> {
    set y, b | y in records && b in records[y] && resolve(derived, b).Some? :: (y, resolve(derived, b).value)
  }

  ghost predicate IsAncestor(records: Records, resolve: Resolver, derived: string, x: string) {
    exists y :: (derived, y) in BaseArcs(records, resolve, derived) && Reach(BaseArcs(records, resolve, derived), y, x)
  }

  predicate IsMethod(s: Symbol) {
    s.className != [] && s.kind == Method
  }

  predicate Overrides(base: Symbol, derived: Symbol) {
    IsMethod(base) && IsMethod(derived) && base.isVirtual && base.name == derived.name && base.signature == derived.signature
  }

  function DispatchEdge(base: string, derived: string): Fact<string> {
    Edge(base, derived, VirtualDispatch, HIERARCHY)
  }

  /** The edges, by key: one for each method of an ancestor class that a method overrides. */
  ghost function DispatchFacts(symbols: map<string, Symbol>, records: Records, resolve: Resolver): set<Fact<string>> {
    set a, d | a in symbols && d in symbols && Overrides(symbols[a], symbols[d])
      && IsAncestor(records, resolve, symbols[d].className, symbols[a].className) :: DispatchEdge(a, d)
  }

  // ---- pairs of a base method and a derived method, by position

  type Pairs = set<(nat, nat)>

  ghost predicate IsPair(symbols: seq<Symbol>, a: nat, d: nat) {
    a < |symbols| && d < |symbols| && Overrides(symbols[a], symbols[d])
  }

  /** The pairs in which the base method belongs to one of the given classes. */
  ghost function PairsIn(symbols: seq<Symbol>, derived: string, classes: set<string>): Pairs {
    set a: nat, d: nat | a < |symbols| && d < |symbols| && IsPair(symbols, a, d)
      && symbols[d].className == derived && symbols[a].className in classes :: (a, d)
  }

  ghost function AllPairs(symbols: seq<Symbol>, records: Records, resolve: Resolver, deriveds: set<string>): Pairs {
    set a: nat, d: nat | a < |symbols| && d < |symbols| && IsPair(symbols, a, d)
      && symbols[d].className in deriveds
      && IsAncestor(records, resolve, symbols[d].className, symbols[a].className) :: (a, d)
  }

  ghost function EdgesOf(symbols: seq<Symbol>, pairs: Pairs): set<Fact<string>> {
    set p | p in pairs :: DispatchEdge(KeyAt(symbols, p.0), KeyAt(symbols, p.1))
  }

  lemma EdgesOfUnion(symbols: seq<Symbol>, p: Pairs, q: Pairs)
    ensures EdgesOf(symbols, p + q) == EdgesOf(symbols, p) + EdgesOf(symbols, q)
  {
  }

  lemma PairToKeys(c: Contents, records: Records, resolve: Resolver, a: nat, d: nat)
    requires Valid(c) && IsPair(c.symbols, a, d)
    requires IsAncestor(records, resolve, c.symbols[d].className, c.symbols[a].className)
    ensures DispatchEdge(KeyAt(c.symbols, a), KeyAt(c.symbols, d)) in DispatchFacts(ViewOf(c).symbols, records, resolve)
  {
    hide IsAncestor, Overrides;
    SymbolMapSpec(c.symbols);
  }

  lemma KeysToPair(c: Contents, records: Records, resolve: Resolver, x: string, y: string) returns (a: nat, d: nat)
    requires Valid(c) && x in ViewOf(c).symbols && y in ViewOf(c).symbols
    requires Overrides(ViewOf(c).symbols[x], ViewOf(c).symbols[y])
    ensures IsPair(c.symbols, a, d) && KeyAt(c.symbols, a) == x && KeyAt(c.symbols, d) == y
    ensures c.symbols[a] == ViewOf(c).symbols[x] && c.symbols[d] == ViewOf(c).symbols[y]
  {
    hide Overrides;
    SymbolMapSpec(c.symbols);
    var m := ViewOf(c).symbols;
    a :| a < |c.symbols| && c.symbols[a] == m[x];
    d :| d < |c.symbols| && c.symbols[d] == m[y];
  }

  lemma AllPairsAreDispatch(c: Contents, records: Records, resolve: Resolver, deriveds: set<string>)
    requires Valid(c)
    requires forall i :: 0 <= i < |c.symbols| && IsMethod(c.symbols[i]) ==> c.symbols[i].className in deriveds
    ensures EdgesOf(c.symbols, AllPairs(c.symbols, records, resolve, deriveds)) == DispatchFacts(ViewOf(c).symbols, records, resolve)
  {
    hide IsAncestor, Valid, SymbolMap;
    var symbols, m := c.symbols, ViewOf(c).symbols;
    var pairs := AllPairs(symbols, records, resolve, deriveds);
    forall f | f in EdgesOf(symbols, pairs) ensures f in DispatchFacts(m, records, resolve) {
      var p :| p in pairs && f == DispatchEdge(KeyAt(symbols, p.0), KeyAt(symbols, p.1));
      PairToKeys(c, records, resolve, p.0, p.1);
    }
    forall f | f in DispatchFacts(m, records, resolve) ensures f in EdgesOf(symbols, pairs) {
      var x, y :| x in m && y in m && Overrides(m[x], m[y]) && IsAncestor(records, resolve, m[y].className, m[x].className)
        && f == DispatchEdge(x, y);
      var a, d := KeysToPair(c, records, resolve, x, y);
      assert (a, d) in pairs;
    }
  }

  // ---- grouping methods by class

  function GroupOf(groups: map<string, seq<nat>>, k: string): seq<nat> {
    if k in groups then groups[k] else []
  }

  /** Each group holds exactly the methods of its class, among the first n symbols. */
  ghost predicate Grouped(symbols: seq<Symbol>, groups: map<string, seq<nat>>, n: nat) {
    && n <= |symbols|
    && (forall k, id: nat :: id in GroupOf(groups, k) <==> id < n && MethodOf(symbols, id, k))
    && (forall k :: k in groups ==> groups[k] != [])
  }

  predicate MethodOf(symbols: seq<Symbol>, id: nat, k: string) {
    id < |symbols| && IsMethod(symbols[id]) && symbols[id].className == k
  }

  lemma NoGroups(symbols: seq<Symbol>)
    ensures Grouped(symbols, map[], 0)
  {
  }

  lemma GroupNext(symbols: seq<Symbol>, groups: map<string, seq<nat>>, id: nat)
    requires Grouped(symbols, groups, id) && id < |symbols|
    ensures var k := symbols[id].className;
            Grouped(symbols, if IsMethod(symbols[id]) then groups[k := GroupOf(groups, k) + [id]] else groups, id + 1)
  {
    hide IsMethod;
    var k := symbols[id].className;
    var next := if IsMethod(symbols[id]) then groups[k := GroupOf(groups, k) + [id]] else groups;
    forall k', i: nat ensures i in GroupOf(next, k') <==> i < id + 1 && MethodOf(symbols, i, k') {
      assert i in GroupOf(groups, k') <==> i < id && MethodOf(symbols, i, k');
    }
  }

  method GroupMethods(symbols: seq<Symbol>) returns (groups: map<string, seq<nat>>)
    ensures Grouped(symbols, groups, |symbols|)
  {
    hide IsMethod, Grouped, GroupOf;
    groups := map[];
    NoGroups(symbols);
    for id := 0 to |symbols|
      invariant Grouped(symbols, groups, id)
    {
      GroupNext(symbols, groups, id);
      if IsMethod(symbols[id]) {
        var k := symbols[id].className;
        groups := groups[k := GroupOf(groups, k) + [id]];
      }
    }
  }

  // ---- adding the edges of one class to one of its ancestors

  /** c is was with the edges of the pairs. */
  ghost predicate HasPairs(c: Contents, was: Contents, pairs: Pairs) {
    Valid(c) && c.symbols == was.symbols
    && ViewOf(c) == View(ViewOf(was).symbols, ViewOf(was).facts + EdgesOf(was.symbols, pairs))
  }

  lemma AddPair(c: Contents, was: Contents, pairs: Pairs, a: nat, d: nat)
    requires HasPairs(c, was, pairs) && a < |c.symbols| && d < |c.symbols|
    ensures HasPairs(With(c, Edge(a, d, VirtualDispatch, HIERARCHY)), was, pairs + {(a, d)})
  {
    hide Valid;
    WithView(c, Edge(a, d, VirtualDispatch, HIERARCHY));
    EdgesOfUnion(was.symbols, pairs, {(a, d)});
    assert EdgesOf(was.symbols, {(a, d)}) == {DispatchEdge(KeyAt(was.symbols, a), KeyAt(was.symbols, d))};
  }

  /** The pairs from a list of derived methods to a list of base methods. */
  ghost function ListPairs(symbols: seq<Symbol>, bases: seq<nat>, deriveds: seq<nat>): Pairs {
    set a, d | a in bases && d in deriveds && IsPair(symbols, a, d) :: (a, d)
  }

  lemma HasSymbols(c: Contents, was: Contents, pairs: Pairs)
    requires HasPairs(c, was, pairs)
    ensures c.symbols == was.symbols
  {
  }

  lemma NoPairs(symbols: seq<Symbol>, list: seq<nat>, pairs: Pairs)
    ensures pairs + ListPairs(symbols, list, []) == pairs && pairs + ListPairs(symbols, [], list) == pairs
  {
  }

  lemma PairHere(symbols: seq<Symbol>, a: nat, d: nat)
    requires a < |symbols| && d < |symbols|
    ensures IsPair(symbols, a, d) <==> Overrides(symbols[a], symbols[d])
  {
  }

  lemma OneMoreBase(symbols: seq<Symbol>, bases: seq<nat>, i: nat, d: nat, before: Pairs)
    requires i < |bases|
    ensures var now := before + ListPairs(symbols, bases[..i], [d]);
            before + ListPairs(symbols, bases[..i + 1], [d]) == if IsPair(symbols, bases[i], d) then now + {(bases[i], d)} else now
  {
    hide IsPair;
    assert bases[..i + 1] == bases[..i] + [bases[i]];
  }

  lemma OneMoreDerived(symbols: seq<Symbol>, bases: seq<nat>, deriveds: seq<nat>, j: nat, pairs: Pairs)
    requires j < |deriveds|
    ensures pairs + ListPairs(symbols, bases, deriveds[..j + 1]) ==
      pairs + ListPairs(symbols, bases, deriveds[..j]) + ListPairs(symbols, bases, [deriveds[j]])
  {
    hide IsPair;
    assert deriveds[..j + 1] == deriveds[..j] + [deriveds[j]];
  }

  method AddOverrides(graph: Graph, bases: seq<nat>, deriveds: seq<nat>, ghost was: Contents, ghost pairs: Pairs)
    requires graph.Valid() && HasPairs(graph.Value(), was, pairs)
    requires (forall i :: 0 <= i < |bases| ==> bases[i] < |graph.symbols|)
    requires (forall i :: 0 <= i < |deriveds| ==> deriveds[i] < |graph.symbols|)
    modifies graph
    ensures graph.Valid() && HasPairs(graph.Value(), was, pairs + ListPairs(was.symbols, bases, deriveds))
  {
    hide Overrides, HasPairs, Facts.Valid, Graphs.Inverse, IsPair, ListPairs, With;
    ghost var symbols := was.symbols;
    HasSymbols(graph.Value(), was, pairs);
    NoPairs(symbols, bases, pairs);
    for j := 0 to |deriveds|
      invariant graph.Valid() && graph.symbols == symbols
      invariant HasPairs(graph.Value(), was, pairs + ListPairs(symbols, bases, deriveds[..j]))
    {
      var d := deriveds[j];
      ghost var before := pairs + ListPairs(symbols, bases, deriveds[..j]);
      NoPairs(symbols, [d], before);
      for i := 0 to |bases|
        invariant graph.Valid() && graph.symbols == symbols
        invariant HasPairs(graph.Value(), was, before + ListPairs(symbols, bases[..i], [d]))
      {
        var a := bases[i];
        ghost var now := before + ListPairs(symbols, bases[..i], [d]);
        OneMoreBase(symbols, bases, i, d, before);
        PairHere(symbols, a, d);
        if Overrides(graph.symbols[a], graph.symbols[d]) {
          AddPair(graph.Value(), was, now, a, d);
          var _ := graph.AddEdge(a, d, VirtualDispatch, HIERARCHY);
        }
      }
      assert bases[..|bases|] == bases;
      OneMoreDerived(symbols, bases, deriveds, j, pairs);
    }
    assert deriveds[..|deriveds|] == deriveds;
  }

  // ---- the ancestors of one class

  /** Every class that some base name stands for. */
  function Resolvable(records: Records, resolve: Resolver, derived: string): set<string> {
    set y, b | y in records && b in records[y] && resolve(derived, b).Some? :: resolve(derived, b).value
  }

  /** What is still to be looked at: a base name that some class met so far spells. */
  ghost predicate Spelled(records: Records, derived: string, visited: set<string>, b: string) {
    exists y :: (y == derived || y in visited) && y in records && b in records[y]
  }

  ghost predicate WorkInvariant(records: Records, resolve: Resolver, derived: string, visited: set<string>, pending: seq<string>) {
    && (forall x :: x in visited ==> IsAncestor(records, resolve, derived, x))
    && visited <= Resolvable(records, resolve, derived)
    && (forall b :: b in pending ==> Spelled(records, derived, visited, b))
    && (forall b :: Spelled(records, derived, visited, b) && b !in pending && resolve(derived, b).Some? ==>
          resolve(derived, b).value in visited)
  }

  lemma SpelledIsAncestor(records: Records, resolve: Resolver, derived: string, visited: set<string>, b: string)
    requires forall x :: x in visited ==> IsAncestor(records, resolve, derived, x)
    requires Spelled(records, derived, visited, b) && resolve(derived, b).Some?
    ensures IsAncestor(records, resolve, derived, resolve(derived, b).value)
    ensures resolve(derived, b).value in Resolvable(records, resolve, derived)
  {
    var E := BaseArcs(records, resolve, derived);
    var x := resolve(derived, b).value;
    var y :| (y == derived || y in visited) && y in records && b in records[y];
    assert (y, x) in E;
    if y == derived {
      ReachRefl(E, x);
    } else {
      var z :| (derived, z) in E && Reach(E, z, y);
      ReachArc(E, y, x);
      ReachTrans(E, z, y, x);
    }
  }

  ghost predicate AreAncestors(records: Records, resolve: Resolver, derived: string, classes: set<string>) {
    forall x :: x in classes <==> IsAncestor(records, resolve, derived, x)
  }

  /** When nothing is pending, every ancestor has been met. */
  lemma AllMet(records: Records, resolve: Resolver, derived: string, visited: set<string>)
    requires WorkInvariant(records, resolve, derived, visited, [])
    ensures AreAncestors(records, resolve, derived, visited)
  {
    var E := BaseArcs(records, resolve, derived);
    forall x | IsAncestor(records, resolve, derived, x) ensures x in visited {
      var y :| (derived, y) in E && Reach(E, y, x);
      ArcMet(records, resolve, derived, visited, derived, y);
      if x !in visited {
        var S := iset z | z in visited;
        var a, b := ReachCrossing(E, y, x, S);
        ArcMet(records, resolve, derived, visited, a, b);
      }
    }
  }

  lemma ArcMet(records: Records, resolve: Resolver, derived: string, visited: set<string>, a: string, b: string)
    requires WorkInvariant(records, resolve, derived, visited, [])
    requires (a, b) in BaseArcs(records, resolve, derived) && (a == derived || a in visited)
    ensures b in visited
  {
    var name :| a in records && name in records[a] && resolve(derived, name).Some? && resolve(derived, name).value == b;
    assert Spelled(records, derived, visited, name);
  }

  /** The last pending name stands for no class, or for one already met. */
  lemma NameSkipped(records: Records, resolve: Resolver, derived: string, visited: set<string>, pending: seq<string>)
    requires WorkInvariant(records, resolve, derived, visited, pending) && pending != []
    requires var r := resolve(derived, pending[|pending| - 1]); r.None? || r.value in visited
    ensures WorkInvariant(records, resolve, derived, visited, pending[..|pending| - 1])
  {
    hide IsAncestor, Spelled;
    assert pending == pending[..|pending| - 1] + [pending[|pending| - 1]];
  }

  lemma ClassMet(records: Records, resolve: Resolver, derived: string, visited: set<string>, pending: seq<string>)
    requires WorkInvariant(records, resolve, derived, visited, pending) && pending != []
    requires var r := resolve(derived, pending[|pending| - 1]); r.Some? && r.value !in visited
    ensures var x := resolve(derived, pending[|pending| - 1]).value;
            && x in Resolvable(records, resolve, derived)
            && WorkInvariant(records, resolve, derived, visited + {x},
                 pending[..|pending| - 1] + if x in records then records[x] else [])
  {
    hide IsAncestor;
    var b := pending[|pending| - 1];
    var x := resolve(derived, b).value;
    SpelledIsAncestor(records, resolve, derived, visited, b);
    assert pending == pending[..|pending| - 1] + [b];
    var next := pending[..|pending| - 1] + if x in records then records[x] else [];
    forall n | n in next ensures Spelled(records, derived, visited + {x}, n) {
      if n in pending {
        var y :| (y == derived || y in visited) && y in records && n in records[y];
        assert y == derived || y in visited + {x};
      }
    }
    forall n | Spelled(records, derived, visited + {x}, n) && n !in next && resolve(derived, n).Some?
      ensures resolve(derived, n).value in visited + {x}
    {
      var y :| (y == derived || y in visited + {x}) && y in records && n in records[y];
      if y != x || x == derived { assert Spelled(records, derived, visited, n); }
    }
  }

  // ---- all classes

  /** The pairs from the methods of one class to those of the classes met. */
  lemma MetClass(symbols: seq<Symbol>, groups: map<string, seq<nat>>, derived: string, visited: set<string>, x: string)
    requires Grouped(symbols, groups, |symbols|)
    ensures PairsIn(symbols, derived, visited + {x}) ==
      PairsIn(symbols, derived, visited) + ListPairs(symbols, GroupOf(groups, x), GroupOf(groups, derived))
  {
    hide Overrides;
    forall a: nat, d: nat | IsPair(symbols, a, d)
      ensures MethodOf(symbols, a, x) <==> symbols[a].className == x
      ensures MethodOf(symbols, d, derived) <==> symbols[d].className == derived
    {
      PairMethods(symbols, a, d);
    }
  }

  lemma PairMethods(symbols: seq<Symbol>, a: nat, d: nat)
    requires IsPair(symbols, a, d)
    ensures IsMethod(symbols[a]) && IsMethod(symbols[d])
  {
  }

  lemma GroupsInRange(symbols: seq<Symbol>, groups: map<string, seq<nat>>, k: string)
    requires Grouped(symbols, groups, |symbols|)
    ensures forall i :: 0 <= i < |GroupOf(groups, k)| ==> GroupOf(groups, k)[i] < |symbols|
  {
    forall i | 0 <= i < |GroupOf(groups, k)| ensures GroupOf(groups, k)[i] < |symbols| {
      assert GroupOf(groups, k)[i] in GroupOf(groups, k);
    }
  }

  /** Follows the base names of one class and adds its edges. */
  method AddClass(graph: Graph, records: Records, resolve: Resolver, groups: map<string, seq<nat>>, derived: string,
                  ghost was: Contents, ghost pairs: Pairs)
    returns (visited: set<string>)
    requires graph.Valid() && HasPairs(graph.Value(), was, pairs) && Grouped(graph.symbols, groups, |graph.symbols|)
    requires derived in records
    modifies graph
    ensures graph.Valid() && AreAncestors(records, resolve, derived, visited)
    ensures HasPairs(graph.Value(), was, pairs + PairsIn(was.symbols, derived, visited))
  {
    hide Overrides, HasPairs, Facts.Valid, Graphs.Inverse, PairsIn, ListPairs, Grouped, WorkInvariant, Resolvable, IsAncestor;
    ghost var symbols := was.symbols;
    HasSymbols(graph.Value(), was, pairs);
    var pending := records[derived];
    visited := {};
    NothingMet(symbols, records, resolve, derived, pairs);
    while pending != []
      invariant graph.Valid() && graph.symbols == symbols
      invariant WorkInvariant(records, resolve, derived, visited, pending)
      invariant visited <= Resolvable(records, resolve, derived)
      invariant HasPairs(graph.Value(), was, pairs + PairsIn(symbols, derived, visited))
      decreases Resolvable(records, resolve, derived) - visited, |pending|
    {
      var base := pending[|pending| - 1];
      var resolved := resolve(derived, base);
      if resolved.None? || resolved.value in visited {
        NameSkipped(records, resolve, derived, visited, pending);
        pending := pending[..|pending| - 1];
      } else {
        var x := resolved.value;
        ClassMet(records, resolve, derived, visited, pending);
        MetClass(symbols, groups, derived, visited, x);
        GroupsInRange(symbols, groups, x);
        GroupsInRange(symbols, groups, derived);
        AddOverrides(graph, GroupOf(groups, x), GroupOf(groups, derived), was, pairs + PairsIn(symbols, derived, visited));
        assert pairs + PairsIn(symbols, derived, visited) + ListPairs(symbols, GroupOf(groups, x), GroupOf(groups, derived))
            == pairs + PairsIn(symbols, derived, visited + {x});
        HasSymbols(graph.Value(), was, pairs + PairsIn(symbols, derived, visited + {x}));
        pending := pending[..|pending| - 1] + if x in records then records[x] else [];
        visited := visited + {x};
      }
    }
    AllMet(records, resolve, derived, visited);
  }

  lemma NothingMet(symbols: seq<Symbol>, records: Records, resolve: Resolver, derived: string, pairs: Pairs)
    requires derived in records
    ensures WorkInvariant(records, resolve, derived, {}, records[derived])
    ensures pairs + PairsIn(symbols, derived, {}) == pairs
  {
  }

  lemma ClassDone(symbols: seq<Symbol>, records: Records, resolve: Resolver, done: set<string>, derived: string, visited: set<string>)
    requires if derived in records then AreAncestors(records, resolve, derived, visited) else visited == {}
    ensures AllPairs(symbols, records, resolve, done) + PairsIn(symbols, derived, visited) ==
      AllPairs(symbols, records, resolve, done + {derived})
  {
    hide IsPair, BaseArcs;
    if derived !in records {
      forall x ensures !IsAncestor(records, resolve, derived, x) { NoRecordNoAncestor(records, resolve, derived, x); }
    }
  }

  lemma NoRecordNoAncestor(records: Records, resolve: Resolver, derived: string, x: string)
    requires derived !in records
    ensures !IsAncestor(records, resolve, derived, x)
  {
  }

  /** Adds every edge from a virtual method to a method that overrides it, in whatever order the
      classes come. */
  method AddVirtualDispatchEdges(graph: Graph, records: Records, resolve: Resolver)
    requires graph.Valid()
    modifies graph
    ensures graph.Valid() && graph.symbols == old(graph.symbols)
    ensures ViewOf(graph.Value()) ==
      View(ViewOf(old(graph.Value())).symbols,
           ViewOf(old(graph.Value())).facts + DispatchFacts(ViewOf(old(graph.Value())).symbols, records, resolve))
  {
    hide Overrides, Facts.Valid, Graphs.Inverse, PairsIn, AllPairs, IsAncestor, DispatchFacts;
    ghost var was := graph.Value();
    var groups := GroupMethods(graph.symbols);
    var left := groups.Keys;
    NoPairsYet(was, records, resolve);
    while left != {}
      invariant left <= groups.Keys
      invariant graph.Valid() && HasPairs(graph.Value(), was, AllPairs(was.symbols, records, resolve, groups.Keys - left))
      decreases |left|
    {
      var derived :| derived in left;
      ghost var done := groups.Keys - left;
      var visited: set<string> := {};
      if derived in records {
        visited := AddClass(graph, records, resolve, groups, derived, was, AllPairs(was.symbols, records, resolve, done));
      } else {
        assert PairsIn(was.symbols, derived, {}) == {} by { NoClassNoPairs(was.symbols, derived); }
      }
      ClassDone(was.symbols, records, resolve, done, derived, visited);
      left := left - {derived};
      assert groups.Keys - left == done + {derived};
    }
    assert groups.Keys - left == groups.Keys;
    AllClasses(was, groups);
    AllPairsAreDispatch(was, records, resolve, groups.Keys);
  }

  lemma NoClassNoPairs(symbols: seq<Symbol>, derived: string)
    ensures PairsIn(symbols, derived, {}) == {}
  {
  }

  lemma NoPairsYet(was: Contents, records: Records, resolve: Resolver)
    requires Valid(was)
    ensures forall done: set<string> :: done == {} ==> HasPairs(was, was, AllPairs(was.symbols, records, resolve, done))
  {
    hide Valid;
    assert AllPairs(was.symbols, records, resolve, {}) == {};
    assert EdgesOf(was.symbols, {}) == {};
  }

  lemma AllClasses(c: Contents, groups: map<string, seq<nat>>)
    requires Grouped(c.symbols, groups, |c.symbols|)
    ensures forall i :: 0 <= i < |c.symbols| && IsMethod(c.symbols[i]) ==> c.symbols[i].className in groups.Keys
  {
    forall i: nat | i < |c.symbols| && IsMethod(c.symbols[i]) ensures c.symbols[i].className in groups.Keys {
      assert MethodOf(c.symbols, i, c.symbols[i].className);
      assert i in GroupOf(groups, c.symbols[i].className);
    }
  }
}
