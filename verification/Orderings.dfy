/** The orders in which symbols, facts, components and findings are listed, each as the comparison of
    tuples that it is. */
module Orderings {
  import opened Wrappers
  import opened Orders
  import opened Symbols
  import opened Facts
  import opened Canonical
  import opened SortKeys
  import Arrangement
  import Artifact
  import Report
  import ReportBuild
  import Findings

  // ---- strings and tuples

  /** The place at which two strings first differ, or one of them ends. */
  ghost predicate DivergeAt(a: string, b: string, k: nat) {
    k <= |a| && k <= |b| && a[..k] == b[..k] && (k < |a| && k < |b| ==> a[k] != b[k])
  }

  /** A string is less than another one exactly when it ends first, or has the smaller character where
      they first differ. */
  lemma {:induction false} StringLessAt(a: string, b: string, k: nat)
    requires DivergeAt(a, b, k) && (k == |a| || k == |b| || a[k] != b[k])
    ensures StringLess(a, b) <==> k < |b| && (k == |a| || a[k] < b[k])
  {
    if k > 0 {
      assert a[..k][0] == a[0] && b[..k][0] == b[0];
      assert a[1..][..k - 1] == a[..k][1..] && b[1..][..k - 1] == b[..k][1..];
      StringLessAt(a[1..], b[1..], k - 1);
    }
  }

  datatype Item = Text(text: string) | Size(size: nat)

  predicate ItemLess(a: Item, b: Item) {
    match (a, b)
    case (Text(s), Text(t)) => StringLess(s, t)
    case (Size(m), Size(n)) => m < n
    case _ => false
  }

  /** Up to place k the tuples are the same, and there the first is smaller. */
  predicate SmallerAt(a: seq<Item>, b: seq<Item>, k: nat) {
    k < |a| && k < |b| && (forall i :: 0 <= i < k ==> a[i] == b[i]) && ItemLess(a[k], b[k])
  }

  predicate TupleLess(a: seq<Item>, b: seq<Item>) {
    exists k :: 0 <= k < |a| && SmallerAt(a, b, k)
  }

  lemma TupleLessFrom(x: Item, a: seq<Item>, y: Item, b: seq<Item>)
    requires |a| == |b|
    ensures TupleLess([x] + a, [y] + b) <==> ItemLess(x, y) || (x == y && TupleLess(a, b))
  {
    hide ItemLess;
    var s, t := [x] + a, [y] + b;
    if ItemLess(x, y) { assert SmallerAt(s, t, 0); }
    if x == y && TupleLess(a, b) {
      var k :| 0 <= k < |a| && SmallerAt(a, b, k);
      assert SmallerAt(s, t, k + 1);
    }
    if TupleLess(s, t) {
      var k :| 0 <= k < |s| && SmallerAt(s, t, k);
      if k > 0 {
        assert s[0] == t[0];
        forall i | 0 <= i < k - 1 ensures a[i] == b[i] { assert s[i + 1] == t[i + 1]; }
        assert SmallerAt(a, b, k - 1);
      }
    }
  }

  lemma Two(a0: Item, a1: Item, b0: Item, b1: Item)
    ensures TupleLess([a0, a1], [b0, b1]) <==> ItemLess(a0, b0) || (a0 == b0 && ItemLess(a1, b1))
  {
    TupleLessFrom(a0, [a1], b0, [b1]);
    TupleLessFrom(a1, [], b1, []);
    assert [a0] + [a1] == [a0, a1] && [b0] + [b1] == [b0, b1] && [a1] + [] == [a1] && [b1] + [] == [b1];
  }

  lemma Three(a0: Item, a1: Item, a2: Item, b0: Item, b1: Item, b2: Item)
    ensures TupleLess([a0, a1, a2], [b0, b1, b2]) <==>
      ItemLess(a0, b0) || (a0 == b0 && (ItemLess(a1, b1) || (a1 == b1 && ItemLess(a2, b2))))
  {
    TupleLessFrom(a0, [a1, a2], b0, [b1, b2]);
    Two(a1, a2, b1, b2);
    assert [a0] + [a1, a2] == [a0, a1, a2] && [b0] + [b1, b2] == [b0, b1, b2];
  }

  lemma Four(a0: Item, a1: Item, a2: Item, a3: Item, b0: Item, b1: Item, b2: Item, b3: Item)
    ensures TupleLess([a0, a1, a2, a3], [b0, b1, b2, b3]) <==>
      ItemLess(a0, b0) || (a0 == b0 && (ItemLess(a1, b1) || (a1 == b1 &&
      (ItemLess(a2, b2) || (a2 == b2 && ItemLess(a3, b3))))))
  {
    TupleLessFrom(a0, [a1, a2, a3], b0, [b1, b2, b3]);
    Three(a1, a2, a3, b1, b2, b3);
    assert [a0] + [a1, a2, a3] == [a0, a1, a2, a3] && [b0] + [b1, b2, b3] == [b0, b1, b2, b3];
  }

  lemma Five(a0: Item, a1: Item, a2: Item, a3: Item, a4: Item, b0: Item, b1: Item, b2: Item, b3: Item, b4: Item)
    ensures TupleLess([a0, a1, a2, a3, a4], [b0, b1, b2, b3, b4]) <==>
      ItemLess(a0, b0) || (a0 == b0 && (ItemLess(a1, b1) || (a1 == b1 &&
      (ItemLess(a2, b2) || (a2 == b2 && (ItemLess(a3, b3) || (a3 == b3 && ItemLess(a4, b4))))))))
  {
    TupleLessFrom(a0, [a1, a2, a3, a4], b0, [b1, b2, b3, b4]);
    Four(a1, a2, a3, a4, b1, b2, b3, b4);
    assert [a0] + [a1, a2, a3, a4] == [a0, a1, a2, a3, a4] && [b0] + [b1, b2, b3, b4] == [b0, b1, b2, b3, b4];
  }

  // ---- the facts of a graph

  /** The symbols of a canonical graph are sorted by key. */
  lemma SymbolsByKey(a: Symbol, b: Symbol)
    ensures KeyLess(a, b) <==> TupleLess([Text(a.key)], [Text(b.key)])
  {
    hide TupleLess, StringLess;
    TupleLessFrom(Text(a.key), [], Text(b.key), []);
    assert forall x: Item :: [x] + [] == [x];
    NoTuples();
  }

  function EdgeTurn(k: EdgeKind): nat {
    match k
    case DirectCall => 0 case Constructs => 1 case VirtualDispatch => 2 case CallbackEdge => 3 case ProviderEdge => 4
  }

  function RootTurn(k: RootKind): nat {
    match k
    case ApplicationEntryPoint => 0 case GlobalInitializer => 1 case Manual => 2
    case CallbackRoot => 3 case ProviderRoot => 4 case PublicApi => 5
  }

  function EscapeTurn(k: EscapeKind): nat {
    match k
    case AddressTaken => 0 case CallableObject => 1 case ProviderEscape => 2
  }

  /** What a fact is compared by. A missing origin comes before all others. */
  function FactTuple(x: Fact<nat>): seq<Item> {
    var p, r := Text(x.evidence.provider), Text(x.evidence.reason);
    match x
    case Edge(from, to, k, _) => [Size(from), Size(to), Size(EdgeTurn(k)), p, r]
    case Root(symbol, k, _) => [Size(symbol), Size(RootTurn(k)), p, r]
    case Escape(symbol, origin, k, _) =>
      [Size(symbol), Size(if origin.Some? then origin.value + 1 else 0), Size(EscapeTurn(k)), p, r]
    case Suppression(symbol, _) => [Size(symbol), p, r]
  }

  predicate SameKind<A>(x: Fact<A>, y: Fact<A>) {
    x.Edge? == y.Edge? && x.Root? == y.Root? && x.Escape? == y.Escape?
  }

  /** Facts of one kind are sorted as tuples: by ends, kind, provider and reason. */
  lemma FactOrder(x: Fact<nat>, y: Fact<nat>)
    requires SameKind(x, y)
    ensures FactLess(x, y) <==> TupleLess(FactTuple(x), FactTuple(y))
  {
    hide TupleLess, StringLess;
    var a, b := FactTuple(x), FactTuple(y);
    if x.Root? {
      Four(a[0], a[1], a[2], a[3], b[0], b[1], b[2], b[3]);
    } else if x.Suppression? {
      Three(a[0], a[1], a[2], b[0], b[1], b[2]);
    } else {
      Five(a[0], a[1], a[2], a[3], a[4], b[0], b[1], b[2], b[3], b[4]);
    }
  }

  /** The same with symbol keys in place of positions; a missing origin is an empty key. */
  function WrittenTuple(x: Fact<string>): seq<Item> {
    var p, r := Text(x.evidence.provider), Text(x.evidence.reason);
    match x
    case Edge(from, to, k, _) => [Text(from), Text(to), Size(EdgeTurn(k)), p, r]
    case Root(symbol, k, _) => [Text(symbol), Size(RootTurn(k)), p, r]
    case Escape(symbol, origin, k, _) => [Text(symbol), Text(if origin.Some? then origin.value else ""), Size(EscapeTurn(k)), p, r]
    case Suppression(symbol, _) => [Text(symbol), p, r]
  }

  lemma Irreflexive(s: string)
    ensures !StringLess(s, s)
  {
    StringTotal(s, s);
  }

  /** Facts of one kind are written in the order of such tuples. */
  lemma WrittenOrder(x: Fact<string>, y: Fact<string>)
    requires SameKind(x, y)
    ensures Artifact.WrittenBefore(x, y) <==> TupleLess(WrittenTuple(x), WrittenTuple(y))
  {
    hide TupleLess, StringLess;
    Irreflexive("");
    var a, b := WrittenTuple(x), WrittenTuple(y);
    if x.Root? {
      Four(a[0], a[1], a[2], a[3], b[0], b[1], b[2], b[3]);
    } else if x.Suppression? {
      Three(a[0], a[1], a[2], b[0], b[1], b[2]);
    } else {
      Five(a[0], a[1], a[2], a[3], a[4], b[0], b[1], b[2], b[3], b[4]);
    }
  }

  // ---- components and findings

  /** The members of a component are sorted by qualified name, then signature. */
  lemma MembersByName(symbols: seq<Symbol>, i: nat, j: nat)
    requires i < |symbols| && j < |symbols|
    ensures Arrangement.MemberOrder(symbols)(i, j) <==>
      TupleLess([Text(symbols[i].qualifiedName), Text(symbols[i].signature)], [Text(symbols[j].qualifiedName), Text(symbols[j].signature)])
  {
    hide TupleLess, StringLess;
    Irreflexive(symbols[i].qualifiedName);
    Two(Text(symbols[i].qualifiedName), Text(symbols[i].signature), Text(symbols[j].qualifiedName), Text(symbols[j].signature));
  }

  function PointOf(s: Symbol): SourcePoint {
    if s.source.expansion.Some? then s.source.expansion.value.location else s.source.spelling.location
  }

  function PlaceTuple(s: Symbol): seq<Item> {
    [Text(PointOf(s).file), Size(PointOf(s).line), Size(PointOf(s).column), Text(s.key)]
  }

  /** Components are sorted by file, line, column and key of their first members. */
  lemma ComponentsByFront(symbols: seq<Symbol>, a: seq<nat>, b: seq<nat>)
    requires a != [] && b != [] && a[0] < |symbols| && b[0] < |symbols|
    ensures Arrangement.ComponentOrder(symbols)(a, b) <==> TupleLess(PlaceTuple(symbols[a[0]]), PlaceTuple(symbols[b[0]]))
  {
    hide TupleLess, StringLess;
    var p, q := PlaceTuple(symbols[a[0]]), PlaceTuple(symbols[b[0]]);
    Four(p[0], p[1], p[2], p[3], q[0], q[1], q[2], q[3]);
  }

  function FindingTuple(s: Symbol): seq<Item> {
    [Text(PointOf(s).file), Size(PointOf(s).line), Text(s.qualifiedName), Text(s.signature)]
  }

  /** Findings are sorted by file, line, qualified name and signature. */
  lemma FindingsByPlace(symbols: seq<Symbol>, a: Findings.Finding, b: Findings.Finding)
    requires a.symbol < |symbols| && b.symbol < |symbols|
    ensures ReportBuild.FindingOrder(symbols)(a, b) <==> TupleLess(FindingTuple(symbols[a.symbol]), FindingTuple(symbols[b.symbol]))
  {
    hide TupleLess, StringLess;
    Irreflexive("");
    var p, q := FindingTuple(symbols[a.symbol]), FindingTuple(symbols[b.symbol]);
    Four(p[0], p[1], p[2], p[3], q[0], q[1], q[2], q[3]);
  }

  /** Members of a reported component are sorted by key. */
  lemma MembersByKey(symbols: seq<Symbol>, a: Report.Member, b: Report.Member)
    requires a.symbol < |symbols| && b.symbol < |symbols|
    ensures ReportBuild.MemberOrder(symbols)(a, b) <==> TupleLess([Text(symbols[a.symbol].key)], [Text(symbols[b.symbol].key)])
  {
    hide TupleLess, StringLess;
    TupleLessFrom(Text(symbols[a.symbol].key), [], Text(symbols[b.symbol].key), []);
    assert forall x: Item :: [x] + [] == [x];
    NoTuples();
  }

  lemma NoTuples()
    ensures !TupleLess([], [])
  {
  }

  function EntryTuple(symbols: seq<Symbol>, e: Report.Entry): seq<Item> {
    [Text(KeyAt(symbols, e.symbol)), Text(if e.origin.Some? then KeyAt(symbols, e.origin.value) else ""),
     Text(e.evidence.provider), Text(e.evidence.reason)]
  }

  /** Entries are sorted by the keys of symbol and origin, provider and reason. */
  lemma EntriesByKey(symbols: seq<Symbol>, a: Report.Entry, b: Report.Entry)
    ensures Report.EntryOrder(symbols)(a, b) <==> TupleLess(EntryTuple(symbols, a), EntryTuple(symbols, b))
  {
    hide TupleLess, StringLess;
    var p, q := EntryTuple(symbols, a), EntryTuple(symbols, b);
    Four(p[0], p[1], p[2], p[3], q[0], q[1], q[2], q[3]);
  }
}
