/** Counting symbols and classifying the unreachable ones. */
module Findings {
  import opened Wrappers
  import opened Orders
  import opened Symbols
  import opened Facts
  import opened Analysis

  // ---- classification

  datatype Classification = Dead | LikelyDead | PossiblyDead | DynamicallyReferenced

  datatype FindingEvidence =
    | NoReachablePath
    | InternalLinkage
    | VirtualDispatchUncertainty
    | Escaped(kind: EscapeKind, origin: Option<nat>, evidence: Evidence)

  datatype Finding = Finding(symbol: nat, classification: Classification, evidence: seq<FindingEvidence>)

  /** The escapes of a symbol, in the order of the graph. */
  function EscapesOf(escapes: seq<Fact<nat>>, id: nat): seq<FindingEvidence> {
    if escapes == [] then []
    else
      var x := escapes[|escapes| - 1];
      var last := if x.Escape? && x.symbol == id then [Escaped(x.escapeKind, x.origin, x.evidence)] else [];
      EscapesOf(escapes[..|escapes| - 1], id) + last
  }

  function Classified(c: Contents, id: nat): Finding
    requires id < |c.symbols|
  {
    var escapes := EscapesOf(c.escapes, id);
    var s := c.symbols[id];
    if escapes != [] then Finding(id, DynamicallyReferenced, [NoReachablePath] + escapes)
    else if s.isVirtual then Finding(id, PossiblyDead, [NoReachablePath, VirtualDispatchUncertainty])
    else if s.internalLinkage then Finding(id, Dead, [NoReachablePath, InternalLinkage])
    else Finding(id, LikelyDead, [NoReachablePath])
  }

  method Classify(c: Contents, id: nat) returns (r: Finding)
    requires id < |c.symbols|
    ensures r == Classified(c, id)
  {
    var evidence := [NoReachablePath];
    var escaped := false;
    for i := 0 to |c.escapes|
      invariant evidence == [NoReachablePath] + EscapesOf(c.escapes[..i], id)
      invariant escaped <==> EscapesOf(c.escapes[..i], id) != []
    {
      assert c.escapes[..i + 1][..i] == c.escapes[..i];
      var x := c.escapes[i];
      if x.Escape? && x.symbol == id {
        escaped := true;
        evidence := evidence + [Escaped(x.escapeKind, x.origin, x.evidence)];
      }
    }
    assert c.escapes[..|c.escapes|] == c.escapes;
    var classification := LikelyDead;
    if escaped {
      classification := DynamicallyReferenced;
    } else if c.symbols[id].isVirtual {
      classification, evidence := PossiblyDead, evidence + [VirtualDispatchUncertainty];
    } else if c.symbols[id].internalLinkage {
      classification, evidence := Dead, evidence + [InternalLinkage];
    }
    r := Finding(id, classification, evidence);
  }

  lemma {:induction false} EscapesOfMembers(escapes: seq<Fact<nat>>, id: nat, e: FindingEvidence)
    ensures e in EscapesOf(escapes, id) <==> e.Escaped? && Escape(id, e.origin, e.kind, e.evidence) in escapes
  {
    if escapes != [] {
      var init, last := escapes[..|escapes| - 1], escapes[|escapes| - 1];
      EscapesOfMembers(init, id, e);
      assert escapes == init + [last];
      if last.Escape? && last.symbol == id && e.Escaped? && e == Escaped(last.escapeKind, last.origin, last.evidence) {
        assert Escape(id, e.origin, e.kind, e.evidence) == last;
      }
    }
  }

  /** A symbol is called dead only if it has internal linkage, is not virtual and does not escape;
      one that escapes is never called dead or likely dead. */
  lemma ClassificationMeaning(c: Contents, id: nat)
    requires id < |c.symbols|
    ensures var k := Classified(c, id).classification;
            var escapes := exists x: Fact<nat> :: x in c.escapes && x.Escape? && x.symbol == id;
            && (k == DynamicallyReferenced <==> escapes)
            && (k == PossiblyDead <==> !escapes && c.symbols[id].isVirtual)
            && (k == Dead <==> !escapes && !c.symbols[id].isVirtual && c.symbols[id].internalLinkage)
            && (k == LikelyDead <==> !escapes && !c.symbols[id].isVirtual && !c.symbols[id].internalLinkage)
  {
    var es := EscapesOf(c.escapes, id);
    if es != [] {
      EscapesOfMembers(c.escapes, id, es[0]);
      assert es[0] in es;
    }
    if x: Fact<nat> :| x in c.escapes && x.Escape? && x.symbol == id {
      EscapesOfMembers(c.escapes, id, Escaped(x.escapeKind, x.origin, x.evidence));
    }
  }

  /** The positions in at, in ascending order, are those of the escapes of the symbol. */
  ghost predicate EscapesAt(escapes: seq<Fact<nat>>, id: nat, at: seq<nat>) {
    && (forall k, l :: 0 <= k < l < |at| ==> at[k] < at[l])
    && (forall i: nat :: i in at <==> i < |escapes| && escapes[i].Escape? && escapes[i].symbol == id)
  }

  predicate IsEscapeAt(e: FindingEvidence, escapes: seq<Fact<nat>>, i: nat) {
    i < |escapes| && escapes[i].Escape? && e == Escaped(escapes[i].escapeKind, escapes[i].origin, escapes[i].evidence)
  }

  lemma {:induction false} EscapesInOrder(escapes: seq<Fact<nat>>, id: nat) returns (at: seq<nat>)
    ensures EscapesAt(escapes, id, at) && |EscapesOf(escapes, id)| == |at|
    ensures forall k :: 0 <= k < |at| ==> IsEscapeAt(EscapesOf(escapes, id)[k], escapes, at[k])
  {
    if escapes == [] {
      at := [];
    } else {
      var n := |escapes| - 1;
      var init := EscapesInOrder(escapes[..n], id);
      assert forall i :: 0 <= i < n ==> escapes[..n][i] == escapes[i];
      at := init + if escapes[n].Escape? && escapes[n].symbol == id then [n] else [];
      forall k | 0 <= k < |init| ensures init[k] < n && IsEscapeAt(EscapesOf(escapes[..n], id)[k], escapes, init[k]) {
        assert init[k] in init;
      }
    }
  }

  /** The evidence of a finding: that there is no path comes first; then every escape of the symbol, in
      the order of the graph; and without escapes the one reason for the classification, if any. */
  lemma EvidenceMeaning(c: Contents, id: nat) returns (at: seq<nat>)
    requires id < |c.symbols|
    ensures EscapesAt(c.escapes, id, at)
    ensures var e := Classified(c, id).evidence;
            && (at != [] ==> |e| == 1 + |at|)
            && (at != [] ==> forall k :: 0 <= k < |at| ==> IsEscapeAt(e[1 + k], c.escapes, at[k]))
            && (at == [] ==> e[1..] == if c.symbols[id].isVirtual then [VirtualDispatchUncertainty]
                                       else if c.symbols[id].internalLinkage then [InternalLinkage] else [])
            && e[0] == NoReachablePath
  {
    at := EscapesInOrder(c.escapes, id);
  }

  function EvidencesOf(suppressions: seq<Fact<nat>>, id: nat): seq<Evidence> {
    if suppressions == [] then []
    else
      var x := suppressions[|suppressions| - 1];
      var last := if x.Suppression? && x.symbol == id then [x.evidence] else [];
      EvidencesOf(suppressions[..|suppressions| - 1], id) + last
  }

  predicate IsSuppressionAt(e: Evidence, suppressions: seq<Fact<nat>>, i: nat, id: nat) {
    i < |suppressions| && suppressions[i].Suppression? && suppressions[i].symbol == id && e == suppressions[i].evidence
  }

  /** The suppressions of a symbol are told once each, in the order of the graph. */
  lemma {:induction false} SuppressionsInOrder(suppressions: seq<Fact<nat>>, id: nat) returns (at: seq<nat>)
    ensures forall k, l :: 0 <= k < l < |at| ==> at[k] < at[l]
    ensures forall i: nat :: i in at <==> i < |suppressions| && suppressions[i].Suppression? && suppressions[i].symbol == id
    ensures |EvidencesOf(suppressions, id)| == |at|
    ensures forall k :: 0 <= k < |at| ==> IsSuppressionAt(EvidencesOf(suppressions, id)[k], suppressions, at[k], id)
  {
    if suppressions == [] {
      at := [];
    } else {
      var n := |suppressions| - 1;
      var init := SuppressionsInOrder(suppressions[..n], id);
      assert forall i :: 0 <= i < n ==> suppressions[..n][i] == suppressions[i];
      at := init + if suppressions[n].Suppression? && suppressions[n].symbol == id then [n] else [];
      forall k | 0 <= k < |init| ensures init[k] < n && IsSuppressionAt(EvidencesOf(suppressions[..n], id)[k], suppressions, init[k], id) {
        assert init[k] in init;
      }
    }
  }

  method CollectSuppressions(c: Contents, id: nat) returns (r: seq<Evidence>)
    ensures r == EvidencesOf(c.suppressions, id)
    ensures r != [] <==> id in SuppressedIds(c)
  {
    r := [];
    for i := 0 to |c.suppressions|
      invariant r == EvidencesOf(c.suppressions[..i], id)
      invariant r != [] <==> exists j :: 0 <= j < i && c.suppressions[j].Suppression? && c.suppressions[j].symbol == id
    {
      assert c.suppressions[..i + 1][..i] == c.suppressions[..i];
      var x := c.suppressions[i];
      if x.Suppression? && x.symbol == id { r := r + [x.evidence]; }
    }
    assert c.suppressions[..|c.suppressions|] == c.suppressions;
    if x: Fact<nat> :| x in c.suppressions && x.Suppression? && x.symbol == id {
      var j :| 0 <= j < |c.suppressions| && c.suppressions[j] == x;
    }
  }

  // ---- the sets that are counted

  predicate IsDefinition(s: Symbol) {
    s.defined && s.scope == Reportable && s.kind != Synthetic
  }

  ghost function Definitions(c: Contents): set<nat> {
    set i: nat | i < |c.symbols| && IsDefinition(c.symbols[i])
  }

  ghost function InScope(c: Contents, scope: SymbolScope): set<nat> {
    set i: nat | i < |c.symbols| && c.symbols[i].scope == scope
  }

  ghost function ApiRoots(c: Contents): set<nat> {
    set x | x in c.roots && x.Root? && x.rootKind == PublicApi :: x.symbol
  }

  ghost function SuppressedIds(c: Contents): set<nat> {
    set x | x in c.suppressions && x.Suppression? :: x.symbol
  }

  ghost function MarkedIds(marks: seq<bool>): set<nat> {
    set i: nat | i < |marks| && marks[i]
  }

  datatype Counts = Counts(
    reportable: nat, indexed: nat, externalOpaque: nat, defined: nat, publicApi: nat,
    reachable: nat, internalLive: nat, provider: nat, structural: nat,
    unreachable: nat, internalUnreachable: nat, actionable: nat, suppressed: nat)

  ghost function Below(s: set<nat>, n: nat): set<nat> {
    set i | i in s && i < n
  }

  lemma BelowNext(s: set<nat>, n: nat)
    ensures |Below(s, n + 1)| == |Below(s, n)| + if n in s then 1 else 0
  {
    assert Below(s, n + 1) == if n in s then Below(s, n) + {n} else Below(s, n);
  }

  lemma BelowNone(s: set<nat>)
    ensures |Below(s, 0)| == 0
  {
    assert Below(s, 0) == {};
  }

  lemma BelowAll(s: set<nat>, n: nat)
    requires forall i :: i in s ==> i < n
    ensures Below(s, n) == s
  {
  }

  /** Each count is the size of its set, cut off at n. */
  ghost predicate CountedScopes(c: Contents, k: Counts, n: nat) {
    && k.reportable == |Below(InScope(c, Reportable), n)| && k.indexed == |Below(InScope(c, Indexed), n)|
    && k.externalOpaque == |Below(InScope(c, ExternalOpaque), n)|
  }

  ghost predicate CountedLive(c: Contents, r: Reachability, k: Counts, n: nat) {
    var d, live := Definitions(c), Definitions(c) * MarkedIds(r.reachable);
    && k.defined == |Below(d, n)| && k.publicApi == |Below(d * ApiRoots(c), n)|
    && k.reachable == |Below(live, n)| && k.internalLive == |Below(live - ApiRoots(c), n)|
    && k.provider == |Below(live * MarkedIds(r.provider), n)| && k.structural == |Below(live - MarkedIds(r.provider), n)|
  }

  ghost predicate CountedDead(c: Contents, r: Reachability, k: Counts, n: nat) {
    var dead := Definitions(c) - MarkedIds(r.reachable);
    && k.unreachable == k.internalUnreachable == |Below(dead, n)|
    && k.actionable == |Below(dead - SuppressedIds(c), n)| && k.suppressed == |Below(dead * SuppressedIds(c), n)|
  }

  ghost predicate Counted(c: Contents, r: Reachability, k: Counts, n: nat) {
    CountedScopes(c, k, n) && CountedLive(c, r, k, n) && CountedDead(c, r, k, n)
  }

  /** What one symbol adds to the counts. */
  function CountOne(s: Symbol, api: bool, reachable: bool, provider: bool, suppressed: bool, k: Counts): Counts {
    var k := match s.scope
      case Reportable => k.(reportable := k.reportable + 1)
      case Indexed => k.(indexed := k.indexed + 1)
      case ExternalOpaque => k.(externalOpaque := k.externalOpaque + 1)
      case Excluded => k;
    if !IsDefinition(s) then k
    else
      var k := k.(defined := k.defined + 1, publicApi := k.publicApi + if api then 1 else 0);
      if reachable then
        k.(reachable := k.reachable + 1, internalLive := k.internalLive + (if api then 0 else 1),
           provider := k.provider + (if provider then 1 else 0), structural := k.structural + (if provider then 0 else 1))
      else
        k.(unreachable := k.unreachable + 1, internalUnreachable := k.internalUnreachable + 1,
           actionable := k.actionable + (if suppressed then 0 else 1), suppressed := k.suppressed + (if suppressed then 1 else 0))
  }

  const NO_COUNTS := Counts(0, 0, 0, 0, 0, 0, 0, 0, 0, 0, 0, 0, 0)

  lemma CountedNone(c: Contents, r: Reachability)
    ensures Counted(c, r, NO_COUNTS, 0)
  {
    forall s ensures |Below(s, 0)| == 0 { BelowNone(s); }
  }

  predicate Sized(c: Contents, r: Reachability) {
    |r.reachable| == |r.provider| == |c.symbols|
  }

  lemma ScopesNext(c: Contents, k: Counts, id: nat, api: bool, reachable: bool, provider: bool, suppressed: bool)
    requires id < |c.symbols| && CountedScopes(c, k, id)
    ensures CountedScopes(c, CountOne(c.symbols[id], api, reachable, provider, suppressed, k), id + 1)
  {
    hide Below;
    BelowNext(InScope(c, Reportable), id);
    BelowNext(InScope(c, Indexed), id);
    BelowNext(InScope(c, ExternalOpaque), id);
  }

  lemma LiveNext(c: Contents, r: Reachability, k: Counts, id: nat, suppressed: bool)
    requires Sized(c, r) && id < |c.symbols| && CountedLive(c, r, k, id)
    ensures CountedLive(c, r, CountOne(c.symbols[id], id in ApiRoots(c), r.reachable[id], r.provider[id], suppressed, k), id + 1)
  {
    hide Below, ApiRoots, IsDefinition;
    var d, live := Definitions(c), Definitions(c) * MarkedIds(r.reachable);
    BelowNext(d, id);
    BelowNext(d * ApiRoots(c), id);
    BelowNext(live, id);
    BelowNext(live - ApiRoots(c), id);
    BelowNext(live * MarkedIds(r.provider), id);
    BelowNext(live - MarkedIds(r.provider), id);
  }

  lemma DeadNext(c: Contents, r: Reachability, k: Counts, id: nat, api: bool, provider: bool)
    requires Sized(c, r) && id < |c.symbols| && CountedDead(c, r, k, id)
    ensures CountedDead(c, r, CountOne(c.symbols[id], api, r.reachable[id], provider, id in SuppressedIds(c), k), id + 1)
  {
    hide Below, SuppressedIds, IsDefinition;
    var dead := Definitions(c) - MarkedIds(r.reachable);
    BelowNext(dead, id);
    BelowNext(dead - SuppressedIds(c), id);
    BelowNext(dead * SuppressedIds(c), id);
  }

  lemma CountedNext(c: Contents, r: Reachability, k: Counts, id: nat)
    requires Sized(c, r) && id < |c.symbols| && Counted(c, r, k, id)
    ensures Counted(c, r,
      CountOne(c.symbols[id], id in ApiRoots(c), r.reachable[id], r.provider[id], id in SuppressedIds(c), k), id + 1)
  {
    hide CountedScopes, CountedLive, CountedDead, CountOne, ApiRoots, SuppressedIds;
    ScopesNext(c, k, id, id in ApiRoots(c), r.reachable[id], r.provider[id], id in SuppressedIds(c));
    LiveNext(c, r, k, id, id in SuppressedIds(c));
    DeadNext(c, r, k, id, id in ApiRoots(c), r.provider[id]);
  }

  /** The final counts are the sizes of whole sets. */
  lemma CountedAll(c: Contents, r: Reachability, k: Counts)
    requires Sized(c, r) && Counted(c, r, k, |c.symbols|)
    ensures var d := Definitions(c);
            var live, dead := d * MarkedIds(r.reachable), d - MarkedIds(r.reachable);
            && k.defined == |d| && k.publicApi == |d * ApiRoots(c)| && k.reachable == |live|
            && k.internalLive == |live - ApiRoots(c)| && k.provider == |live * MarkedIds(r.provider)|
            && k.structural == |live - MarkedIds(r.provider)|
            && k.unreachable == k.internalUnreachable == |dead|
            && k.actionable == |dead - SuppressedIds(c)| && k.suppressed == |dead * SuppressedIds(c)|
            && k.reportable == |InScope(c, Reportable)| && k.indexed == |InScope(c, Indexed)|
            && k.externalOpaque == |InScope(c, ExternalOpaque)|
  {
    hide Below, ApiRoots, SuppressedIds, MarkedIds, Definitions, InScope;
    var n := |c.symbols|;
    DefinitionsInRange(c);
    var d := Definitions(c);
    var live, dead := d * MarkedIds(r.reachable), d - MarkedIds(r.reachable);
    BelowAll(d, n);
    BelowAll(d * ApiRoots(c), n);
    BelowAll(live, n);
    BelowAll(live - ApiRoots(c), n);
    BelowAll(live * MarkedIds(r.provider), n);
    BelowAll(live - MarkedIds(r.provider), n);
    BelowAll(dead, n);
    BelowAll(dead - SuppressedIds(c), n);
    BelowAll(dead * SuppressedIds(c), n);
    BelowAll(InScope(c, Reportable), n);
    BelowAll(InScope(c, Indexed), n);
    BelowAll(InScope(c, ExternalOpaque), n);
  }

  lemma DefinitionsInRange(c: Contents)
    ensures forall i :: i in Definitions(c) ==> i < |c.symbols|
    ensures forall scope, i :: i in InScope(c, scope) ==> i < |c.symbols|
  {
  }

  // ---- the loop over the symbols

  datatype SuppressedFinding = SuppressedFinding(finding: Finding, suppressions: seq<Evidence>)

  /** The unreachable definitions below n, split by whether they are suppressed. */
  ghost predicate FoundBelow(c: Contents, r: Reachability, n: nat, findings: seq<Finding>, suppressed: seq<SuppressedFinding>)
    requires Sized(c, r) && n <= |c.symbols|
  {
    var dead := Definitions(c) - MarkedIds(r.reachable);
    && (forall i :: 0 <= i < |findings| ==> findings[i].symbol < n && findings[i] == Classified(c, findings[i].symbol))
    && (forall i :: 0 <= i < |suppressed| ==>
          && suppressed[i].finding.symbol < n
          && suppressed[i].finding == Classified(c, suppressed[i].finding.symbol)
          && suppressed[i].suppressions == EvidencesOf(c.suppressions, suppressed[i].finding.symbol))
    && (forall i, j :: 0 <= i < j < |findings| ==> findings[i].symbol < findings[j].symbol)
    && (forall i, j :: 0 <= i < j < |suppressed| ==> suppressed[i].finding.symbol < suppressed[j].finding.symbol)
    && (forall id: nat :: id < n ==> (id in dead - SuppressedIds(c) <==> HasFinding(findings, id)))
    && (forall id: nat :: id < n ==> (id in dead * SuppressedIds(c) <==> HasSuppressed(suppressed, id)))
  }

  ghost predicate HasFinding(findings: seq<Finding>, id: nat) {
    exists i :: 0 <= i < |findings| && findings[i].symbol == id
  }

  ghost predicate HasSuppressed(suppressed: seq<SuppressedFinding>, id: nat) {
    exists i :: 0 <= i < |suppressed| && suppressed[i].finding.symbol == id
  }

  lemma HasFindingNext(findings: seq<Finding>, f: Finding, id: nat)
    ensures HasFinding(findings + [f], id) <==> HasFinding(findings, id) || f.symbol == id
  {
    if HasFinding(findings, id) {
      var i :| 0 <= i < |findings| && findings[i].symbol == id;
      assert (findings + [f])[i] == findings[i];
    }
    assert (findings + [f])[|findings|] == f;
  }

  lemma HasSuppressedNext(suppressed: seq<SuppressedFinding>, f: SuppressedFinding, id: nat)
    ensures HasSuppressed(suppressed + [f], id) <==> HasSuppressed(suppressed, id) || f.finding.symbol == id
  {
    if HasSuppressed(suppressed, id) {
      var i :| 0 <= i < |suppressed| && suppressed[i].finding.symbol == id;
      assert (suppressed + [f])[i] == suppressed[i];
    }
    assert (suppressed + [f])[|suppressed|] == f;
  }

  lemma FoundNext(c: Contents, r: Reachability, id: nat, findings: seq<Finding>, suppressed: seq<SuppressedFinding>)
    requires Sized(c, r) && id < |c.symbols| && FoundBelow(c, r, id, findings, suppressed)
    ensures var dead := id in Definitions(c) - MarkedIds(r.reachable);
            var f := Classified(c, id);
            && (!dead ==> FoundBelow(c, r, id + 1, findings, suppressed))
            && (dead && id !in SuppressedIds(c) ==> FoundBelow(c, r, id + 1, findings + [f], suppressed))
            && (dead && id in SuppressedIds(c) ==>
                  FoundBelow(c, r, id + 1, findings, suppressed + [SuppressedFinding(f, EvidencesOf(c.suppressions, id))]))
  {
    hide Classified, EvidencesOf, SuppressedIds, Definitions, MarkedIds, HasFinding, HasSuppressed;
    var f := Classified(c, id);
    var s := SuppressedFinding(f, EvidencesOf(c.suppressions, id));
    ClassifiedSymbol(c, id);
    forall x: nat ensures HasFinding(findings + [f], x) <==> HasFinding(findings, x) || x == id { HasFindingNext(findings, f, x); }
    forall x: nat ensures HasSuppressed(suppressed + [s], x) <==> HasSuppressed(suppressed, x) || x == id { HasSuppressedNext(suppressed, s, x); }
    NotYet(findings, suppressed, id);
  }

  lemma ClassifiedSymbol(c: Contents, id: nat)
    requires id < |c.symbols|
    ensures Classified(c, id).symbol == id
  {
  }

  lemma NotYet(findings: seq<Finding>, suppressed: seq<SuppressedFinding>, id: nat)
    requires forall i :: 0 <= i < |findings| ==> findings[i].symbol < id
    requires forall i :: 0 <= i < |suppressed| ==> suppressed[i].finding.symbol < id
    ensures !HasFinding(findings, id) && !HasSuppressed(suppressed, id)
  {
  }

  /** Counts every symbol and classifies the unreachable definitions. */
  method Survey(c: Contents, r: Reachability, publicApiRoot: seq<bool>)
    returns (k: Counts, findings: seq<Finding>, suppressed: seq<SuppressedFinding>, suppressedSymbol: seq<bool>)
    requires Sized(c, r) && |publicApiRoot| == |c.symbols|
    requires forall i: nat :: i < |c.symbols| ==> (publicApiRoot[i] <==> i in ApiRoots(c))
    ensures Counted(c, r, k, |c.symbols|)
    ensures FoundBelow(c, r, |c.symbols|, findings, suppressed)
    ensures |suppressedSymbol| == |c.symbols|
    ensures forall i: nat :: i < |c.symbols| ==>
      (suppressedSymbol[i] <==> i in (Definitions(c) - MarkedIds(r.reachable)) * SuppressedIds(c))
  {
    hide Counted, FoundBelow, Classified, EvidencesOf, SuppressedIds, ApiRoots;
    k, findings, suppressed := NO_COUNTS, [], [];
    suppressedSymbol := seq(|c.symbols|, _ => false);
    CountedNone(c, r);
    FoundNone(c, r);
    for id := 0 to |c.symbols|
      invariant Counted(c, r, k, id) && FoundBelow(c, r, id, findings, suppressed)
      invariant |suppressedSymbol| == |c.symbols|
      invariant forall i: nat :: i < |c.symbols| ==>
        (suppressedSymbol[i] <==> i < id && i in (Definitions(c) - MarkedIds(r.reachable)) * SuppressedIds(c))
    {
      var s := c.symbols[id];
      CountedNext(c, r, k, id);
      FoundNext(c, r, id, findings, suppressed);
      var isSuppressed := false;
      if IsDefinition(s) && !r.reachable[id] {
        var finding := Classify(c, id);
        var suppressions := CollectSuppressions(c, id);
        if suppressions == [] {
          findings := findings + [finding];
        } else {
          isSuppressed := true;
          suppressed := suppressed + [SuppressedFinding(finding, suppressions)];
          suppressedSymbol := suppressedSymbol[id := true];
        }
      }
      SuppressionUnused(s, publicApiRoot[id], r.reachable[id], r.provider[id], isSuppressed, id in SuppressedIds(c), k);
      k := CountOne(s, publicApiRoot[id], r.reachable[id], r.provider[id], isSuppressed, k);
    }
  }

  lemma SuppressionUnused(s: Symbol, api: bool, reachable: bool, provider: bool, a: bool, b: bool, k: Counts)
    requires IsDefinition(s) && !reachable ==> a == b
    ensures CountOne(s, api, reachable, provider, a, k) == CountOne(s, api, reachable, provider, b, k)
  {
  }

  lemma FoundNone(c: Contents, r: Reachability)
    requires Sized(c, r)
    ensures FoundBelow(c, r, 0, [], [])
  {
  }
}
