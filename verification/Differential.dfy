/** Comparing a baseline graph with the current one, symbol by symbol. */
module Differential {
  import opened Wrappers
  import opened Orders
  import opened Symbols
  import opened Facts
  import opened Analysis
  import opened Artifact
  import opened Findings
  import opened ReportBuild

  datatype ChangeKind = NewSymbol | NewlyUnreachable | Removed | BecameReachable

  datatype Policy = Policy(changes: seq<ChangeKind>, classifications: seq<Classification>, targets: seq<string>)

  /** Evidence that names the other symbol by key, or by the empty string. */
  datatype KeyedEvidence =
    | Plain(item: FindingEvidence)
    | EscapedTo(kind: EscapeKind, from: string, evidence: Evidence)

  datatype State = State(
    present: bool, reachable: bool, suppressed: bool, classification: Option<Classification>,
    evidence: seq<KeyedEvidence>, suppressions: seq<Evidence>)

  const ABSENT := State(false, false, false, None, [], [])

  datatype Change = Change(kind: ChangeKind, symbol: Symbol, baseline: State, current: State, policyMatch: bool)

  datatype Tally = Tally(newSymbols: nat, newlyUnreachable: nat, removed: nat, becameReachable: nat, policyMatches: nat)

  datatype DifferentialReport = DifferentialReport(changes: seq<Change>, tally: Tally)

  datatype ContextError = ConfigurationsDiffer | FrontendsDiffer | TargetsDiffer | PolicyNotForTarget

  // ---- how a key stands in one graph

  datatype Standing = Absent | Live | Unreachable

  function EligibleId(c: Contents, key: string): Option<nat> {
    match Find(c.symbols, key)
    case Some(id) => if IsDefinition(c.symbols[id]) then Some(id) else None
    case None => None
  }

  function StandingOf(c: Contents, r: Reachability, key: string): Standing
    requires Sized(c, r)
  {
    match EligibleId(c, key)
    case None => Absent
    case Some(id) => if r.reachable[id] then Live else Unreachable
  }

  /** What happened between two standings. */
  function Transition(b: Standing, c: Standing): Option<ChangeKind> {
    match (b, c)
    case (Absent, Absent) => None
    case (Absent, _) => Some(NewSymbol)
    case (_, Absent) => Some(Removed)
    case (Live, Unreachable) => Some(NewlyUnreachable)
    case (Unreachable, Live) => Some(BecameReachable)
    case _ => None
  }

  function KeyedEvidences(symbols: seq<Symbol>, list: seq<FindingEvidence>): seq<KeyedEvidence> {
    seq(|list|, i requires 0 <= i < |list| =>
      match list[i]
      case Escaped(k, origin, e) => EscapedTo(k, if origin.Some? then KeyAt(symbols, origin.value) else "", e)
      case _ => Plain(list[i]))
  }

  ghost function StateOf(c: Contents, r: Reachability, id: Option<nat>): State
    requires Sized(c, r) && (id.Some? ==> id.value < |c.symbols|)
  {
    if id.None? then ABSENT
    else if id.value in DeadDefinitions(c, r) then
      var f := Classified(c, id.value);
      State(true, r.reachable[id.value], id.value in SuppressedIds(c), Some(f.classification),
            KeyedEvidences(c.symbols, f.evidence), EvidencesOf(c.suppressions, id.value))
    else State(true, r.reachable[id.value], false, None, [], [])
  }

  // ---- looking symbols up

  method EligibleSymbols(c: Contents) returns (ids: map<string, nat>)
    requires Valid(c)
    ensures forall key :: (if key in ids then Some(ids[key]) else None) == EligibleId(c, key)
  {
    hide IsDefinition;
    assert DistinctKeys(c.symbols);
    ids := map[];
    for id := 0 to |c.symbols|
      invariant forall key :: key in ids ==> ids[key] < id && c.symbols[ids[key]].key == key && IsDefinition(c.symbols[ids[key]])
      invariant forall i: nat :: i < id && IsDefinition(c.symbols[i]) ==> c.symbols[i].key in ids && ids[c.symbols[i].key] == i
    {
      if IsDefinition(c.symbols[id]) { ids := ids[c.symbols[id].key := id]; }
    }
    forall key ensures (if key in ids then Some(ids[key]) else None) == EligibleId(c, key) {
      if key in ids { FindUnique(c.symbols, ids[key]); }
    }
  }

  method FindFinding(findings: seq<Finding>, id: nat) returns (r: Option<Finding>)
    ensures r.Some? <==> HasFinding(findings, id)
    ensures r.Some? ==> r.value in findings && r.value.symbol == id
  {
    for i := 0 to |findings|
      invariant forall j :: 0 <= j < i ==> findings[j].symbol != id
    {
      if findings[i].symbol == id { return Some(findings[i]); }
    }
    r := None;
  }

  method FindSuppressed(list: seq<SuppressedFinding>, id: nat) returns (r: Option<SuppressedFinding>)
    ensures r.Some? <==> HasSuppressed(list, id)
    ensures r.Some? ==> r.value in list && r.value.finding.symbol == id
  {
    for i := 0 to |list|
      invariant forall j :: 0 <= j < i ==> list[j].finding.symbol != id
    {
      if list[i].finding.symbol == id { return Some(list[i]); }
    }
    r := None;
  }

  lemma FindingMeans(c: Contents, r: Reachability, findings: seq<Finding>, f: Finding)
    requires ListsFindings(c, r, findings) && f in findings
    ensures f.symbol < |c.symbols| && f == Classified(c, f.symbol) && f.symbol in DeadDefinitions(c, r) - SuppressedIds(c)
  {
    hide FindingOrder, SortedBy, Classified, SuppressedIds, DeadDefinitions;
    var i :| 0 <= i < |findings| && findings[i] == f;
    assert HasFinding(findings, f.symbol);
  }

  lemma SuppressedMeans(c: Contents, r: Reachability, list: seq<SuppressedFinding>, f: SuppressedFinding)
    requires ListsSuppressed(c, r, list) && f in list
    ensures var id := f.finding.symbol;
            && id < |c.symbols| && f.finding == Classified(c, id) && f.suppressions == EvidencesOf(c.suppressions, id)
            && id in DeadDefinitions(c, r) && id in SuppressedIds(c)
  {
    hide SuppressedOrder, SortedBy, Classified, SuppressedIds, DeadDefinitions, EvidencesOf;
    var i :| 0 <= i < |list| && list[i] == f;
    assert HasSuppressed(list, f.finding.symbol);
  }

  lemma {:induction false} NoSuppressionNoEvidence(suppressions: seq<Fact<nat>>, id: nat)
    requires forall x: Fact<nat> :: x in suppressions && x.Suppression? ==> x.symbol != id
    ensures EvidencesOf(suppressions, id) == []
  {
    if suppressions != [] {
      var init := suppressions[..|suppressions| - 1];
      forall x: Fact<nat> | x in init && x.Suppression? ensures x.symbol != id { assert x in suppressions; }
      assert suppressions[|suppressions| - 1] in suppressions;
      NoSuppressionNoEvidence(init, id);
    }
  }

  /** The state of a symbol as the report tells it. */
  method SymbolState(c: Contents, r: Reachability, findings: seq<Finding>, suppressed: seq<SuppressedFinding>, id: Option<nat>)
    returns (s: State)
    requires Sized(c, r) && ListsFindings(c, r, findings) && ListsSuppressed(c, r, suppressed)
    requires id.Some? ==> id.value < |c.symbols|
    ensures s == StateOf(c, r, id)
  {
    hide ListsFindings, ListsSuppressed, DeadDefinitions, SuppressedIds, Classified, EvidencesOf, KeyedEvidences;
    if id.None? { return ABSENT; }
    DeadIsListed(c, r, findings, suppressed, id.value);
    var finding := FindFinding(findings, id.value);
    if finding.Some? {
      FindingMeans(c, r, findings, finding.value);
      NoEvidence(c, id.value);
      return State(true, r.reachable[id.value], false, Some(finding.value.classification),
                   KeyedEvidences(c.symbols, finding.value.evidence), []);
    }
    var hidden := FindSuppressed(suppressed, id.value);
    if hidden.Some? {
      SuppressedMeans(c, r, suppressed, hidden.value);
      return State(true, r.reachable[id.value], true, Some(hidden.value.finding.classification),
                   KeyedEvidences(c.symbols, hidden.value.finding.evidence), hidden.value.suppressions);
    }
    s := State(true, r.reachable[id.value], false, None, [], []);
  }

  lemma DeadIsListed(c: Contents, r: Reachability, findings: seq<Finding>, suppressed: seq<SuppressedFinding>, id: nat)
    requires ListsFindings(c, r, findings) && ListsSuppressed(c, r, suppressed)
    ensures id in DeadDefinitions(c, r) <==> HasFinding(findings, id) || HasSuppressed(suppressed, id)
  {
    hide FindingOrder, SuppressedOrder, SortedBy, Classified, SuppressedIds, DeadDefinitions, EvidencesOf, HasFinding, HasSuppressed;
  }

  lemma NoEvidence(c: Contents, id: nat)
    ensures id !in SuppressedIds(c) ==> EvidencesOf(c.suppressions, id) == []
  {
    if id !in SuppressedIds(c) { NoSuppressionNoEvidence(c.suppressions, id); }
  }

  // ---- contexts and policies

  function ContextProblem(baseline: Metadata, current: Metadata, policy: Option<Policy>): Option<ContextError> {
    if baseline.configurationId != current.configurationId then Some(ConfigurationsDiffer)
    else if baseline.frontend != current.frontend then Some(FrontendsDiffer)
    else if baseline.targetId != current.targetId || baseline.targetName != current.targetName || baseline.targetKind != current.targetKind
      then Some(TargetsDiffer)
    else if policy.Some? && policy.value.targets != [] && (current.targetName == [] || current.targetName !in policy.value.targets)
      then Some(PolicyNotForTarget)
    else None
  }

  predicate PolicyMatches(policy: Policy, current: Metadata, kind: ChangeKind, state: State) {
    && kind in policy.changes && !state.suppressed && state.classification.Some?
    && state.classification.value in policy.classifications
    && (policy.targets == [] || current.targetName in policy.targets)
  }

  // ---- the comparison

  /** One side: a graph and its marks. */
  datatype Side = Side(c: Contents, r: Reachability)

  ghost predicate SideOk(s: Side) {
    Valid(s.c) && Sized(s.c, s.r)
  }

  ghost function KindAt(b: Side, c: Side, key: string): Option<ChangeKind>
    requires Sized(b.c, b.r) && Sized(c.c, c.r)
  {
    Transition(StandingOf(b.c, b.r, key), StandingOf(c.c, c.r, key))
  }

  /** The change that is reported for a key whose standing changed. */
  ghost function ChangeAt(b: Side, c: Side, current: Metadata, policy: Option<Policy>, key: string): Change
    requires Sized(b.c, b.r) && Sized(c.c, c.r) && KindAt(b, c, key).Some?
  {
    var kind := KindAt(b, c, key).value;
    var i, j := EligibleId(b.c, key), EligibleId(c.c, key);
    var state := StateOf(c.c, c.r, j);
    Change(kind, if j.Some? then c.c.symbols[j.value] else b.c.symbols[i.value], StateOf(b.c, b.r, i), state,
           policy.Some? && PolicyMatches(policy.value, current, kind, state))
  }

  /** The changes at the given keys, in that order. */
  ghost function ChangesAt(b: Side, c: Side, current: Metadata, policy: Option<Policy>, keys: seq<string>): seq<Change>
    requires Sized(b.c, b.r) && Sized(c.c, c.r)
  {
    if keys == [] then []
    else
      var key := keys[|keys| - 1];
      var last := if KindAt(b, c, key).Some? then [ChangeAt(b, c, current, policy, key)] else [];
      ChangesAt(b, c, current, policy, keys[..|keys| - 1]) + last
  }

  function Count(changes: seq<Change>, kind: ChangeKind): nat {
    if changes == [] then 0
    else
      var last := if changes[|changes| - 1].kind == kind then 1 else 0;
      Count(changes[..|changes| - 1], kind) + last
  }

  function CountMatches(changes: seq<Change>): nat {
    if changes == [] then 0
    else
      var last := if changes[|changes| - 1].policyMatch then 1 else 0;
      CountMatches(changes[..|changes| - 1]) + last
  }

  ghost function TallyOf(changes: seq<Change>): Tally {
    Tally(Count(changes, NewSymbol), Count(changes, NewlyUnreachable), Count(changes, Removed), Count(changes, BecameReachable),
          CountMatches(changes))
  }

  ghost function EligibleKeys(c: Contents): set<string> {
    set s | s in c.symbols && IsDefinition(s) :: s.key
  }

  /** All eligible keys of both sides, each once, in order. */
  ghost predicate AllKeys(b: Contents, c: Contents, keys: seq<string>) {
    StrictlySortedBy(StringLess, keys) && forall k :: k in keys <==> k in EligibleKeys(b) + EligibleKeys(c)
  }

  ghost predicate DifferentialRight(b: Side, c: Side, current: Metadata, policy: Option<Policy>, r: DifferentialReport)
    requires Sized(b.c, b.r) && Sized(c.c, c.r)
  {
    && (exists keys :: AllKeys(b.c, c.c, keys) && r.changes == ChangesAt(b, c, current, policy, keys))
    && r.tally == TallyOf(r.changes)
  }

  lemma EligibleKey(c: Contents, key: string)
    requires Valid(c)
    ensures EligibleId(c, key).Some? <==> key in EligibleKeys(c)
  {
    hide IsDefinition;
    assert DistinctKeys(c.symbols);
    if key in EligibleKeys(c) {
      var s :| s in c.symbols && IsDefinition(s) && s.key == key;
      var i: nat :| i < |c.symbols| && c.symbols[i] == s;
      FindUnique(c.symbols, i);
    }
  }

  method UnionOfKeys(b: Contents, c: Contents) returns (keys: seq<string>)
    ensures AllKeys(b, c, keys)
  {
    hide StringLess, SortUnique, IsDefinition;
    var bs := KeysOf(b.symbols);
    var cs := KeysOf(c.symbols);
    StringOrder();
    SortUniqueSpec(StringLess, bs + cs);
    keys := SortUnique(StringLess, bs + cs);
  }

  method KeysOf(symbols: seq<Symbol>) returns (keys: seq<string>)
    ensures forall k :: k in keys <==> exists s :: s in symbols && IsDefinition(s) && s.key == k
  {
    hide IsDefinition;
    keys := [];
    for i := 0 to |symbols|
      invariant forall k :: k in keys <==> exists j :: 0 <= j < i && IsDefinition(symbols[j]) && symbols[j].key == k
    {
      if IsDefinition(symbols[i]) { keys := keys + [symbols[i].key]; }
    }
    forall k ensures k in keys <==> exists s :: s in symbols && IsDefinition(s) && s.key == k {
      if s :| s in symbols && IsDefinition(s) && s.key == k {
        var j :| 0 <= j < |symbols| && symbols[j] == s;
      }
    }
  }

  lemma ChangesNext(b: Side, c: Side, current: Metadata, policy: Option<Policy>, keys: seq<string>, i: nat)
    requires Sized(b.c, b.r) && Sized(c.c, c.r) && i < |keys|
    ensures ChangesAt(b, c, current, policy, keys[..i + 1]) == ChangesAt(b, c, current, policy, keys[..i])
      + if KindAt(b, c, keys[i]).Some? then [ChangeAt(b, c, current, policy, keys[i])] else []
  {
    hide KindAt, ChangeAt;
    assert keys[..i + 1][..i] == keys[..i];
  }

  function Bump(t: Tally, change: Change): Tally {
    var matches := t.policyMatches + if change.policyMatch then 1 else 0;
    match change.kind
    case NewSymbol => t.(newSymbols := t.newSymbols + 1, policyMatches := matches)
    case NewlyUnreachable => t.(newlyUnreachable := t.newlyUnreachable + 1, policyMatches := matches)
    case Removed => t.(removed := t.removed + 1, policyMatches := matches)
    case BecameReachable => t.(becameReachable := t.becameReachable + 1, policyMatches := matches)
  }

  lemma TallyNext(changes: seq<Change>, change: Change)
    ensures TallyOf(changes + [change]) == Bump(TallyOf(changes), change)
  {
    assert (changes + [change])[..|changes|] == changes;
  }

  method CompareKeys(b: Side, findings0: seq<Finding>, suppressed0: seq<SuppressedFinding>,
                     c: Side, findings1: seq<Finding>, suppressed1: seq<SuppressedFinding>,
                     current: Metadata, policy: Option<Policy>, keys: seq<string>)
    returns (r: DifferentialReport)
    requires SideOk(b) && ListsFindings(b.c, b.r, findings0) && ListsSuppressed(b.c, b.r, suppressed0)
    requires SideOk(c) && ListsFindings(c.c, c.r, findings1) && ListsSuppressed(c.c, c.r, suppressed1)
    requires forall k :: k in keys ==> k in EligibleKeys(b.c) + EligibleKeys(c.c)
    ensures r.changes == ChangesAt(b, c, current, policy, keys) && r.tally == TallyOf(r.changes)
  {
    hide ListsFindings, ListsSuppressed, StateOf, IsDefinition, PolicyMatches, Valid, ChangesAt, TallyOf, EligibleKeys;
    var baseline := EligibleSymbols(b.c);
    var present := EligibleSymbols(c.c);
    var changes: seq<Change>, tally := [], Tally(0, 0, 0, 0, 0);
    NoChanges(b, c, current, policy);
    for n := 0 to |keys|
      invariant changes == ChangesAt(b, c, current, policy, keys[..n]) && tally == TallyOf(changes)
    {
      var key := keys[n];
      assert key in keys;
      EligibleKey(b.c, key);
      EligibleKey(c.c, key);
      ChangesNext(b, c, current, policy, keys, n);
      var i := if key in baseline then Some(baseline[key]) else None;
      var j := if key in present then Some(present[key]) else None;
      var kind := None;
      if i.None? {
        kind := Some(NewSymbol);
      } else if j.None? {
        kind := Some(Removed);
      } else if b.r.reachable[i.value] && !c.r.reachable[j.value] {
        kind := Some(NewlyUnreachable);
      } else if !b.r.reachable[i.value] && c.r.reachable[j.value] {
        kind := Some(BecameReachable);
      }
      assert kind == KindAt(b, c, key);
      if kind.Some? {
        var before := SymbolState(b.c, b.r, findings0, suppressed0, i);
        var after := SymbolState(c.c, c.r, findings1, suppressed1, j);
        var change := Change(kind.value, if j.Some? then c.c.symbols[j.value] else b.c.symbols[i.value], before, after,
                             policy.Some? && PolicyMatches(policy.value, current, kind.value, after));
        TallyNext(changes, change);
        changes, tally := changes + [change], Bump(tally, change);
      }
    }
    assert keys[..|keys|] == keys;
    r := DifferentialReport(changes, tally);
  }

  lemma NoChanges(b: Side, c: Side, current: Metadata, policy: Option<Policy>)
    requires Sized(b.c, b.r) && Sized(c.c, c.r)
    ensures forall keys: seq<string> :: keys == [] ==> ChangesAt(b, c, current, policy, keys) == []
    ensures TallyOf([]) == Tally(0, 0, 0, 0, 0)
  {
  }

  /** The differential report of a baseline artifact against a graph that has been analysed and
      reported on. The baseline is analysed here. */
  method BuildDifferentialReport(baseline: Artifact, c: Contents, r: Reachability, report: AnalysisReport,
                                 current: Metadata, policy: Option<Policy>, parent: string -> string)
    returns (d: Result<DifferentialReport, ContextError>)
    requires Valid(baseline.graph) && Valid(c) && Sized(c, r)
    requires ListsFindings(c, r, report.findings) && ListsSuppressed(c, r, report.suppressedFindings)
    ensures match ContextProblem(baseline.metadata, current, policy)
            case Some(e) => d == Err(e)
            case None => d.Ok?
    ensures d.Ok? ==> exists marks ::
      && MarksCorrect(baseline.graph, marks) && Sized(baseline.graph, marks)
      && DifferentialRight(Side(baseline.graph, marks), Side(c, r), current, policy, d.value)
  {
    hide Valid, MarksCorrect, DeadGraphCorrect, ListsFindings, ListsSuppressed, Counted, ComponentsRight, ChangesAt, TallyOf, AllKeys;
    var problem := ContextProblem(baseline.metadata, current, policy);
    if problem.Some? { return Err(problem.value); }
    var r0 := AnalyzeReachability(baseline.graph);
    MarksAreSized(baseline.graph, r0);
    var report0 := BuildReport(baseline.graph, r0, parent);
    var keys := UnionOfKeys(baseline.graph, c);
    KeysAreEligible(baseline.graph, c, keys);
    var compared := CompareKeys(Side(baseline.graph, r0), report0.findings, report0.suppressedFindings,
                                Side(c, r), report.findings, report.suppressedFindings, current, policy, keys);
    assert DifferentialRight(Side(baseline.graph, r0), Side(c, r), current, policy, compared);
    d := Ok(compared);
  }

  lemma KeysAreEligible(b: Contents, c: Contents, keys: seq<string>)
    requires AllKeys(b, c, keys)
    ensures forall k :: k in keys ==> k in EligibleKeys(b) + EligibleKeys(c)
  {
  }

  lemma MarksAreSized(c: Contents, r: Reachability)
    requires MarksCorrect(c, r)
    ensures Sized(c, r)
  {
  }
}
