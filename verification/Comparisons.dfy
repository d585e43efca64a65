/** What a comparison reports, told from the two graphs, their marks and the findings of the current
    report alone. */
module Comparisons {
  import opened Wrappers
  import opened Orders
  import opened Symbols
  import opened Facts
  import opened Analysis
  import opened Artifact
  import opened Findings
  import opened ReportBuild
  import opened Differential
  import opened DifferentialLaws

  // ---- kinds of change

  /** Position i holds a definition that is reported on, with this key. */
  predicate DefinesAt(s: Side, key: string, i: nat) {
    && i < |s.c.symbols| && s.c.symbols[i].key == key
    && s.c.symbols[i].defined && s.c.symbols[i].scope == Reportable && s.c.symbols[i].kind != Synthetic
  }

  predicate Defines(s: Side, key: string) {
    exists i :: 0 <= i < |s.c.symbols| && DefinesAt(s, key, i)
  }

  predicate DefinesAs(s: Side, key: string, reachable: bool) {
    exists i :: 0 <= i < |s.c.symbols| && DefinesAt(s, key, i) && i < |s.r.reachable| && s.r.reachable[i] == reachable
  }

  lemma EligibleMeans(s: Side, key: string)
    requires SideOk(s)
    ensures EligibleId(s.c, key).Some? <==> Defines(s, key)
    ensures EligibleId(s.c, key).Some? ==> DefinesAt(s, key, EligibleId(s.c, key).value)
    ensures forall i: nat :: DefinesAt(s, key, i) ==> EligibleId(s.c, key) == Some(i)
  {
    assert DistinctKeys(s.c.symbols);
    forall i: nat | DefinesAt(s, key, i) ensures EligibleId(s.c, key) == Some(i) { FindUnique(s.c.symbols, i); }
    if EligibleId(s.c, key).Some? { assert DefinesAt(s, key, EligibleId(s.c, key).value); }
  }

  lemma StandingMeans(s: Side, key: string)
    requires SideOk(s)
    ensures StandingOf(s.c, s.r, key) == Absent <==> !Defines(s, key)
    ensures StandingOf(s.c, s.r, key) == Live <==> DefinesAs(s, key, true)
    ensures StandingOf(s.c, s.r, key) == Unreachable <==> DefinesAs(s, key, false)
  {
    hide EligibleId, DefinesAt, Valid;
    EligibleMeans(s, key);
    if EligibleId(s.c, key).Some? {
      var i := EligibleId(s.c, key).value;
      DefinedInRange(s, key, i);
    }
    forall i: nat | DefinesAt(s, key, i) ensures EligibleId(s.c, key) == Some(i) {}
  }

  lemma DefinedInRange(s: Side, key: string, i: nat)
    requires DefinesAt(s, key, i)
    ensures i < |s.c.symbols|
  {
  }

  /** A key is new, removed, newly unreachable or became reachable exactly when its definitions in the
      two graphs say so. */
  lemma KindMeans(b: Side, c: Side, key: string)
    requires SideOk(b) && SideOk(c)
    ensures KindAt(b, c, key) == Some(NewSymbol) <==> !Defines(b, key) && Defines(c, key)
    ensures KindAt(b, c, key) == Some(Removed) <==> Defines(b, key) && !Defines(c, key)
    ensures KindAt(b, c, key) == Some(NewlyUnreachable) <==> DefinesAs(b, key, true) && DefinesAs(c, key, false)
    ensures KindAt(b, c, key) == Some(BecameReachable) <==> DefinesAs(b, key, false) && DefinesAs(c, key, true)
  {
    hide StandingOf, Defines, DefinesAs, Valid;
    StandingMeans(b, key);
    StandingMeans(c, key);
  }

  // ---- policy matches

  /** Position i of the current findings is about the key and has a classification of the policy. */
  predicate FoundBy(policy: Policy, c: Side, findings: seq<Finding>, key: string, i: nat) {
    && i < |findings| && findings[i].symbol < |c.c.symbols| && c.c.symbols[findings[i].symbol].key == key
    && findings[i].classification in policy.classifications
  }

  /** The change at the key is of a kind that the policy names, the key's symbol is an unsuppressed
      finding of the current report with a classification that the policy names, and the policy is for
      all targets or for this one. */
  predicate Gated(policy: Policy, current: Metadata, c: Side, findings: seq<Finding>, kind: ChangeKind, key: string) {
    && kind in policy.changes
    && (exists i :: 0 <= i < |findings| && FoundBy(policy, c, findings, key, i))
    && (policy.targets == [] || current.targetName in policy.targets)
  }

  lemma StateTold(c: Side, findings: seq<Finding>, policy: Policy, key: string)
    requires SideOk(c) && ListsFindings(c.c, c.r, findings)
    ensures var s := StateOf(c.c, c.r, EligibleId(c.c, key));
            !s.suppressed && s.classification.Some? && s.classification.value in policy.classifications
            <==> exists i :: 0 <= i < |findings| && FoundBy(policy, c, findings, key, i)
  {
    hide ListsFindings, Classified, KeyedEvidences, EvidencesOf, SuppressedIds, Valid;
    var id := EligibleId(c.c, key);
    EligibleMeans(c, key);
    if id.Some? { FindingListed(c.c, c.r, findings, id.value); }
    if i :| 0 <= i < |findings| && FoundBy(policy, c, findings, key, i) {
      assert findings[i] in findings;
      FindingMeans(c.c, c.r, findings, findings[i]);
      assert DefinesAt(c, key, findings[i].symbol);
    }
    if id.Some? && id.value in DeadDefinitions(c.c, c.r) && id.value !in SuppressedIds(c.c) {
      var i :| 0 <= i < |findings| && findings[i].symbol == id.value;
      assert findings[i] in findings;
      FindingMeans(c.c, c.r, findings, findings[i]);
      assert FoundBy(policy, c, findings, key, i) <==> findings[i].classification in policy.classifications;
    }
  }

  /** A change is a policy match exactly when it is gated in this sense; without a policy none is. */
  lemma MatchIff(b: Side, c: Side, current: Metadata, policy: Option<Policy>, findings: seq<Finding>, key: string)
    requires SideOk(b) && SideOk(c) && ListsFindings(c.c, c.r, findings) && KindAt(b, c, key).Some?
    ensures ChangeAt(b, c, current, policy, key).policyMatch <==>
      policy.Some? && Gated(policy.value, current, c, findings, KindAt(b, c, key).value, key)
  {
    hide StateOf, KindAt, ListsFindings, EligibleId, FoundBy, Valid;
    if policy.Some? { StateTold(c, findings, policy.value, key); }
  }

  /** The keys whose change is gated. */
  ghost function GatedKeys(b: Side, c: Side, current: Metadata, policy: Option<Policy>, findings: seq<Finding>, keys: set<string>): set<string>
    requires Sized(b.c, b.r) && Sized(c.c, c.r)
  {
    set k | k in keys && KindAt(b, c, k).Some? && policy.Some? && Gated(policy.value, current, c, findings, KindAt(b, c, k).value, k)
  }

  lemma MatchesAppend(changes: seq<Change>, x: Change)
    ensures CountMatches(changes + [x]) == CountMatches(changes) + if x.policyMatch then 1 else 0
  {
    assert (changes + [x])[..|changes|] == changes;
  }

  lemma GatedLast(b: Side, c: Side, current: Metadata, policy: Option<Policy>, findings: seq<Finding>, init: seq<string>, last: string)
    requires Sized(b.c, b.r) && Sized(c.c, c.r) && last !in init
    ensures var before := GatedKeys(b, c, current, policy, findings, set k | k in init);
            && GatedKeys(b, c, current, policy, findings, set k | k in init + [last]) ==
                 (if KindAt(b, c, last).Some? && policy.Some? && Gated(policy.value, current, c, findings, KindAt(b, c, last).value, last)
                  then before + {last} else before)
            && last !in before
  {
    hide KindAt, Gated;
  }

  lemma {:induction false} MatchesAreSize(b: Side, c: Side, current: Metadata, policy: Option<Policy>, findings: seq<Finding>, keys: seq<string>)
    requires SideOk(b) && SideOk(c) && ListsFindings(c.c, c.r, findings) && Distinct(keys)
    ensures CountMatches(ChangesAt(b, c, current, policy, keys)) == |GatedKeys(b, c, current, policy, findings, set k | k in keys)|
  {
    hide KindAt, ChangeAt, Gated, Valid, ListsFindings, CountMatches;
    if keys == [] {
      assert GatedKeys(b, c, current, policy, findings, set k | k in keys) == {};
      assert CountMatches([]) == 0 by { NoMatches(); }
    } else {
      var init, last := keys[..|keys| - 1], keys[|keys| - 1];
      assert keys == init + [last] && last !in init;
      MatchesAreSize(b, c, current, policy, findings, init);
      GatedLast(b, c, current, policy, findings, init, last);
      var before := ChangesAt(b, c, current, policy, init);
      if KindAt(b, c, last).Some? {
        MatchIff(b, c, current, policy, findings, last);
        MatchesAppend(before, ChangeAt(b, c, current, policy, last));
      } else {
        assert before + [] == before;
      }
    }
  }

  lemma NoMatches()
    ensures CountMatches([]) == 0
  {
  }

  /** The tally of policy matches is the number of keys whose change is gated. */
  lemma MatchTally(b: Side, c: Side, current: Metadata, policy: Option<Policy>, findings: seq<Finding>, r: DifferentialReport)
    requires SideOk(b) && SideOk(c) && ListsFindings(c.c, c.r, findings) && DifferentialRight(b, c, current, policy, r)
    ensures r.tally.policyMatches == |GatedKeys(b, c, current, policy, findings, Eligible(b) + Eligible(c))|
  {
    hide ChangesAt, GatedKeys, EligibleKeys, StringLess, Valid, ListsFindings, CountMatches;
    var keys :| AllKeys(b.c, c.c, keys) && r.changes == ChangesAt(b, c, current, policy, keys);
    StringOrder();
    StrictDistinct(StringLess, keys);
    assert (set k | k in keys) == Eligible(b) + Eligible(c);
    MatchesAreSize(b, c, current, policy, findings, keys);
  }

  // ---- contexts

  /** Two artifacts are compared exactly when configuration, frontend and target agree, and the policy,
      if there is one, is for all targets or for this one, which then has a name. */
  lemma ContextOkIff(baseline: Metadata, current: Metadata, policy: Option<Policy>)
    ensures ContextProblem(baseline, current, policy).None? <==>
      && baseline.configurationId == current.configurationId && baseline.frontend == current.frontend
      && baseline.targetId == current.targetId && baseline.targetName == current.targetName && baseline.targetKind == current.targetKind
      && (policy.Some? && policy.value.targets != [] ==> current.targetName != [] && current.targetName in policy.value.targets)
  {
  }

  // ---- states

  /** The evidence item e is told as f: an escape with the key of its origin, and others as they are. */
  predicate ToldAs(symbols: seq<Symbol>, e: FindingEvidence, f: KeyedEvidence) {
    if e.Escaped? then
      f.EscapedTo? && f.kind == e.kind && f.evidence == e.evidence
      && f.from == (if e.origin.Some? && e.origin.value < |symbols| then symbols[e.origin.value].key else "")
    else f == Plain(e)
  }

  predicate ToldByFinding(c: Side, f: Finding, s: State) {
    && s.classification == Some(f.classification) && |s.evidence| == |f.evidence|
    && forall i :: 0 <= i < |f.evidence| ==> ToldAs(c.c.symbols, f.evidence[i], s.evidence[i])
  }

  lemma EvidenceTold(symbols: seq<Symbol>, list: seq<FindingEvidence>, i: nat)
    requires i < |list|
    ensures |KeyedEvidences(symbols, list)| == |list| && ToldAs(symbols, list[i], KeyedEvidences(symbols, list)[i])
  {
  }

  /** The state of a definition: whether it is reachable, and if a finding or a suppressed finding is
      about it, the classification and the evidence of that, and the suppressions. */
  lemma StateMeans(c: Side, findings: seq<Finding>, suppressed: seq<SuppressedFinding>, key: string, id: nat)
    requires SideOk(c) && ListsFindings(c.c, c.r, findings) && ListsSuppressed(c.c, c.r, suppressed) && DefinesAt(c, key, id)
    ensures EligibleId(c.c, key) == Some(id)
    ensures var s := StateOf(c.c, c.r, Some(id));
            && s.present && s.reachable == c.r.reachable[id]
            && (s.classification.None? <==> s.reachable)
            && (forall f :: f in findings && f.symbol == id ==> ToldByFinding(c, f, s) && !s.suppressed && s.suppressions == [])
            && (forall f :: f in suppressed && f.finding.symbol == id ==>
                  ToldByFinding(c, f.finding, s) && s.suppressed && s.suppressions == f.suppressions)
  {
    hide ListsFindings, ListsSuppressed, Classified, KeyedEvidences, EvidencesOf, SuppressedIds, Valid, IsDefinition, ToldByFinding;
    EligibleMeans(c, key);
    DeadIffUnreachable(c, key, id);
    NoEvidence(c.c, id);
    if id in DeadDefinitions(c.c, c.r) { DeadTold(c, id); }
    forall f | f in findings && f.symbol == id ensures f == Classified(c.c, id) && id in DeadDefinitions(c.c, c.r) - SuppressedIds(c.c) {
      FindingMeans(c.c, c.r, findings, f);
    }
    forall f | f in suppressed && f.finding.symbol == id
      ensures f.finding == Classified(c.c, id) && id in DeadDefinitions(c.c, c.r) && id in SuppressedIds(c.c)
      ensures f.suppressions == EvidencesOf(c.c.suppressions, id)
    {
      SuppressedMeans(c.c, c.r, suppressed, f);
    }
  }

  lemma DeadTold(c: Side, id: nat)
    requires Sized(c.c, c.r) && id in DeadDefinitions(c.c, c.r)
    ensures id < |c.c.symbols| && ToldByFinding(c, Classified(c.c, id), StateOf(c.c, c.r, Some(id)))
  {
    hide Classified, KeyedEvidences, EvidencesOf, SuppressedIds, ToldAs;
    var list := Classified(c.c, id).evidence;
    AsMany(c.c.symbols, list);
    forall i | 0 <= i < |list|
      ensures ToldAs(c.c.symbols, list[i], KeyedEvidences(c.c.symbols, list)[i])
    {
      EvidenceTold(c.c.symbols, list, i);
    }
  }

  lemma AsMany(symbols: seq<Symbol>, list: seq<FindingEvidence>)
    ensures |KeyedEvidences(symbols, list)| == |list|
  {
  }

  lemma DeadIffUnreachable(c: Side, key: string, id: nat)
    requires SideOk(c) && DefinesAt(c, key, id)
    ensures id < |c.r.reachable| && id < |c.c.symbols| && (id in DeadDefinitions(c.c, c.r) <==> !c.r.reachable[id])
  {
  }
}
