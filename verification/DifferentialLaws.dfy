/** Laws of differential reports: conservation, duality, and no difference with oneself. */
module DifferentialLaws {
  import opened Wrappers
  import opened Orders
  import opened Symbols
  import opened Facts
  import opened Canonical
  import opened Analysis
  import opened KeyedAnalysis
  import opened Artifact
  import opened ArtifactRoundTrip
  import opened Findings
  import opened ReportBuild
  import opened Differential

  // ---- counts are sizes

  ghost function KeysOfKind(b: Side, c: Side, keys: set<string>, kind: ChangeKind): set<string>
    requires Sized(b.c, b.r) && Sized(c.c, c.r)
  {
    set k | k in keys && KindAt(b, c, k) == Some(kind)
  }

  lemma {:induction false} CountIsSize(b: Side, c: Side, current: Metadata, policy: Option<Policy>, keys: seq<string>, kind: ChangeKind)
    requires Sized(b.c, b.r) && Sized(c.c, c.r) && Distinct(keys)
    ensures Count(ChangesAt(b, c, current, policy, keys), kind) == |KeysOfKind(b, c, (set k | k in keys), kind)|
  {
    hide KindAt, ChangeAt;
    var all := set k | k in keys;
    if keys == [] {
      assert KeysOfKind(b, c, all, kind) == {};
    } else {
      var init, last := keys[..|keys| - 1], keys[|keys| - 1];
      assert keys == init + [last];
      CountIsSize(b, c, current, policy, init, kind);
      var before := KeysOfKind(b, c, (set k | k in init), kind);
      assert last !in init;
      KindLast(b, c, init, last, kind);
      CountLast(b, c, current, policy, init, last, kind);
    }
  }

  lemma KindLast(b: Side, c: Side, init: seq<string>, last: string, kind: ChangeKind)
    requires Sized(b.c, b.r) && Sized(c.c, c.r) && last !in init
    ensures var before := KeysOfKind(b, c, (set k | k in init), kind);
            KeysOfKind(b, c, (set k | k in init + [last]), kind) == (if KindAt(b, c, last) == Some(kind) then before + {last} else before)
            && last !in before
  {
    hide KindAt;
  }

  lemma CountAppend(changes: seq<Change>, x: Change, kind: ChangeKind)
    ensures Count(changes + [x], kind) == Count(changes, kind) + if x.kind == kind then 1 else 0
  {
    assert (changes + [x])[..|changes|] == changes;
  }

  lemma ChangeKindAt(b: Side, c: Side, current: Metadata, policy: Option<Policy>, key: string)
    requires Sized(b.c, b.r) && Sized(c.c, c.r) && KindAt(b, c, key).Some?
    ensures ChangeAt(b, c, current, policy, key).kind == KindAt(b, c, key).value
  {
    hide StateOf, PolicyMatches;
  }

  lemma CountLast(b: Side, c: Side, current: Metadata, policy: Option<Policy>, init: seq<string>, last: string, kind: ChangeKind)
    requires Sized(b.c, b.r) && Sized(c.c, c.r)
    ensures Count(ChangesAt(b, c, current, policy, init + [last]), kind) ==
      Count(ChangesAt(b, c, current, policy, init), kind) + if KindAt(b, c, last) == Some(kind) then 1 else 0
  {
    hide KindAt, ChangeAt, Count, ChangesAt;
    var keys := init + [last];
    assert keys[..|init| + 1] == keys && keys[..|init|] == init;
    ChangesNext(b, c, current, policy, keys, |init|);
    var before := ChangesAt(b, c, current, policy, init);
    if KindAt(b, c, last).Some? {
      ChangeKindAt(b, c, current, policy, last);
      CountAppend(before, ChangeAt(b, c, current, policy, last), kind);
    } else {
      assert before + [] == before;
    }
  }

  ghost function Eligible(s: Side): set<string> {
    EligibleKeys(s.c)
  }

  lemma TallyIsSizes(b: Side, c: Side, current: Metadata, policy: Option<Policy>, r: DifferentialReport)
    requires Sized(b.c, b.r) && Sized(c.c, c.r) && DifferentialRight(b, c, current, policy, r)
    ensures var keys := Eligible(b) + Eligible(c);
            && r.tally.newSymbols == |KeysOfKind(b, c, keys, NewSymbol)|
            && r.tally.removed == |KeysOfKind(b, c, keys, Removed)|
            && r.tally.newlyUnreachable == |KeysOfKind(b, c, keys, NewlyUnreachable)|
            && r.tally.becameReachable == |KeysOfKind(b, c, keys, BecameReachable)|
  {
    hide ChangesAt, KeysOfKind, EligibleKeys, StringLess;
    var keys :| AllKeys(b.c, c.c, keys) && r.changes == ChangesAt(b, c, current, policy, keys);
    StringOrder();
    StrictDistinct(StringLess, keys);
    assert (set k | k in keys) == Eligible(b) + Eligible(c);
    CountIsSize(b, c, current, policy, keys, NewSymbol);
    CountIsSize(b, c, current, policy, keys, Removed);
    CountIsSize(b, c, current, policy, keys, NewlyUnreachable);
    CountIsSize(b, c, current, policy, keys, BecameReachable);
  }

  // ---- conservation

  ghost function UnreachableKeys(s: Side): set<string>
    requires Sized(s.c, s.r)
  {
    set k | k in Eligible(s) && StandingOf(s.c, s.r, k) == Unreachable
  }

  lemma StandingByKey(s: Side, key: string)
    requires SideOk(s)
    ensures StandingOf(s.c, s.r, key) == Absent <==> key !in Eligible(s)
  {
    hide EligibleKeys, EligibleId, Valid;
    EligibleKey(s.c, key);
  }

  lemma Difference(s: set<string>, t: set<string>)
    ensures |s - t| - |t - s| == |s| - |t|
  {
    assert s == (s - t) + (s * t) && t == (t - s) + (s * t);
    assert |s| == |s - t| + |s * t| && |t| == |t - s| + |s * t|;
  }

  /** The keys that appear or disappear are the keys that only one graph has. */
  lemma KindsByEligibility(b: Side, c: Side)
    requires SideOk(b) && SideOk(c)
    ensures KeysOfKind(b, c, Eligible(b) + Eligible(c), NewSymbol) == Eligible(c) - Eligible(b)
    ensures KeysOfKind(b, c, Eligible(b) + Eligible(c), Removed) == Eligible(b) - Eligible(c)
  {
    hide EligibleKeys, StandingOf, Valid;
    var keys := Eligible(b) + Eligible(c);
    forall k | k in keys
      ensures KindAt(b, c, k) == Some(NewSymbol) <==> k !in Eligible(b)
      ensures KindAt(b, c, k) == Some(Removed) <==> k !in Eligible(c)
    {
      StandingByKey(b, k);
      StandingByKey(c, k);
    }
    SameKeys(KeysOfKind(b, c, keys, NewSymbol), Eligible(c) - Eligible(b));
    SameKeys(KeysOfKind(b, c, keys, Removed), Eligible(b) - Eligible(c));
  }

  lemma SameKeys(s: set<string>, t: set<string>)
    requires forall k :: k in s <==> k in t
    ensures s == t
  {
  }

  /** The keys whose reachability changes are keys that both graphs have. */
  lemma KindsByReachability(b: Side, c: Side)
    requires SideOk(b) && SideOk(c)
    ensures var keys, common := Eligible(b) + Eligible(c), Eligible(b) * Eligible(c);
            var u, v := UnreachableKeys(c) * common, UnreachableKeys(b) * common;
            KeysOfKind(b, c, keys, NewlyUnreachable) == u - v && KeysOfKind(b, c, keys, BecameReachable) == v - u
  {
    hide EligibleKeys, StandingOf, Valid;
    var keys, common := Eligible(b) + Eligible(c), Eligible(b) * Eligible(c);
    var u, v := UnreachableKeys(c) * common, UnreachableKeys(b) * common;
    forall k
      ensures k in KeysOfKind(b, c, keys, NewlyUnreachable) <==> k in u - v
      ensures k in KeysOfKind(b, c, keys, BecameReachable) <==> k in v - u
    {
      StandingByKey(b, k);
      StandingByKey(c, k);
    }
    SameKeys(KeysOfKind(b, c, keys, NewlyUnreachable), u - v);
    SameKeys(KeysOfKind(b, c, keys, BecameReachable), v - u);
  }

  /** New minus removed is the growth in eligible symbols; newly unreachable minus became reachable
      is the growth in unreachable symbols among those that both graphs have. */
  lemma Conservation(b: Side, c: Side, current: Metadata, policy: Option<Policy>, r: DifferentialReport)
    requires SideOk(b) && SideOk(c) && DifferentialRight(b, c, current, policy, r)
    ensures r.tally.newSymbols as int - r.tally.removed as int == |Eligible(c)| as int - |Eligible(b)| as int
    ensures var common := Eligible(b) * Eligible(c);
            r.tally.newlyUnreachable as int - r.tally.becameReachable as int ==
              |UnreachableKeys(c) * common| as int - |UnreachableKeys(b) * common| as int
  {
    hide DifferentialRight, EligibleKeys, StandingOf, Valid, KindAt, KeysOfKind, UnreachableKeys, Eligible;
    TallyIsSizes(b, c, current, policy, r);
    KindsByEligibility(b, c);
    KindsByReachability(b, c);
    var common := Eligible(b) * Eligible(c);
    Difference(Eligible(c), Eligible(b));
    Difference(UnreachableKeys(c) * common, UnreachableKeys(b) * common);
  }

  // ---- duality

  function Reverse(k: ChangeKind): ChangeKind {
    match k
    case NewSymbol => Removed
    case Removed => NewSymbol
    case NewlyUnreachable => BecameReachable
    case BecameReachable => NewlyUnreachable
  }

  /** Swapping the two sides reverses every change. */
  lemma Duality(b: Side, c: Side, key: string)
    requires Sized(b.c, b.r) && Sized(c.c, c.r)
    ensures match KindAt(b, c, key)
            case Some(k) => KindAt(c, b, key) == Some(Reverse(k))
            case None => KindAt(c, b, key) == None
  {
    hide StandingOf;
  }

  lemma DualTallies(b: Side, c: Side, m: Metadata, n: Metadata, p: Option<Policy>, q: Option<Policy>,
                    r: DifferentialReport, s: DifferentialReport)
    requires SideOk(b) && SideOk(c) && DifferentialRight(b, c, m, p, r) && DifferentialRight(c, b, n, q, s)
    ensures r.tally.newSymbols == s.tally.removed && r.tally.removed == s.tally.newSymbols
    ensures r.tally.newlyUnreachable == s.tally.becameReachable && r.tally.becameReachable == s.tally.newlyUnreachable
  {
    hide DifferentialRight, EligibleKeys, StandingOf, Valid, KindAt;
    TallyIsSizes(b, c, m, p, r);
    TallyIsSizes(c, b, n, q, s);
    var keys := Eligible(b) + Eligible(c);
    assert Eligible(c) + Eligible(b) == keys;
    forall k
      ensures match KindAt(b, c, k)
              case Some(x) => KindAt(c, b, k) == Some(Reverse(x))
              case None => KindAt(c, b, k) == None
    {
      Duality(b, c, k);
    }
    forall kind ensures KeysOfKind(b, c, keys, kind) == KeysOfKind(c, b, keys, Reverse(kind)) {
      KindsReversed(b, c, keys, kind);
    }
  }

  lemma KindsReversed(b: Side, c: Side, keys: set<string>, kind: ChangeKind)
    requires Sized(b.c, b.r) && Sized(c.c, c.r)
    ensures KeysOfKind(b, c, keys, kind) == KeysOfKind(c, b, keys, Reverse(kind))
  {
    hide KindAt;
    forall k
      ensures match KindAt(b, c, k)
              case Some(x) => KindAt(c, b, k) == Some(Reverse(x))
              case None => KindAt(c, b, k) == None
    {
      Duality(b, c, k);
    }
    forall x ensures Reverse(Reverse(x)) == x {}
  }

  // ---- a graph against its own artifact

  lemma SameSymbolAtKey(c: Contents, key: string)
    requires Valid(c)
    ensures var i, j := Find(c.symbols, key), Find(Canonicalize(c).symbols, key);
            && (i.Some? <==> j.Some?)
            && (i.Some? ==>
                  && i.value < |c.symbols| && j.value < |Canonicalize(c).symbols|
                  && c.symbols[i.value] == Canonicalize(c).symbols[j.value])
  {
    hide Canonicalize, Valid, SymbolMap;
    CanonicalizeKeepsView(c);
    ValidKeys(c);
    ValidKeys(Canonicalize(c));
    FindInMap(c.symbols, key);
    FindInMap(Canonicalize(c).symbols, key);
    ViewSymbolsOf(c);
    ViewSymbolsOf(Canonicalize(c));
  }

  lemma ViewSymbolsOf(c: Contents)
    ensures ViewOf(c).symbols == SymbolMap(c.symbols)
  {
  }

  lemma SameStanding(c: Contents, r: Reachability, r0: Reachability, key: string)
    requires Valid(c) && MarksCorrect(c, r) && MarksCorrect(Canonicalize(c), r0)
    ensures Sized(c, r) && Sized(Canonicalize(c), r0)
    ensures StandingOf(c, r, key) == StandingOf(Canonicalize(c), r0, key)
  {
    hide Canonicalize, Valid, Reachable, StructurallyReachable, IsDefinition;
    SameSymbolAtKey(c, key);
    var i, j := Find(c.symbols, key), Find(Canonicalize(c).symbols, key);
    if i.Some? { CanonicalizeKeepsReachable(c, i.value, j.value); }
  }

  lemma {:induction false} NoKindsNoChanges(b: Side, c: Side, current: Metadata, policy: Option<Policy>, keys: seq<string>)
    requires Sized(b.c, b.r) && Sized(c.c, c.r) && forall k :: KindAt(b, c, k) == None
    ensures ChangesAt(b, c, current, policy, keys) == []
  {
    hide KindAt, ChangeAt;
    if keys != [] { NoKindsNoChanges(b, c, current, policy, keys[..|keys| - 1]); }
  }

  /** A graph compared with the artifact that was written for it has no changes. */
  lemma SelfDifferenceEmpty(c: Contents, m: Metadata, ds: seq<string>, numbers: Numbers, text: string, artifact: Artifact,
                            r: Reachability, r0: Reachability, policy: Option<Policy>, d: DifferentialReport)
    requires ExactSizes(numbers) && MayWrite(c, m) && Valid(c) && MarksCorrect(c, r) && Sized(c, r)
    requires Write(c, m, ds) == Ok(text) && Read(text, numbers) == Ok(artifact)
    requires var g := artifact.graph;
             MarksCorrect(g, r0) && Sized(g, r0) && DifferentialRight(Side(g, r0), Side(c, r), m, policy, d)
    ensures d.changes == [] && d.tally == Tally(0, 0, 0, 0, 0)
  {
    hide Write, Read, ExactSizes, MayWrite, Valid, MarksCorrect, StandingOf, ChangesAt, AllKeys, Canonicalize, Sized;
    ArtifactRoundTrip.ArtifactRoundTrip(c, m, ds, numbers);
    var g := Canonicalize(c);
    SidesSized(c, r, g, r0);
    var b, s := Side(g, r0), Side(c, r);
    forall key ensures KindAt(b, s, key) == None { SameStanding(c, r, r0, key); }
    var keys :| AllKeys(g, c, keys) && d.changes == ChangesAt(b, s, m, policy, keys);
    NoKindsNoChanges(b, s, m, policy, keys);
  }

  lemma SidesSized(c: Contents, r: Reachability, g: Contents, r0: Reachability)
    requires MarksCorrect(c, r) && MarksCorrect(g, r0)
    ensures Sized(c, r) && Sized(g, r0)
  {
  }

  // ---- policies

  lemma {:induction false} ChangeOfKey(b: Side, c: Side, current: Metadata, policy: Option<Policy>, keys: seq<string>, x: Change) returns (key: string)
    requires Sized(b.c, b.r) && Sized(c.c, c.r) && x in ChangesAt(b, c, current, policy, keys)
    ensures key in keys && KindAt(b, c, key).Some? && x == ChangeAt(b, c, current, policy, key)
  {
    hide KindAt, ChangeAt;
    var init := keys[..|keys| - 1];
    if x in ChangesAt(b, c, current, policy, init) {
      key := ChangeOfKey(b, c, current, policy, init, x);
      assert key in init;
    } else {
      key := keys[|keys| - 1];
    }
  }

  /** Every policy match is an unsuppressed finding of the current report, of a kind and with a
      classification that the policy names. */
  lemma MatchIsFinding(b: Side, c: Side, current: Metadata, policy: Policy, findings: seq<Finding>, r: DifferentialReport, x: Change)
    returns (id: nat)
    requires SideOk(b) && SideOk(c) && DifferentialRight(b, c, current, Some(policy), r) && ListsFindings(c.c, c.r, findings)
    requires x in r.changes && x.policyMatch
    ensures HasFinding(findings, id) && id < |c.c.symbols| && c.c.symbols[id] == x.symbol && !c.r.reachable[id]
    ensures Classified(c.c, id).classification in policy.classifications && x.kind in policy.changes
    ensures x.kind == NewSymbol || x.kind == NewlyUnreachable
  {
    hide ListsFindings, ChangesAt, TallyOf, AllKeys, Classified, SuppressedIds, KeyedEvidences, EvidencesOf, Valid;
    var keys :| AllKeys(b.c, c.c, keys) && r.changes == ChangesAt(b, c, current, Some(policy), keys);
    var key := ChangeOfKey(b, c, current, Some(policy), keys, x);
    id := EligibleId(c.c, key).value;
    FindingListed(c.c, c.r, findings, id);
  }

  lemma FindingListed(c: Contents, r: Reachability, findings: seq<Finding>, id: nat)
    requires ListsFindings(c, r, findings)
    ensures HasFinding(findings, id) <==> id in DeadDefinitions(c, r) - SuppressedIds(c)
  {
  }
}
