/** Provider policies: facts about symbols picked out by selectors. */
module Providers {
  import opened Wrappers
  import opened Orders
  import opened Symbols
  import opened Facts
  import opened Merging
  import opened Canonical
  import opened Graphs

  /** An empty field does not constrain. */
  datatype Selector = Selector(id: string, linkageName: string, qualifiedName: string, signature: string)

  predicate Matches(s: Symbol, sel: Selector) {
    && (sel.id != [] ==> s.key == sel.id)
    && (sel.linkageName != [] ==> s.identity.linkageName == sel.linkageName)
    && (sel.qualifiedName != [] ==> s.qualifiedName == sel.qualifiedName)
    && (sel.signature != [] ==> s.signature == sel.signature)
  }

  // ---- the text that stands for a selector

  const SIGNATURE_MARK := "' with signature '"

  function Spelled(sel: Selector): string {
    sel.qualifiedName + if sel.signature == [] then [] else SIGNATURE_MARK + sel.signature
  }

  /** How a selector is named in messages and in cache keys. */
  function Describe(sel: Selector): string {
    if sel.id != [] then "id '" + (sel.id + "'")
    else if sel.linkageName != [] then "linkage_name '" + (sel.linkageName + "'")
    else "qualified_name '" + (Spelled(sel) + "'")
  }

  /** What a configuration file may say: one way to name the symbol, and a signature only beside a
      qualified name. */
  predicate Accepted(sel: Selector) {
    && (sel.id != [] ==> sel.linkageName == [] && sel.qualifiedName == [])
    && (sel.linkageName != [] ==> sel.qualifiedName == [])
    && (sel.id != [] || sel.linkageName != [] || sel.qualifiedName != [])
    && (sel.signature != [] ==> sel.qualifiedName != [])
  }

  lemma SameEnds(head: string, a: string, b: string, tail: string)
    requires head + (a + tail) == head + (b + tail)
    ensures a == b
  {
    assert a + tail == (head + (a + tail))[|head|..] && b + tail == (head + (b + tail))[|head|..];
    assert a == (a + tail)[..|a|] && b == (b + tail)[..|b|];
  }

  /** Two selectors have one description exactly when they are the same, or are both by qualified
      name and spelled alike. */
  lemma DescribeIff(a: Selector, b: Selector)
    requires Accepted(a) && Accepted(b)
    ensures Describe(a) == Describe(b) <==> a == b || (a.qualifiedName != [] && b.qualifiedName != [] && Spelled(a) == Spelled(b))
  {
    hide Spelled;
    if Describe(a) == Describe(b) {
      assert Describe(a)[0] == Describe(b)[0];
      if a.id != [] {
        SameEnds("id '", a.id, b.id, "'");
      } else if a.linkageName != [] {
        SameEnds("linkage_name '", a.linkageName, b.linkageName, "'");
      } else {
        SameEnds("qualified_name '", Spelled(a), Spelled(b), "'");
      }
    }
  }

  predicate MarkAt(name: string, p: nat) {
    p + |SIGNATURE_MARK| < |name| && name[p..p + |SIGNATURE_MARK|] == SIGNATURE_MARK
  }

  /** The mark stands in the name, with something before it and something after it. */
  predicate HoldsMark(name: string) {
    exists p :: 0 < p < |name| && MarkAt(name, p)
  }

  lemma SpelledByMark(name: string, p: nat)
    requires 0 < p && MarkAt(name, p)
    ensures Spelled(Selector("", "", name[..p], name[p + |SIGNATURE_MARK|..])) == name
  {
  }

  lemma MarkSpelled(sel: Selector)
    requires sel.qualifiedName != [] && sel.signature != []
    ensures HoldsMark(Spelled(sel))
  {
    var p, s := |sel.qualifiedName|, Spelled(sel);
    assert s[p..p + |SIGNATURE_MARK|] == SIGNATURE_MARK;
    assert MarkAt(s, p);
  }

  /** A selector shares its description with no other one exactly when it is not by qualified name,
      or has no signature and a name that does not look like a name with a signature. */
  lemma DescribedOnceIff(sel: Selector)
    requires Accepted(sel)
    ensures (forall other :: Accepted(other) && Describe(other) == Describe(sel) ==> other == sel)
      <==> sel.qualifiedName == [] || (sel.signature == [] && !HoldsMark(sel.qualifiedName))
  {
    hide Describe, Spelled, HoldsMark;
    forall other | Accepted(other) ensures Describe(other) == Describe(sel) <==>
      other == sel || (other.qualifiedName != [] && sel.qualifiedName != [] && Spelled(other) == Spelled(sel))
    {
      DescribeIff(other, sel);
    }
    if sel.qualifiedName != [] && sel.signature != [] {
      PlainSpelled(Spelled(sel));
      SpelledLonger(sel);
      var other := Selector("", "", Spelled(sel), "");
      assert Accepted(other) && Describe(other) == Describe(sel) && other != sel;
    } else if sel.qualifiedName != [] && HoldsMark(sel.qualifiedName) {
      PlainSpelled(sel.qualifiedName);
      var other := WithMark(sel.qualifiedName);
      assert Accepted(other) && Describe(other) == Describe(sel) && other != sel;
    } else if sel.qualifiedName != [] {
      forall other | Accepted(other) && Describe(other) == Describe(sel) ensures other == sel {
        PlainSpelled(sel.qualifiedName);
        PlainSpelled(other.qualifiedName);
        if other.qualifiedName != [] && other.signature != [] { MarkSpelled(other); }
      }
    }
  }

  lemma PlainSpelled(name: string)
    ensures Spelled(Selector("", "", name, "")) == name
  {
  }

  lemma SpelledLonger(sel: Selector)
    ensures |Spelled(sel)| >= |sel.qualifiedName|
  {
  }

  lemma WithMark(name: string) returns (sel: Selector)
    requires HoldsMark(name)
    ensures Accepted(sel) && sel.signature != [] && sel.qualifiedName != [] && Spelled(sel) == name
  {
    var p: nat :| 0 < p && MarkAt(name, p);
    SpelledByMark(name, p);
    sel := Selector("", "", name[..p], name[p + |SIGNATURE_MARK|..]);
  }

  /** A name with a signature, and a name that looks like one. */
  lemma DescriptionsCollide()
    ensures var a, b := Selector("", "", "f", "g"), Selector("", "", "f' with signature 'g", "");
            Accepted(a) && Accepted(b) && a != b && Describe(a) == Describe(b)
  {
    hide Describe;
    var a, b := Selector("", "", "f", "g"), Selector("", "", "f' with signature 'g", "");
    assert |a.signature| == 1;
    assert Spelled(a) == "f" + ("' with signature '" + "g") == b.qualifiedName;
    hide Spelled;
    PlainSpelled(b.qualifiedName);
    DescribeIff(a, b);
  }

  /** Where the name ends, if it has no quote in it. */
  lemma QuoteAt(sel: Selector)
    requires '\'' !in sel.qualifiedName
    ensures sel.signature == [] ==> '\'' !in Spelled(sel) && Spelled(sel) == sel.qualifiedName
    ensures sel.signature != [] ==> |Spelled(sel)| > |sel.qualifiedName| && Spelled(sel)[|sel.qualifiedName|] == '\''
    ensures forall i :: 0 <= i < |Spelled(sel)| && Spelled(sel)[i] == '\'' ==> |sel.qualifiedName| <= i
    ensures sel.qualifiedName == Spelled(sel)[..|sel.qualifiedName|]
    ensures sel.signature != [] ==>
      |sel.qualifiedName| + |SIGNATURE_MARK| <= |Spelled(sel)| && sel.signature == Spelled(sel)[|sel.qualifiedName| + |SIGNATURE_MARK|..]
  {
    assert SIGNATURE_MARK[0] == '\'';
  }

  /** No two selectors are described alike where no qualified name has a quote in it. */
  lemma DescribedApart(a: Selector, b: Selector)
    requires Accepted(a) && Accepted(b) && Describe(a) == Describe(b)
    requires '\'' !in a.qualifiedName && '\'' !in b.qualifiedName
    ensures a == b
  {
    hide Describe, Spelled;
    DescribeIff(a, b);
    QuoteAt(a);
    QuoteAt(b);
  }

  /** One entry of a policy, with the selectors that must each pick exactly one symbol. */
  datatype Request =
    | Callback(callee: Selector, requireUnique: bool)
    | WantRoot(target: Selector, evidence: Evidence)
    | WantPublicApi(target: Selector, evidence: Evidence)
    | WantEdge(source: Selector, target: Selector, evidence: Evidence)
    | WantEscape(target: Selector, origin: Option<Selector>, evidence: Evidence)
    | WantSuppression(target: Selector, evidence: Evidence)

  datatype Policy = Policy(
    callbacks: seq<Request>, roots: seq<Request>, publicApi: seq<Request>,
    edges: seq<Request>, escapes: seq<Request>, suppressions: seq<Request>)
  {
    /** The entries in the order in which they are applied. */
    function Requests(): seq<Request> {
      callbacks + roots + publicApi + edges + escapes + suppressions
    }
  }

  ghost predicate IsUnique(symbols: seq<Symbol>, sel: Selector, i: nat) {
    && i < |symbols|
    && Matches(symbols[i], sel)
    && (forall j :: 0 <= j < |symbols| && Matches(symbols[j], sel) ==> j == i)
  }

  function MatchIds(symbols: seq<Symbol>, sel: Selector): (r: seq<nat>)
    ensures Distinct(r)
    ensures forall i: nat :: i in r <==> i < |symbols| && Matches(symbols[i], sel)
  {
    if symbols == [] then []
    else
      var init := symbols[..|symbols| - 1];
      var ids := MatchIds(init, sel);
      assert forall k :: 0 <= k < |ids| ==> ids[k] in ids;
      if Matches(symbols[|init|], sel) then ids + [|init|] else ids
  }

  function Resolve(symbols: seq<Symbol>, sel: Selector): (r: Option<nat>)
    ensures r.Some? ==> IsUnique(symbols, sel, r.value)
    ensures r.None? ==> forall i: nat :: !IsUnique(symbols, sel, i)
  {
    hide Matches;
    var ids := MatchIds(symbols, sel);
    if |ids| == 1 then
      assert forall j: nat :: j in ids ==> j == ids[0];
      assert ids[0] in ids;
      Some(ids[0])
    else
      assert |ids| > 1 ==> ids[0] in ids && ids[1] in ids && ids[0] != ids[1];
      None
  }

  /** Collects the matching positions and accepts exactly one. */
  method ResolveUnique(symbols: seq<Symbol>, sel: Selector) returns (r: Result<nat, nat>)
    ensures r.Ok? <==> Resolve(symbols, sel).Some?
    ensures r.Ok? ==> Resolve(symbols, sel) == Some(r.value)
    ensures r.Err? ==> r.error == |MatchIds(symbols, sel)| && r.error != 1
  {
    var found: seq<nat> := [];
    for id := 0 to |symbols|
      invariant found == MatchIds(symbols[..id], sel)
    {
      assert symbols[..id + 1][..id] == symbols[..id];
      if Matches(symbols[id], sel) { found := found + [id]; }
    }
    assert symbols[..|symbols|] == symbols;
    if |found| != 1 { return Err(|found|); }
    r := Ok(found[0]);
  }

  // ---- what a request adds

  /** The selectors a request resolves. */
  function Needs(q: Request): seq<Selector> {
    match q
    case Callback(callee, unique) => if unique then [callee] else []
    case WantEdge(source, target, _) => [source, target]
    case WantEscape(target, origin, _) => if origin.Some? then [origin.value, target] else [target]
    case _ => [q.target]
  }

  predicate Resolvable(symbols: seq<Symbol>, q: Request) {
    forall i :: 0 <= i < |Needs(q)| ==> Resolve(symbols, Needs(q)[i]).Some?
  }

  /** The fact a request stands for, if it stands for one. */
  function FactOf(symbols: seq<Symbol>, q: Request): (r: Option<Fact<nat>>)
    requires Resolvable(symbols, q)
    ensures r.Some? ==> InRange(r.value, |symbols|)
  {
    assert forall i :: 0 <= i < |Needs(q)| ==> Resolve(symbols, Needs(q)[i]).Some?;
    match q
    case Callback(_, _) => None
    case WantRoot(target, e) =>
      assert Needs(q)[0] == target;
      Some(Root(Resolve(symbols, target).value, ProviderRoot, e))
    case WantPublicApi(target, e) =>
      assert Needs(q)[0] == target;
      Some(Root(Resolve(symbols, target).value, PublicApi, e))
    case WantEdge(source, target, e) =>
      assert Needs(q)[0] == source && Needs(q)[1] == target;
      Some(Edge(Resolve(symbols, source).value, Resolve(symbols, target).value, ProviderEdge, e))
    case WantEscape(target, origin, e) =>
      assert origin.Some? ==> Needs(q)[0] == origin.value && Needs(q)[1] == target;
      assert origin.None? ==> Needs(q)[0] == target;
      Some(Escape(Resolve(symbols, target).value,
                  if origin.Some? then Some(Resolve(symbols, origin.value).value) else None, ProviderEscape, e))
    case WantSuppression(target, e) =>
      assert Needs(q)[0] == target;
      Some(Suppression(Resolve(symbols, target).value, e))
  }

  function ApplyRequest(c: Contents, q: Request): Option<Contents> {
    if !Resolvable(c.symbols, q) then None
    else match FactOf(c.symbols, q)
      case Some(x) => Some(With(c, x))
      case None => Some(c)
  }

  /** The contents after the requests up to the first that cannot be resolved, and whether
      all could. */
  function ApplyRequests(c: Contents, qs: seq<Request>): (Contents, bool) {
    if qs == [] then (c, true)
    else
      var (d, ok) := ApplyRequests(c, qs[..|qs| - 1]);
      if !ok then (d, false)
      else match ApplyRequest(d, qs[|qs| - 1])
        case Some(e) => (e, true)
        case None => (d, false)
  }

  function AllRequests(policies: seq<Policy>): seq<Request> {
    if policies == [] then [] else AllRequests(policies[..|policies| - 1]) + policies[|policies| - 1].Requests()
  }

  /** Applying no policy leaves even the order of the facts alone. */
  function ApplyPolicies(c: Contents, policies: seq<Policy>): Option<Contents> {
    if policies == [] then Some(c)
    else
      var (d, ok) := ApplyRequests(c, AllRequests(policies));
      if ok then Some(Canonicalize(d)) else None
  }

  // ---- order does not matter

  ghost predicate AllResolvable(symbols: seq<Symbol>, qs: seq<Request>) {
    forall q :: q in qs ==> Resolvable(symbols, q)
  }

  ghost function Added(symbols: seq<Symbol>, qs: seq<Request>): set<Fact<string>>
    requires AllResolvable(symbols, qs)
  {
    set q | q in qs && FactOf(symbols, q).Some? :: Keyed(symbols, FactOf(symbols, q).value)
  }

  /** Applying requests succeeds exactly when every selector picks one symbol, and then adds
      their facts and nothing else. */
  lemma {:induction false} ApplyRequestsView(c: Contents, qs: seq<Request>)
    requires Valid(c)
    ensures ApplyRequests(c, qs).1 <==> AllResolvable(c.symbols, qs)
    ensures Valid(ApplyRequests(c, qs).0) && ApplyRequests(c, qs).0.symbols == c.symbols
    ensures ApplyRequests(c, qs).1 ==>
              ViewOf(ApplyRequests(c, qs).0) == View(ViewOf(c).symbols, ViewOf(c).facts + Added(c.symbols, qs))
  {
    hide Valid, Keyed, FactOf, Resolvable, InRange, With, SymbolMap, KeyedFacts;
    if qs == [] {
      assert Added(c.symbols, qs) == {};
    } else {
      var init, last := qs[..|qs| - 1], qs[|qs| - 1];
      assert qs == init + [last];
      ApplyRequestsView(c, init);
      var (d, ok) := ApplyRequests(c, init);
      if ok && Resolvable(c.symbols, last) {
        assert AllResolvable(c.symbols, qs);
        if FactOf(c.symbols, last).Some? {
          WithView(d, FactOf(c.symbols, last).value);
        }
        AddedLast(c.symbols, init, last);
      } else if !ok {
        assert forall q :: q in init ==> q in qs;
      }
    }
  }

  lemma AddedLast(symbols: seq<Symbol>, init: seq<Request>, last: Request)
    requires AllResolvable(symbols, init + [last])
    ensures AllResolvable(symbols, init) && Resolvable(symbols, last)
    ensures Added(symbols, init + [last]) ==
            Added(symbols, init) + (if FactOf(symbols, last).Some? then {Keyed(symbols, FactOf(symbols, last).value)} else {})
  {
    hide Keyed, FactOf, Resolvable;
    assert last in init + [last];
    forall q | q in init ensures Resolvable(symbols, q) { assert q in init + [last]; }
    assert forall q :: q in init + [last] <==> q in init || q == last;
  }

  lemma {:induction false} AllRequestsMembers(policies: seq<Policy>)
    ensures forall q :: q in AllRequests(policies) <==> exists p :: p in policies && q in p.Requests()
  {
    if policies != [] {
      var init, last := policies[..|policies| - 1], policies[|policies| - 1];
      assert policies == init + [last];
      AllRequestsMembers(init);
      assert forall p :: p in policies <==> p in init || p == last;
    }
  }

  /** A set of policies means the same in every order, however often each is listed: it is
      accepted in one order exactly when it is accepted in the other, and the graphs are
      identical. */
  lemma PoliciesCommute(c: Contents, ps: seq<Policy>, qs: seq<Policy>)
    requires Valid(c) && ps != [] && qs != []
    requires forall p :: p in ps <==> p in qs
    ensures ApplyPolicies(c, ps) == ApplyPolicies(c, qs)
  {
    hide Valid, Canonicalize, ViewOf, ApplyRequests, Resolvable, AllRequests, Keyed, FactOf;
    var a, b := AllRequests(ps), AllRequests(qs);
    AllRequestsMembers(ps);
    AllRequestsMembers(qs);
    assert forall q :: q in a <==> q in b;
    ApplyRequestsView(c, a);
    ApplyRequestsView(c, b);
    if AllResolvable(c.symbols, a) {
      assert Added(c.symbols, a) == Added(c.symbols, b);
      CanonicalNormalForm(ApplyRequests(c, a).0, ApplyRequests(c, b).0);
    }
  }

  // ---- the program

  method ResolveAll(symbols: seq<Symbol>, selectors: seq<Selector>) returns (ok: bool, ids: seq<nat>)
    ensures ok <==> forall i :: 0 <= i < |selectors| ==> Resolve(symbols, selectors[i]).Some?
    ensures ok ==> |ids| == |selectors| && forall i :: 0 <= i < |ids| ==> Resolve(symbols, selectors[i]) == Some(ids[i])
  {
    hide Resolve, IsUnique;
    ids := [];
    for i := 0 to |selectors|
      invariant |ids| == i && forall j :: 0 <= j < i ==> Resolve(symbols, selectors[j]) == Some(ids[j])
    {
      var r := ResolveUnique(symbols, selectors[i]);
      if r.Err? { return false, ids; }
      ids := ids + [r.value];
    }
    ok := true;
  }

  /** Resolves the selectors of one entry and adds its fact. */
  method ApplyOne(g: Graph, q: Request) returns (ok: bool)
    requires g.Valid()
    modifies g`edges, g`roots, g`escapes, g`suppressions
    ensures g.Valid()
    ensures ok <==> ApplyRequest(old(g.Value()), q).Some?
    ensures g.Value() == if ok then ApplyRequest(old(g.Value()), q).value else old(g.Value())
  {
    hide Facts.Valid, Inverse, Resolve, IsUnique;
    var ids;
    ok, ids := ResolveAll(g.symbols, Needs(q));
    if !ok { return; }
    assert forall i :: 0 <= i < |ids| ==> Resolve(g.symbols, Needs(q)[i]) == Some(ids[i]);
    assert InRangeIds(g.symbols, ids) by { ResolvedInRange(g.symbols, Needs(q), ids); }
    match q {
      case Callback(_, _) =>
      case WantRoot(_, e) => var _ := g.AddRoot(ids[0], ProviderRoot, e);
      case WantPublicApi(_, e) => var _ := g.AddRoot(ids[0], PublicApi, e);
      case WantEdge(_, _, e) => var _ := g.AddEdge(ids[0], ids[1], ProviderEdge, e);
      case WantEscape(_, origin, e) =>
        var _ := g.AddEscape(if origin.Some? then ids[1] else ids[0], ProviderEscape, e,
                             if origin.Some? then Some(ids[0]) else None);
      case WantSuppression(_, e) => var _ := g.AddSuppression(ids[0], e);
    }
  }

  ghost predicate InRangeIds(symbols: seq<Symbol>, ids: seq<nat>) {
    forall i :: 0 <= i < |ids| ==> ids[i] < |symbols|
  }

  lemma ResolvedInRange(symbols: seq<Symbol>, selectors: seq<Selector>, ids: seq<nat>)
    requires |ids| == |selectors| && forall i :: 0 <= i < |ids| ==> Resolve(symbols, selectors[i]) == Some(ids[i])
    ensures InRangeIds(symbols, ids)
  {
    forall i | 0 <= i < |ids| ensures ids[i] < |symbols| { assert Resolve(symbols, selectors[i]).Some?; }
  }

  /** Applies the entries of one policy after those already done. */
  method ApplyList(g: Graph, requests: seq<Request>, ghost before: Contents, ghost done: seq<Request>) returns (ok: bool)
    requires g.Valid() && ApplyRequests(before, done) == (g.Value(), true)
    modifies g`edges, g`roots, g`escapes, g`suppressions
    ensures g.Valid() && ApplyRequests(before, done + requests) == (g.Value(), ok)
  {
    hide Facts.Valid, Inverse, ApplyRequest;
    assert done + requests[..0] == done;
    for i := 0 to |requests|
      invariant g.Valid() && ApplyRequests(before, done + requests[..i]) == (g.Value(), true)
    {
      ghost var next := done + requests[..i + 1];
      assert next[..|next| - 1] == done + requests[..i] && next[|next| - 1] == requests[i];
      ok := ApplyOne(g, requests[i]);
      if !ok {
        assert ApplyRequests(before, next) == (g.Value(), false);
        assert (done + requests)[..|next|] == next;
        FailureStays(before, done + requests, |next|);
        return;
      }
    }
    assert requests[..|requests|] == requests;
    ok := true;
  }

  method ApplyProviderPolicies(g: Graph, policies: seq<Policy>) returns (ok: bool)
    requires g.Valid()
    modifies g
    ensures g.Valid()
    ensures ok <==> ApplyPolicies(old(g.Value()), policies).Some?
    ensures g.Value() == if ok then ApplyPolicies(old(g.Value()), policies).value
                         else ApplyRequests(old(g.Value()), AllRequests(policies)).0
  {
    hide Facts.Valid, Inverse, ApplyRequest;
    if policies == [] { return true; }
    ghost var before := g.Value();
    for p := 0 to |policies|
      invariant g.Valid() && ApplyRequests(before, AllRequests(policies[..p])) == (g.Value(), true)
    {
      assert policies[..p + 1][..p] == policies[..p];
      ok := ApplyList(g, policies[p].Requests(), before, AllRequests(policies[..p]));
      if !ok {
        ghost var next := AllRequests(policies[..p + 1]);
        RequestsPrefix(policies, p + 1);
        assert AllRequests(policies)[..|next|] == next;
        FailureStays(before, AllRequests(policies), |next|);
        return;
      }
    }
    assert policies[..|policies|] == policies;
    g.Canonicalize();
    ok := true;
  }

  lemma {:induction false} FailureStays(c: Contents, qs: seq<Request>, i: nat)
    requires i <= |qs| && !ApplyRequests(c, qs[..i]).1
    ensures ApplyRequests(c, qs) == ApplyRequests(c, qs[..i])
  {
    if i == |qs| {
      assert qs[..i] == qs;
    } else {
      var init := qs[..|qs| - 1];
      assert init[..i] == qs[..i];
      FailureStays(c, init, i);
    }
  }

  lemma {:induction false} RequestsPrefix(policies: seq<Policy>, p: nat)
    requires p <= |policies|
    ensures AllRequests(policies[..p]) <= AllRequests(policies)
  {
    if p == |policies| {
      assert policies[..p] == policies;
    } else {
      assert policies[..|policies| - 1][..p] == policies[..p];
      RequestsPrefix(policies[..|policies| - 1], p);
    }
  }
}
