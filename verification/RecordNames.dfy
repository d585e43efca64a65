/** Which class a spelled base name stands for, and when that is certain. */
module RecordNames {
  import opened Wrappers
  import opened Digraph
  import opened Symbols
  import MergeOrder
  import opened Facts
  import opened Dispatch
  import opened CacheKey
  import opened Cache
  import opened Units
  import opened Indexing
  import opened Runs

  function JoinName(scope: string, name: string): string {
    if name == [] then scope else if scope == [] then name else scope + "::" + name
  }

  predicate ColonsAt(s: string, p: nat) {
    p + 2 <= |s| && s[p] == ':' && s[p + 1] == ':'
  }

  /** The last position below n at which two colons stand. */
  function LastColons(s: string, n: nat): (r: Option<nat>)
    ensures r.Some? ==> r.value < n && ColonsAt(s, r.value)
    ensures forall p: nat :: p < n && ColonsAt(s, p) ==> r.Some? && p <= r.value
  {
    if n == 0 then None else if ColonsAt(s, n - 1) then Some(n - 1) else LastColons(s, n - 1)
  }

  /** The base name in the scope of the class that names it. */
  function Contextual(owner: string, base: string): Option<string> {
    match LastColons(owner, |owner|)
    case Some(p) => Some(JoinName(owner[..p], base))
    case None => None
  }

  /** The base name, or a longer name that ends with it after a colon. */
  predicate Equivalent(qualified: string, base: string) {
    qualified == base ||
    (|qualified| > |base| && qualified[|qualified| - |base|..] == base && qualified[|qualified| - |base| - 1] == ':')
  }

  /** A name is equivalent to a base name that ends it after a colon, and to itself. */
  lemma EquivalentMeans(qualified: string, base: string)
    ensures Equivalent(qualified, base) <==> qualified == base || exists scope :: qualified == scope + (":" + base)
  {
    if Equivalent(qualified, base) && qualified != base {
      var n := |qualified| - |base| - 1;
      assert qualified == qualified[..n] + (":" + base);
    }
    if scope :| qualified == scope + (":" + base) {
      assert qualified[|qualified| - |base|..] == base && qualified[|scope|] == ':';
    }
  }

  /** The base name in the scope of its class: after the last pair of colons stands only the name of the
      class itself. */
  lemma ContextualMeans(owner: string, base: string, scope: string, name: string)
    requires owner == scope + ("::" + name) && scope != [] && base != []
    requires forall p: nat :: !ColonsAt(":" + name, p)
    ensures Contextual(owner, base) == Some(scope + "::" + base)
  {
    assert owner[|scope|] == ':' && owner[|scope| + 1] == ':' && ColonsAt(owner, |scope|);
    forall p: nat | |scope| < p < |owner| ensures !ColonsAt(owner, p) {
      if ColonsAt(owner, p) {
        assert owner[|scope| + 1..] == ":" + name;
        assert ColonsAt(":" + name, p - |scope| - 1);
      }
    }
    assert owner[..|scope|] == scope;
  }

  /** A class outside any scope has no contextual names. */
  lemma NoContext(owner: string, base: string)
    ensures Contextual(owner, base).None? <==> forall p: nat :: !ColonsAt(owner, p)
  {
  }

  /** The name itself, or the name in the scope of the owner, is known. */
  predicate KnownDirectly(records: Dispatch.Records, owner: string, base: string) {
    base in records || (Contextual(owner, base).Some? && Contextual(owner, base).value in records)
  }

  /** A class that may be found. Of several equivalent names, the order of the hash map decides. */
  ghost predicate MayResolve(records: Dispatch.Records, owner: string, base: string, r: Option<string>) {
    if base in records then r == Some(base)
    else if KnownDirectly(records, owner, base) then r == Contextual(owner, base)
    else if r.Some? then r.value in records && Equivalent(r.value, base)
    else forall name :: name in records ==> !Equivalent(name, base)
  }

  method ResolveRecordName(owner: string, base: string, records: Dispatch.Records) returns (r: Option<string>)
    ensures MayResolve(records, owner, base, r)
  {
    if base in records { return Some(base); }
    var contextual := Contextual(owner, base);
    if contextual.Some? && contextual.value in records { return contextual; }
    var pending := records.Keys;
    while pending != {}
      invariant pending <= records.Keys
      invariant forall name :: name in records && name !in pending ==> !Equivalent(name, base)
      decreases |pending|
    {
      var name :| name in pending;
      if Equivalent(name, base) { return Some(name); }
      pending := pending - {name};
    }
    r := None;
  }

  ghost predicate OneEquivalent(records: Dispatch.Records, base: string) {
    forall x, y :: x in records && y in records && Equivalent(x, base) && Equivalent(y, base) ==> x == y
  }

  ghost predicate Certain(records: Dispatch.Records, owner: string, base: string) {
    KnownDirectly(records, owner, base) || OneEquivalent(records, base)
  }

  /** The class found does not depend on the order of the hash map exactly when the name is known
      directly or at most one class has an equivalent name. */
  lemma ResolvedOnceIff(records: Dispatch.Records, owner: string, base: string)
    ensures (forall r, s :: MayResolve(records, owner, base, r) && MayResolve(records, owner, base, s) ==> r == s)
      <==> Certain(records, owner, base)
  {
    hide Equivalent, Contextual;
    if !Certain(records, owner, base) {
      var x, y :| x in records && y in records && Equivalent(x, base) && Equivalent(y, base) && x != y;
      assert MayResolve(records, owner, base, Some(x)) && MayResolve(records, owner, base, Some(y));
    }
  }

  ghost function AnyChoice(records: Dispatch.Records, owner: string, base: string): (r: Option<string>)
    ensures MayResolve(records, owner, base, r)
  {
    hide Equivalent, Contextual;
    if KnownDirectly(records, owner, base) then if base in records then Some(base) else Contextual(owner, base)
    else if name :| name in records && Equivalent(name, base) then Some(name)
    else None
  }

  // ---- the ancestors that are possible, and those that can be avoided

  /** One way to resolve all names: an order of the hash map. */
  ghost predicate Admissible(records: Dispatch.Records, resolve: Resolver) {
    forall owner, base :: MayResolve(records, owner, base, resolve(owner, base))
  }

  ghost predicate MayName(records: Dispatch.Records, derived: string, y: string, z: string) {
    y in records && exists b :: b in records[y] && MayResolve(records, derived, b, Some(z))
  }

  ghost function MayArcs(records: Dispatch.Records, derived: string): set<(string, string)> {
    set y, z | y in records && z in records && MayName(records, derived, y, z) :: (y, z)
  }

  /** Some way to resolve each name leads from the derived class to x; the same name may be resolved
      in different ways. */
  ghost predicate MayAncestor(records: Dispatch.Records, derived: string, x: string) {
    exists y :: (derived, y) in MayArcs(records, derived) && Reach(MayArcs(records, derived), y, x)
  }

  ghost predicate SafeChoice(records: Dispatch.Records, derived: string, x: string, S: iset<string>, b: string, r: Option<string>) {
    MayResolve(records, derived, b, r) && (r.Some? ==> r.value != x && r.value in S)
  }

  ghost predicate HasSafe(records: Dispatch.Records, derived: string, x: string, S: iset<string>, b: string) {
    exists r :: SafeChoice(records, derived, x, S, b, r)
  }

  /** From each class of S every base name can be resolved to another class of S that is not x, or
      to none. */
  ghost predicate Avoids(records: Dispatch.Records, derived: string, x: string, S: iset<string>) {
    forall y, b :: y in S && y in records && b in records[y] ==> HasSafe(records, derived, x, S, b)
  }

  ghost predicate Avoidable(records: Dispatch.Records, derived: string, x: string) {
    exists S :: derived in S && Avoids(records, derived, x, S)
  }

  lemma BaseOfArc(records: Dispatch.Records, f: Resolver, derived: string, y: string, z: string) returns (b: string)
    requires (y, z) in BaseArcs(records, f, derived)
    ensures y in records && b in records[y] && f(derived, b) == Some(z)
  {
    b :| b in records[y] && f(derived, b) == Some(z);
  }

  lemma ArcOfBase(records: Dispatch.Records, f: Resolver, derived: string, y: string, b: string)
    requires y in records && b in records[y] && f(derived, b).Some?
    ensures (y, f(derived, b).value) in BaseArcs(records, f, derived)
  {
  }

  lemma ArcsAreMay(records: Dispatch.Records, resolve: Resolver, derived: string)
    requires Admissible(records, resolve)
    ensures BaseArcs(records, resolve, derived) <= MayArcs(records, derived)
  {
    hide Equivalent, Contextual;
    forall p | p in BaseArcs(records, resolve, derived) ensures p in MayArcs(records, derived) {
      var b := BaseOfArc(records, resolve, derived, p.0, p.1);
      assert MayResolve(records, derived, b, resolve(derived, b));
      assert MayName(records, derived, p.0, p.1);
    }
  }

  // ---- the nearest choice leads there

  /** A path of at most n arcs. */
  ghost predicate Within(E: set<(string, string)>, z: string, x: string, n: nat)
    decreases n
  {
    z == x || (n > 0 && exists w :: (z, w) in E && Within(E, w, x, n - 1))
  }

  lemma {:induction false} WithinMono(E: set<(string, string)>, z: string, x: string, m: nat, n: nat)
    requires m <= n && Within(E, z, x, m)
    ensures Within(E, z, x, n)
    decreases n
  {
    if z != x {
      var w :| (z, w) in E && Within(E, w, x, m - 1);
      WithinMono(E, w, x, m - 1, n - 1);
    }
  }

  lemma {:induction false} PathWithin(E: set<(string, string)>, p: seq<string>)
    requires IsPath(E, p)
    ensures Within(E, p[0], p[|p| - 1], |p| - 1)
  {
    if |p| > 1 { PathWithin(E, p[1..]); }
  }

  lemma ReachWithin(E: set<(string, string)>, z: string, x: string) returns (n: nat)
    requires Reach(E, z, x)
    ensures Within(E, z, x, n)
  {
    var p :| IsPath(E, p) && p[0] == z && p[|p| - 1] == x;
    PathWithin(E, p);
    n := |p| - 1;
  }

  ghost predicate Leads(records: Dispatch.Records, derived: string, x: string, b: string, n: nat, z: string) {
    MayResolve(records, derived, b, Some(z)) && Within(MayArcs(records, derived), z, x, n)
  }

  ghost predicate SomeLeads(records: Dispatch.Records, derived: string, x: string, b: string, n: nat) {
    exists z :: Leads(records, derived, x, b, n, z)
  }

  /** The class for a base name from which x is nearest, of those at most n arcs from it. */
  ghost function Nearest(records: Dispatch.Records, derived: string, x: string, b: string, n: nat): (r: Option<string>)
    ensures MayResolve(records, derived, b, r)
  {
    if n > 0 && SomeLeads(records, derived, x, b, n - 1) then Nearest(records, derived, x, b, n - 1)
    else if z :| Leads(records, derived, x, b, n, z) then Some(z)
    else AnyChoice(records, derived, b)
  }

  lemma {:induction false} NearestLeads(records: Dispatch.Records, derived: string, x: string, b: string, m: nat, n: nat, z: string)
    requires m <= n && Leads(records, derived, x, b, m, z)
    ensures var r := Nearest(records, derived, x, b, n); r.Some? && Leads(records, derived, x, b, m, r.value)
  {
    hide MayResolve;
    if m < n {
      WithinMono(MayArcs(records, derived), z, x, m, n - 1);
      assert Leads(records, derived, x, b, n - 1, z);
      NearestLeads(records, derived, x, b, m, n - 1, z);
    } else if m > 0 && SomeLeads(records, derived, x, b, m - 1) {
      var w :| Leads(records, derived, x, b, m - 1, w);
      NearestLeads(records, derived, x, b, m - 1, m - 1, w);
      WithinMono(MayArcs(records, derived), Nearest(records, derived, x, b, n).value, x, m - 1, m);
    }
  }

  ghost function ToNearest(records: Dispatch.Records, derived: string, x: string, n: nat): Resolver {
    (owner, b) => if owner == derived then Nearest(records, derived, x, b, n) else AnyChoice(records, owner, b)
  }

  lemma NearestArc(records: Dispatch.Records, derived: string, x: string, n: nat, m: nat, y: string, w: string) returns (z: string)
    requires m <= n && (y, w) in MayArcs(records, derived) && Within(MayArcs(records, derived), w, x, m)
    ensures (y, z) in BaseArcs(records, ToNearest(records, derived, x, n), derived) && Within(MayArcs(records, derived), z, x, m)
  {
    hide MayResolve, Within;
    var b :| b in records[y] && MayResolve(records, derived, b, Some(w));
    NearestLeads(records, derived, x, b, m, n, w);
    z := Nearest(records, derived, x, b, n).value;
    ArcOfBase(records, ToNearest(records, derived, x, n), derived, y, b);
  }

  lemma {:induction false} NearestReaches(records: Dispatch.Records, derived: string, x: string, n: nat, m: nat, y: string)
    requires m <= n && Within(MayArcs(records, derived), y, x, m)
    ensures Reach(BaseArcs(records, ToNearest(records, derived, x, n), derived), y, x)
  {
    hide BaseArcs, ToNearest;
    var F := BaseArcs(records, ToNearest(records, derived, x, n), derived);
    ReachRefl(F, x);
    if y != x {
      var w :| (y, w) in MayArcs(records, derived) && Within(MayArcs(records, derived), w, x, m - 1);
      var z := NearestArc(records, derived, x, n, m - 1, y, w);
      NearestReaches(records, derived, x, n, m - 1, z);
      ReachStep(F, y, z, x);
    }
  }

  lemma NearestAdmissible(records: Dispatch.Records, derived: string, x: string, n: nat)
    ensures Admissible(records, ToNearest(records, derived, x, n))
  {
    hide MayResolve;
    var f := ToNearest(records, derived, x, n);
    forall owner, b ensures MayResolve(records, owner, b, f(owner, b)) {
      if owner == derived { assert f(owner, b) == Nearest(records, derived, x, b, n); }
    }
  }

  /** A class is an ancestor under some order of the hash map exactly when it is reached along base
      names as they may be resolved, each occurrence by itself. */
  lemma MayAncestorIff(records: Dispatch.Records, derived: string, x: string)
    ensures MayAncestor(records, derived, x) <==> exists f :: Admissible(records, f) && IsAncestor(records, f, derived, x)
  {
    hide BaseArcs, MayArcs, MayResolve;
    if f: Resolver :| Admissible(records, f) && IsAncestor(records, f, derived, x) {
      ArcsAreMay(records, f, derived);
      var y :| (derived, y) in BaseArcs(records, f, derived) && Reach(BaseArcs(records, f, derived), y, x);
      ReachMono(BaseArcs(records, f, derived), MayArcs(records, derived), y, x);
    }
    if MayAncestor(records, derived, x) {
      var y :| (derived, y) in MayArcs(records, derived) && Reach(MayArcs(records, derived), y, x);
      var n := ReachWithin(MayArcs(records, derived), y, x);
      var z := NearestArc(records, derived, x, n, n, derived, y);
      NearestReaches(records, derived, x, n, n, z);
      NearestAdmissible(records, derived, x, n);
    }
  }

  // ---- the safe choice does not lead there

  ghost function Safe(records: Dispatch.Records, derived: string, x: string, S: iset<string>, b: string): (r: Option<string>)
    ensures MayResolve(records, derived, b, r)
    ensures HasSafe(records, derived, x, S, b) ==> SafeChoice(records, derived, x, S, b, r)
  {
    if r :| SafeChoice(records, derived, x, S, b, r) then r else AnyChoice(records, derived, b)
  }

  ghost function ToSafe(records: Dispatch.Records, derived: string, x: string, S: iset<string>): Resolver {
    (owner, b) => if owner == derived then Safe(records, derived, x, S, b) else AnyChoice(records, owner, b)
  }

  lemma SafeStays(records: Dispatch.Records, derived: string, x: string, S: iset<string>)
    requires derived in S && Avoids(records, derived, x, S)
    ensures Admissible(records, ToSafe(records, derived, x, S)) && !IsAncestor(records, ToSafe(records, derived, x, S), derived, x)
  {
    hide MayResolve;
    var f := ToSafe(records, derived, x, S);
    var E := BaseArcs(records, f, derived);
    forall y, z | y in S && (y, z) in E ensures z in S && z != x {
      var b := BaseOfArc(records, f, derived, y, z);
      assert HasSafe(records, derived, x, S, b);
      assert f(derived, b) == Safe(records, derived, x, S, b);
      assert SafeChoice(records, derived, x, S, b, Safe(records, derived, x, S, b));
    }
    if IsAncestor(records, f, derived, x) {
      var y :| (derived, y) in E && Reach(E, y, x);
      assert y in S && y != x;
      var a, b := ReachCrossing(E, y, x, iset z | z in S && z != x);
      assert false;
    }
    forall owner, b ensures MayResolve(records, owner, b, f(owner, b)) {
      if owner == derived { assert f(owner, b) == Safe(records, derived, x, S, b); }
    }
  }

  lemma AncestorNext(records: Dispatch.Records, f: Resolver, derived: string, y: string, z: string)
    requires (y == derived || IsAncestor(records, f, derived, y)) && (y, z) in BaseArcs(records, f, derived)
    ensures IsAncestor(records, f, derived, z)
  {
    hide BaseArcs;
    var E := BaseArcs(records, f, derived);
    if y == derived {
      ReachRefl(E, z);
    } else {
      var w :| (derived, w) in E && Reach(E, w, y);
      ReachArc(E, y, z);
      ReachTrans(E, w, y, z);
    }
  }

  /** A class is no ancestor under some order of the hash map exactly when it can be avoided. */
  lemma AvoidableIff(records: Dispatch.Records, derived: string, x: string)
    ensures Avoidable(records, derived, x) <==> exists f :: Admissible(records, f) && !IsAncestor(records, f, derived, x)
  {
    hide IsAncestor, MayResolve;
    if Avoidable(records, derived, x) {
      var S :| derived in S && Avoids(records, derived, x, S);
      SafeStays(records, derived, x, S);
    }
    if f: Resolver :| Admissible(records, f) && !IsAncestor(records, f, derived, x) {
      var S := iset z | z == derived || IsAncestor(records, f, derived, z);
      forall y, b | y in S && y in records && b in records[y] ensures HasSafe(records, derived, x, S, b) {
        var r := f(derived, b);
        if r.Some? {
          ArcOfBase(records, f, derived, y, b);
          AncestorNext(records, f, derived, y, r.value);
        }
        assert SafeChoice(records, derived, x, S, b, r);
      }
      assert Avoids(records, derived, x, S);
    }
  }

  // ---- when the order cannot be seen

  /** No class that may be an ancestor can be avoided. */
  ghost predicate AncestorsCertain(records: Dispatch.Records) {
    forall derived, x :: derived != [] && x != [] && MayAncestor(records, derived, x) ==> !Avoidable(records, derived, x)
  }

  ghost predicate SameDispatch(records: Dispatch.Records, f: Resolver, g: Resolver) {
    forall symbols :: DispatchFacts(symbols, records, f) == DispatchFacts(symbols, records, g)
  }

  function MethodIn(className: string): Symbol {
    MergeOrder.Named("f").symbols[0].(className := className, kind := Method, isVirtual := true)
  }

  function TwoMethods(derived: string, x: string): map<string, Symbol> {
    map["base" := MethodIn(x), "derived" := MethodIn(derived)]
  }

  lemma TwoMethodsTell(records: Dispatch.Records, f: Resolver, derived: string, x: string)
    requires derived != [] && x != []
    ensures DispatchEdge("base", "derived") in DispatchFacts(TwoMethods(derived, x), records, f) <==> IsAncestor(records, f, derived, x)
  {
    hide IsAncestor;
    var m := TwoMethods(derived, x);
    assert Overrides(m["base"], m["derived"]);
  }

  lemma SameAncestors(records: Dispatch.Records, f: Resolver, g: Resolver)
    requires forall derived, x :: derived != [] && x != [] ==> (IsAncestor(records, f, derived, x) <==> IsAncestor(records, g, derived, x))
    ensures SameDispatch(records, f, g)
  {
    hide IsAncestor;
  }

  /** The override edges of every set of symbols are the same in every order of the hash map exactly
      when no class that may be an ancestor can be avoided. */
  lemma SameDispatchIff(records: Dispatch.Records)
    ensures (forall f, g :: Admissible(records, f) && Admissible(records, g) ==> SameDispatch(records, f, g)) <==> AncestorsCertain(records)
  {
    hide Admissible, IsAncestor, MayAncestor, Avoidable, DispatchFacts;
    if AncestorsCertain(records) {
      forall f, g | Admissible(records, f) && Admissible(records, g) ensures SameDispatch(records, f, g) {
        OneOrderForAll(records, f, g);
      }
    } else {
      var derived, x :| derived != [] && x != [] && MayAncestor(records, derived, x) && Avoidable(records, derived, x);
      MayAncestorIff(records, derived, x);
      AvoidableIff(records, derived, x);
      var f: Resolver :| Admissible(records, f) && IsAncestor(records, f, derived, x);
      var g: Resolver :| Admissible(records, g) && !IsAncestor(records, g, derived, x);
      TwoMethodsTell(records, f, derived, x);
      TwoMethodsTell(records, g, derived, x);
      assert !SameDispatch(records, f, g);
    }
  }

  lemma OneOrderForAll(records: Dispatch.Records, f: Resolver, g: Resolver)
    requires AncestorsCertain(records) && Admissible(records, f) && Admissible(records, g)
    ensures SameDispatch(records, f, g)
  {
    hide Admissible, IsAncestor, MayAncestor, Avoidable, DispatchFacts;
    forall derived, x | derived != [] && x != [] ensures IsAncestor(records, f, derived, x) <==> IsAncestor(records, g, derived, x) {
      MayAncestorIff(records, derived, x);
      AvoidableIff(records, derived, x);
    }
    SameAncestors(records, f, g);
  }

  /** Every base name that is spelled in the hierarchy is certain in every class. */
  ghost predicate CertainHierarchy(records: Dispatch.Records) {
    forall owner, y, b :: owner in records && y in records && b in records[y] ==> Certain(records, owner, b)
  }

  lemma SameArcs(records: Dispatch.Records, f: Resolver, g: Resolver, derived: string)
    requires Admissible(records, f) && Admissible(records, g) && CertainHierarchy(records) && derived in records
    ensures BaseArcs(records, f, derived) == BaseArcs(records, g, derived)
  {
    hide MayResolve, Certain;
    forall y, b | y in records && b in records[y] ensures f(derived, b) == g(derived, b) {
      ResolvedOnceIff(records, derived, b);
    }
  }

  /** It is enough that every name is certain. */
  lemma CertainNamesSuffice(records: Dispatch.Records)
    requires CertainHierarchy(records)
    ensures AncestorsCertain(records)
  {
    hide Admissible, CertainHierarchy, Reach, MayAncestor, Avoidable;
    forall derived, x | MayAncestor(records, derived, x) && Avoidable(records, derived, x) ensures false {
      MayAncestorIff(records, derived, x);
      AvoidableIff(records, derived, x);
      var f: Resolver :| Admissible(records, f) && IsAncestor(records, f, derived, x);
      var g: Resolver :| Admissible(records, g) && !IsAncestor(records, g, derived, x);
      SameArcs(records, f, g, derived);
    }
  }

  // ---- an input

  const TWO_BASES: Dispatch.Records := map["a::B" := [], "c::B" := [], "D" := ["B"]]

  ghost function Prefer(name: string): Resolver {
    (owner, b) => if owner == "D" && b == "B" then Some(name) else AnyChoice(TWO_BASES, owner, b)
  }

  lemma EitherMayBe(name: string)
    requires name == "a::B" || name == "c::B"
    ensures MayResolve(TWO_BASES, "D", "B", Some(name))
  {
    assert LastColons("D", 1) == None;
    assert Equivalent(name, "B");
  }

  lemma PreferAdmissible(name: string)
    requires MayResolve(TWO_BASES, "D", "B", Some(name))
    ensures Admissible(TWO_BASES, Prefer(name))
  {
    hide MayResolve;
  }

  lemma OneArc(name: string, y: string, z: string)
    ensures (y, z) in BaseArcs(TWO_BASES, Prefer(name), "D") <==> y == "D" && z == name
  {
    hide AnyChoice, BaseArcs;
    assert TWO_BASES["D"] == ["B"] && "B" in TWO_BASES["D"];
    ArcOfBase(TWO_BASES, Prefer(name), "D", "D", "B");
    if (y, z) in BaseArcs(TWO_BASES, Prefer(name), "D") {
      var b := BaseOfArc(TWO_BASES, Prefer(name), "D", y, z);
      assert b == "B";
    }
  }

  lemma OnlyPreferred(name: string, x: string)
    requires x != "D" && name != "D"
    ensures IsAncestor(TWO_BASES, Prefer(name), "D", x) <==> x == name
  {
    hide Prefer, BaseArcs;
    var E := BaseArcs(TWO_BASES, Prefer(name), "D");
    OneArc(name, "D", name);
    ReachRefl(E, name);
    if IsAncestor(TWO_BASES, Prefer(name), "D", x) {
      var y :| ("D", y) in E && Reach(E, y, x);
      OneArc(name, "D", y);
      if x != name {
        var a, b := ReachCrossing(E, name, x, iset{name});
        OneArc(name, a, b);
      }
    }
  }

  /** A class D names a base B, and there are B in two namespaces: either may be taken, and then a
      virtual method of a::B has an edge to the method of D, or it has none. */
  lemma BaseDependsOnOrder()
    ensures MayResolve(TWO_BASES, "D", "B", Some("a::B")) && MayResolve(TWO_BASES, "D", "B", Some("c::B"))
    ensures Admissible(TWO_BASES, Prefer("a::B")) && Admissible(TWO_BASES, Prefer("c::B"))
    ensures DispatchEdge("base", "derived") in DispatchFacts(TwoMethods("D", "a::B"), TWO_BASES, Prefer("a::B"))
    ensures DispatchEdge("base", "derived") !in DispatchFacts(TwoMethods("D", "a::B"), TWO_BASES, Prefer("c::B"))
  {
    hide *;
    EitherMayBe("a::B");
    EitherMayBe("c::B");
    PreferAdmissible("a::B");
    PreferAdmissible("c::B");
    assert "a::B"[0] != "D"[0] && "a::B"[0] != "c::B"[0] && "c::B"[0] != "D"[0];
    OnlyPreferred("a::B", "a::B");
    OnlyPreferred("c::B", "a::B");
    TwoMethodsTell(TWO_BASES, Prefer("a::B"), "D", "a::B");
    TwoMethodsTell(TWO_BASES, Prefer("c::B"), "D", "a::B");
  }

  // ---- what this means for the index

  /** Every class hierarchy that the run may come to is resolved by one of the ways to do so. */
  ghost predicate AdmissibleFor(run: Run, extract: Extractor, resolverOf: ResolverOf) {
    var t := AddUnits(run.units, run.files, extract, run.rules);
    t.Some? ==> Admissible(t.value.side.records, resolverOf(t.value.side.records))
  }

  ghost predicate CertainRun(run: Run, extract: Extractor) {
    var t := AddUnits(run.units, run.files, extract, run.rules);
    t.Some? ==> AncestorsCertain(t.value.side.records)
  }

  lemma SameIndex(run: Run, extract: Extractor, f: ResolverOf, g: ResolverOf)
    requires AdmissibleFor(run, extract, f) && AdmissibleFor(run, extract, g) && CertainRun(run, extract)
    ensures Index(run.units, run.files, extract, run.rules, run.options, f)
         == Index(run.units, run.files, extract, run.rules, run.options, g)
  {
    hide AddUnits, Admissible, AncestorsCertain, DispatchFacts, ManualFacts, Acceptable, AllMessages;
    var t := AddUnits(run.units, run.files, extract, run.rules);
    if t.Some? {
      OneOrderForAll(t.value.side.records, f(t.value.side.records), g(t.value.side.records));
    }
  }

  /** When no possible ancestor can be avoided, the cache changes the result under the same condition
      as before, even if the orders of the two hash maps differ. */
  lemma WarmEqualsColdInAnyOrder(run: Run, extract: Extractor, f: ResolverOf, g: ResolverOf, store: Store, hashed: Hashed,
                                 warm: RunResult, cold: RunResult)
    requires AdmissibleFor(run, extract, f) && AdmissibleFor(run, extract, g) && CertainRun(run, extract)
    requires Sound(run, hashed) && Deterministic(extract) && CollisionFree(hashed) && Trusted(store, extract, hashed, 0)
    requires Correct(run, extract, f, Some(store), warm) && Correct(run, extract, g, None, cold)
    ensures warm == cold <==>
      Fails(run, extract, f, Some(store)) || forall i :: 0 <= i < |run.units| ==> !HitOverLimit(run, Some(store), i)
  {
    hide Index, AdmissibleFor, CertainRun, Presents, OverLimit, HitOverLimit, AllHashed, Deterministic, CollisionFree, Trusted;
    SameIndex(run, extract, f, g);
    WarmEqualsColdIff(run, extract, f, store, hashed, warm, cold);
  }
}
