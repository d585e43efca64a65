/** When an expansion is possible, told by the chains of files that name one another. */
module ResponseChains {
  import opened Orders
  import opened ResponseFiles
  import opened Shell

  predicate Readable(x: Context, p: string) {
    p in x.files && Split(x.files[p]).Ok?
  }

  function Inside(x: Context, p: string): seq<string>
    requires Readable(x, p)
  {
    Split(x.files[p]).value
  }

  ghost predicate Names(x: Context, arguments: seq<string>, p: string) {
    exists a :: a in arguments && IsResponse(a) && x.Path(a) == p
  }

  /** The first file is named by one of the arguments, and each further one by the file before. */
  ghost predicate IsChain(x: Context, arguments: seq<string>, chain: seq<string>)
    decreases |chain|
  {
    chain == [] ||
    (Names(x, arguments, chain[0]) &&
     (|chain| == 1 || (Readable(x, chain[0]) && IsChain(x, Inside(x, chain[0]), chain[1..]))))
  }

  /** A chain below the files of above may be followed. */
  ghost predicate Allowed(x: Context, above: seq<string>, chain: seq<string>) {
    && |above| + |chain| <= 16
    && Distinct(chain)
    && (forall p :: p in chain ==> p !in above && Readable(x, p))
  }

  lemma {:induction false} EachExpandable(x: Context, arguments: seq<string>, above: seq<string>, a: string)
    requires |above| <= MAX_DEPTH && AllExpandable(x, arguments, above) && a in arguments
    ensures Expandable(x, a, above)
  {
    hide Expandable;
    if a != arguments[|arguments| - 1] {
      EachExpandable(x, arguments[..|arguments| - 1], above, a);
    }
  }

  lemma AllowedCons(x: Context, above: seq<string>, p: string, rest: seq<string>)
    ensures Allowed(x, above, [p] + rest) <==>
      |above| < MAX_DEPTH && p !in above && Readable(x, p) && Allowed(x, above + [p], rest)
  {
    var chain := [p] + rest;
    assert chain[0] == p && forall i :: 0 <= i < |rest| ==> chain[i + 1] == rest[i];
    if Allowed(x, above, chain) {
      assert p in chain;
      forall q | q in rest ensures q in chain && q != p {
        var i :| 0 <= i < |rest| && rest[i] == q;
        assert chain[i + 1] == q;
      }
      forall i, j | 0 <= i < j < |rest| ensures rest[i] != rest[j] {
        assert chain[i + 1] != chain[j + 1];
      }
    }
    if p !in above && Readable(x, p) && Allowed(x, above + [p], rest) {
      forall i, j | 0 <= i < j < |chain| ensures chain[i] != chain[j] {
        assert rest[j - 1] in rest;
      }
    }
  }

  lemma {:induction false} ExpandableAllows(x: Context, arguments: seq<string>, above: seq<string>, chain: seq<string>)
    requires |above| <= MAX_DEPTH && AllExpandable(x, arguments, above) && IsChain(x, arguments, chain)
    ensures Allowed(x, above, chain)
    decreases |chain|
  {
    if chain != [] {
      hide AllExpandable, Split;
      var p := chain[0];
      var a :| a in arguments && IsResponse(a) && x.Path(a) == p;
      EachExpandable(x, arguments, above, a);
      assert chain == [p] + chain[1..];
      ExpandableAllows(x, Inside(x, p), above + [p], chain[1..]);
      AllowedCons(x, above, p, chain[1..]);
    }
  }

  lemma ChainFrom(x: Context, arguments: seq<string>, a: string, rest: seq<string>)
    requires a in arguments && IsResponse(a)
    requires rest == [] || (Readable(x, x.Path(a)) && IsChain(x, Inside(x, x.Path(a)), rest))
    ensures IsChain(x, arguments, [x.Path(a)] + rest)
  {
    hide Split;
    assert ([x.Path(a)] + rest)[1..] == rest;
  }

  lemma FewerNames(x: Context, init: seq<string>, arguments: seq<string>, chain: seq<string>)
    requires (forall a :: a in init ==> a in arguments) && IsChain(x, init, chain)
    ensures IsChain(x, arguments, chain)
  {
    hide Split;
  }

  lemma {:induction false} AllowedExpandable(x: Context, arguments: seq<string>, above: seq<string>)
    requires |above| <= MAX_DEPTH
    requires forall chain :: IsChain(x, arguments, chain) ==> Allowed(x, above, chain)
    ensures AllExpandable(x, arguments, above)
    decreases MAX_DEPTH - |above|, |arguments|
  {
    hide Split, IsChain, Allowed;
    if arguments != [] {
      var init, a := arguments[..|arguments| - 1], arguments[|arguments| - 1];
      forall chain | IsChain(x, init, chain) ensures Allowed(x, above, chain) {
        FewerNames(x, init, arguments, chain);
      }
      AllowedExpandable(x, init, above);
      if IsResponse(a) {
        var p := x.Path(a);
        ChainFrom(x, arguments, a, []);
        AllowedCons(x, above, p, []);
        assert [p] + [] == [p];
        forall rest | IsChain(x, Inside(x, p), rest) ensures Allowed(x, above + [p], rest) {
          ChainFrom(x, arguments, a, rest);
          AllowedCons(x, above, p, rest);
        }
        AllowedExpandable(x, Inside(x, p), above + [p]);
      }
    }
  }

  /** Arguments can be expanded exactly when on every chain of files that starts from them no file
      occurs twice, there are at most sixteen files, and every file can be read and split. */
  lemma ExpandableIffChainsAllowed(x: Context, arguments: seq<string>)
    ensures AllExpandable(x, arguments, []) <==> forall chain :: IsChain(x, arguments, chain) ==> Allowed(x, [], chain)
  {
    hide AllExpandable, IsChain, Allowed;
    if AllExpandable(x, arguments, []) {
      forall chain | IsChain(x, arguments, chain) ensures Allowed(x, [], chain) {
        ExpandableAllows(x, arguments, [], chain);
      }
    }
    if forall chain :: IsChain(x, arguments, chain) ==> Allowed(x, [], chain) {
      AllowedExpandable(x, arguments, []);
    }
  }
}
