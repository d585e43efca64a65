/** Expanding response files: an argument @file stands for the arguments in the file. */
module ResponseFiles {
  import opened Wrappers
  import opened Shell

  const MAX_DEPTH := 16
  const MAX_BYTES := 16 * 1024 * 1024

  predicate IsResponse(argument: string) {
    |argument| > 1 && argument[0] == '@'
  }

  /** The files that can be read, and the normalized path that an argument names. */
  datatype Context = Context(files: map<string, string>, pathOf: string -> string)
  {
    function Path(argument: string): string
      requires IsResponse(argument)
    {
      pathOf(argument[1..])
    }
  }

  // ---- what an expansion is, without limits on bytes

  /** The files on the way to an argument are distinct and at most sixteen, and every file can be
      read and split. */
  predicate Expandable(x: Context, argument: string, chain: seq<string>)
    requires |chain| <= MAX_DEPTH
    decreases MAX_DEPTH - |chain|, 0
  {
    !IsResponse(argument) ||
    (var p := x.Path(argument);
     && |chain| < MAX_DEPTH && p !in chain && p in x.files && Split(x.files[p]).Ok?
     && AllExpandable(x, Split(x.files[p]).value, chain + [p]))
  }

  predicate AllExpandable(x: Context, arguments: seq<string>, chain: seq<string>)
    requires |chain| <= MAX_DEPTH
    decreases MAX_DEPTH - |chain|, |arguments| + 1
  {
    arguments == [] ||
    (AllExpandable(x, arguments[..|arguments| - 1], chain) && Expandable(x, arguments[|arguments| - 1], chain))
  }

  /** The depth-first flattening, the files read in order, and their bytes. */
  datatype Expanded = Expanded(arguments: seq<string>, inputs: seq<string>, bytes: nat)

  function Append(a: Expanded, b: Expanded): Expanded {
    Expanded(a.arguments + b.arguments, a.inputs + b.inputs, a.bytes + b.bytes)
  }

  const NONE := Expanded([], [], 0)

  function Expand(x: Context, argument: string, chain: seq<string>): Expanded
    requires |chain| <= MAX_DEPTH && Expandable(x, argument, chain)
    decreases MAX_DEPTH - |chain|, 0
  {
    if !IsResponse(argument) then Expanded([argument], [], 0)
    else
      var p := x.Path(argument);
      Append(Expanded([], [p], |x.files[p]|), ExpandAll(x, Split(x.files[p]).value, chain + [p]))
  }

  function ExpandAll(x: Context, arguments: seq<string>, chain: seq<string>): Expanded
    requires |chain| <= MAX_DEPTH && AllExpandable(x, arguments, chain)
    decreases MAX_DEPTH - |chain|, |arguments| + 1
  {
    if arguments == [] then NONE
    else Append(ExpandAll(x, arguments[..|arguments| - 1], chain), Expand(x, arguments[|arguments| - 1], chain))
  }

  predicate Fits(x: Context, argument: string, chain: seq<string>, bytes: nat)
    requires |chain| <= MAX_DEPTH
  {
    Expandable(x, argument, chain) && bytes + Expand(x, argument, chain).bytes <= 0x100_0000
  }

  predicate AllFit(x: Context, arguments: seq<string>, chain: seq<string>, bytes: nat)
    requires |chain| <= MAX_DEPTH
  {
    AllExpandable(x, arguments, chain) && bytes + ExpandAll(x, arguments, chain).bytes <= 0x100_0000
  }

  /** If a prefix fails, or needs too many bytes, so does the whole list. */
  lemma {:induction false} PrefixFails(x: Context, arguments: seq<string>, i: nat, chain: seq<string>, bytes: nat)
    requires |chain| <= MAX_DEPTH && i <= |arguments| && !AllFit(x, arguments[..i], chain, bytes)
    ensures !AllFit(x, arguments, chain, bytes)
  {
    hide Expandable, Expand;
    if i < |arguments| {
      var init := arguments[..|arguments| - 1];
      assert init[..i] == arguments[..i];
      PrefixFails(x, init, i, chain, bytes);
    } else {
      assert arguments[..i] == arguments;
    }
  }

  // ---- nothing is left to expand

  ghost predicate Plain(arguments: seq<string>) {
    forall a :: a in arguments ==> !IsResponse(a)
  }

  lemma {:induction false} ExpandedIsPlain(x: Context, argument: string, chain: seq<string>)
    requires |chain| <= MAX_DEPTH && Expandable(x, argument, chain)
    ensures Plain(Expand(x, argument, chain).arguments)
    decreases MAX_DEPTH - |chain|, 0
  {
    if IsResponse(argument) {
      AllExpandedIsPlain(x, Split(x.files[x.Path(argument)]).value, chain + [x.Path(argument)]);
    }
  }

  /** No argument of the result is longer than one character and starts with an at sign. */
  lemma {:induction false} AllExpandedIsPlain(x: Context, arguments: seq<string>, chain: seq<string>)
    requires |chain| <= MAX_DEPTH && AllExpandable(x, arguments, chain)
    ensures Plain(ExpandAll(x, arguments, chain).arguments)
    decreases MAX_DEPTH - |chain|, |arguments| + 1
  {
    hide Expand, Expandable;
    if arguments != [] {
      AllExpandedIsPlain(x, arguments[..|arguments| - 1], chain);
      ExpandedIsPlain(x, arguments[|arguments| - 1], chain);
    }
  }

  /** Arguments without response files are left as they are. */
  lemma {:induction false} PlainUnchanged(x: Context, arguments: seq<string>, chain: seq<string>)
    requires |chain| <= MAX_DEPTH && Plain(arguments)
    ensures AllExpandable(x, arguments, chain) && ExpandAll(x, arguments, chain) == Expanded(arguments, [], 0)
  {
    hide Split;
    if arguments != [] {
      var init, last := arguments[..|arguments| - 1], arguments[|arguments| - 1];
      forall a | a in init ensures !IsResponse(a) { assert a in arguments; }
      assert last in arguments && arguments == init + [last];
      PlainUnchanged(x, init, chain);
    }
  }

  // ---- the program

  datatype Failure = TooDeep | Cyclic | CannotOpen | TooLarge | BadSyntax

  class Expansion {
    const context: Context
    var bytes: nat
    var active: set<string>
    var inputs: seq<string>
    var output: seq<string>

    constructor (context: Context)
      ensures this.context == context && bytes == 0 && active == {} && inputs == [] && output == []
    {
      this.context := context;
      bytes, active, inputs, output := 0, {}, [], [];
    }

    /** The state is that of before with e added. */
    twostate predicate Grown(e: Expanded)
      reads this
    {
      output == old(output) + e.arguments && inputs == old(inputs) + e.inputs && bytes == old(bytes) + e.bytes
    }

    /** Expands one argument that is reached through the files of chain. It succeeds exactly when
        the argument fits; the active set is as it was, in either case. */
    method ExpandArgument(argument: string, ghost chain: seq<string>, depth: nat) returns (r: Result<(), Failure>)
      requires depth == |chain| <= MAX_DEPTH && active == (set p | p in chain) && bytes <= MAX_BYTES
      modifies this`bytes, this`active, this`inputs, this`output
      ensures r.Ok? <==> Fits(context, argument, chain, old(bytes))
      ensures r.Ok? ==> Grown(Expand(context, argument, chain))
      ensures active == old(active) && bytes <= MAX_BYTES
      decreases MAX_DEPTH - depth, 0
    {
      hide Split, AllExpandable, ExpandAll;
      if !IsResponse(argument) {
        output := output + [argument];
        return Ok(());
      }
      if depth >= MAX_DEPTH { return Err(TooDeep); }
      var path := context.Path(argument);
      if path in active { return Err(Cyclic); }
      ghost var before := active;
      active := active + {path};
      r := ExpandFile(path, chain + [path], depth + 1);
      active := active - {path};
      assert active == before;
    }

    /** Reads a file and expands its arguments. */
    method ExpandFile(path: string, ghost chain: seq<string>, depth: nat) returns (r: Result<(), Failure>)
      requires 0 < depth == |chain| <= MAX_DEPTH && chain[depth - 1] == path && active == (set p | p in chain) && bytes <= MAX_BYTES
      modifies this`bytes, this`active, this`inputs, this`output
      ensures r.Ok? <==>
        && path in context.files && Split(context.files[path]).Ok?
        && AllFit(context, Split(context.files[path]).value, chain, old(bytes) + |context.files[path]|)
      ensures r.Ok? ==>
        Grown(Append(Expanded([], [path], |context.files[path]|), ExpandAll(context, Split(context.files[path]).value, chain)))
      ensures active == old(active) && bytes <= MAX_BYTES
      decreases MAX_DEPTH - depth, 1
    {
      hide Split, Expandable, Expand, AllExpandable, ExpandAll;
      if path !in context.files { return Err(CannotOpen); }
      var text := context.files[path];
      if |text| > MAX_BYTES - (if bytes < MAX_BYTES then bytes else MAX_BYTES) { return Err(TooLarge); }
      bytes := bytes + |text|;
      inputs := inputs + [path];
      var split := SplitShellCommand(text);
      if split.Err? { return Err(BadSyntax); }
      var arguments := split.value;
      ghost var start, ins, outs := bytes, inputs, output;
      NothingYet(context, chain);
      for i := 0 to |arguments|
        invariant active == old(active) && bytes <= MAX_BYTES && AllFit(context, arguments[..i], chain, start)
        invariant var e := ExpandAll(context, arguments[..i], chain);
                  output == outs + e.arguments && inputs == ins + e.inputs && bytes == start + e.bytes
      {
        OneMore(context, arguments, i, chain);
        var one := ExpandArgument(arguments[i], chain, depth);
        if one.Err? {
          PrefixFails(context, arguments, i + 1, chain, start);
          return one;
        }
      }
      assert arguments[..|arguments|] == arguments;
      r := Ok(());
    }
  }

  lemma NothingYet(x: Context, chain: seq<string>)
    requires |chain| <= MAX_DEPTH
    ensures forall none: seq<string> :: none == [] ==> AllExpandable(x, none, chain) && ExpandAll(x, none, chain) == NONE
  {
  }

  lemma OneMore(x: Context, arguments: seq<string>, i: nat, chain: seq<string>)
    requires |chain| <= MAX_DEPTH && i < |arguments| && AllExpandable(x, arguments[..i], chain)
    ensures AllExpandable(x, arguments[..i + 1], chain) <==> Expandable(x, arguments[i], chain)
    ensures Expandable(x, arguments[i], chain) ==>
      ExpandAll(x, arguments[..i + 1], chain) == Append(ExpandAll(x, arguments[..i], chain), Expand(x, arguments[i], chain))
  {
    hide Expandable, Expand;
    assert arguments[..i + 1][..i] == arguments[..i];
  }

  /** Expands the arguments of a command: it succeeds exactly when no file repeats on its own
      chain, no chain is deeper than sixteen files, every file can be read and split, and the bytes
      of all expansions together are at most sixteen mebibytes. */
  method ExpandArguments(context: Context, arguments: seq<string>) returns (r: Result<(seq<string>, seq<string>), Failure>)
    ensures r.Ok? <==> AllFit(context, arguments, [], 0)
    ensures r.Ok? ==> var e := ExpandAll(context, arguments, []); r.value == (e.arguments, e.inputs) && Plain(e.arguments)
  {
    hide Expandable, Expand, AllExpandable, ExpandAll, Plain;
    var expansion := new Expansion(context);
    NothingYet(context, []);
    for i := 0 to |arguments|
      invariant fresh(expansion) && expansion.context == context
      invariant expansion.active == {} && expansion.bytes <= MAX_BYTES && AllFit(context, arguments[..i], [], 0)
      invariant var e := ExpandAll(context, arguments[..i], []);
                expansion.output == e.arguments && expansion.inputs == e.inputs && expansion.bytes == e.bytes
    {
      OneMore(context, arguments, i, []);
      assert expansion.active == set p | p in [];
      var one := expansion.ExpandArgument(arguments[i], [], 0);
      if one.Err? {
        PrefixFails(context, arguments, i + 1, [], 0);
        return Err(one.error);
      }
    }
    assert arguments[..|arguments|] == arguments;
    AllExpandedIsPlain(context, arguments, []);
    r := Ok((expansion.output, expansion.inputs));
  }

  /** An argument names a response file exactly when it is an at-sign and a path that is not empty. */
  lemma ResponseMeans(argument: string)
    ensures IsResponse(argument) <==> exists path :: path != [] && argument == "@" + path
  {
    if IsResponse(argument) { assert argument[1..] != [] && argument == "@" + argument[1..]; }
  }
}
