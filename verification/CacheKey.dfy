/** The text that is hashed into a cache key: every input of an extraction, each as a component
    whose lengths are written before it. */
module CacheKey {
  import opened Wrappers
  import opened Text
  import opened Providers

  datatype Rule = Rule(callee: Selector, argument: nat, provider: string, reason: string)

  datatype CommandInput = CommandInput(path: string, digest: string)

  /** The compiler that the AST frontend would run, when it can be found. */
  datatype Compiler = Compiler(path: string, fingerprint: string)

  /** Everything that goes into a key. The environment lists the values of fixed variables. */
  datatype KeyInputs = KeyInputs(
    binary: string, frontend: string, directory: string, file: string, configuration: string,
    projectRoot: string, clang: string, compiler: Option<Compiler>, astFilter: string,
    verbose: bool, inferExports: bool, requireApi: bool,
    arguments: seq<string>, inputs: seq<CommandInput>, reportPaths: seq<string>, excludedPaths: seq<string>,
    selectedSources: seq<string>, publicHeaders: seq<string>, rules: seq<Rule>,
    environment: seq<Option<string>>)

  const VARIABLES := [
    "PATH", "CPATH", "CPLUS_INCLUDE_PATH", "C_INCLUDE_PATH", "OBJC_INCLUDE_PATH",
    "GCC_EXEC_PREFIX", "COMPILER_PATH", "LIBRARY_PATH", "SDKROOT", "MACOSX_DEPLOYMENT_TARGET",
    "SOURCE_DATE_EPOCH", "CLANG_CONFIG_FILE_SYSTEM_DIR", "CLANG_CONFIG_FILE_USER_DIR", "LANG", "LC_ALL"]

  predicate Formed(k: KeyInputs) {
    |k.environment| == |VARIABLES|
  }

  // ---- components

  datatype Parts = Done | Part(name: string, value: string, rest: Parts)

  function PartText(name: string, value: string, rest: string): string {
    Decimal(|name|) + ([':'] + (name + (Decimal(|value|) + ([':'] + (value + rest)))))
  }

  function PartsText(p: Parts): string {
    match p
    case Done => []
    case Part(name, value, rest) => PartText(name, value, PartsText(rest))
  }

  lemma SizedPrefix(v: string, w: string, x: string, y: string)
    requires Decimal(|v|) + ([':'] + (v + x)) == Decimal(|w|) + ([':'] + (w + y))
    ensures v == w && x == y
  {
    NumeralPrefix(|v|, |w|, [':'] + (v + x), [':'] + (w + y));
    assert v + x == ([':'] + (v + x))[1..] && w + y == ([':'] + (w + y))[1..];
    PrefixSplit(v, x, w, y);
  }

  /** The text determines the components. */
  lemma {:induction false} PartsInjective(p: Parts, q: Parts)
    requires PartsText(p) == PartsText(q)
    ensures p == q
  {
    if p.Part? && q.Part? {
      var x := Decimal(|p.value|) + ([':'] + (p.value + PartsText(p.rest)));
      var y := Decimal(|q.value|) + ([':'] + (q.value + PartsText(q.rest)));
      SizedPrefix(p.name, q.name, x, y);
      SizedPrefix(p.value, q.value, PartsText(p.rest), PartsText(q.rest));
      PartsInjective(p.rest, q.rest);
    }
  }

  // ---- the components of a key

  function ItemParts(name: string, items: seq<string>, rest: Parts): Parts {
    if items == [] then rest else Part(name, items[0], ItemParts(name, items[1..], rest))
  }

  function ListParts(name: string, item: string, items: seq<string>, rest: Parts): Parts {
    Part(name, Decimal(|items|), ItemParts(item, items, rest))
  }

  function InputParts(inputs: seq<CommandInput>, rest: Parts): Parts {
    if inputs == [] then rest
    else Part("command_input_path", inputs[0].path,
           Part("command_input_digest", inputs[0].digest, InputParts(inputs[1..], rest)))
  }

  function RuleParts(rules: seq<Rule>, rest: Parts): Parts {
    if rules == [] then rest
    else Part("callback", Describe(rules[0].callee), Part("argument", Decimal(rules[0].argument),
           Part("provider", rules[0].provider, Part("reason", rules[0].reason, RuleParts(rules[1..], rest)))))
  }

  function VariableParts(names: seq<string>, values: seq<Option<string>>): Parts
    requires |names| == |values|
  {
    if names == [] then Done
    else
      var rest := VariableParts(names[1..], values[1..]);
      if values[0].Some? then Part(names[0], values[0].value, rest) else rest
  }

  function Flag(b: bool): string {
    if b then "1" else "0"
  }

  function CompilerParts(c: Option<Compiler>, rest: Parts): Parts {
    if c.None? then rest else Part("clang_path", c.value.path, Part("clang_digest", c.value.fingerprint, rest))
  }

  function HeadParts(k: KeyInputs, rest: Parts): Parts {
    Part("cache_schema", "1", Part("extractor", "cxx-dead-0.18", Part("cxx_dead_binary", k.binary,
      Part("frontend", k.frontend, Part("directory", k.directory, Part("file", k.file,
        Part("configuration", k.configuration, Part("project_root", k.projectRoot, Part("clang", k.clang,
          CompilerParts(k.compiler, rest))))))))))
  }

  function OptionParts(k: KeyInputs, rest: Parts): Parts {
    Part("ast_filter", k.astFilter, Part("verbose", Flag(k.verbose), Part("infer_exports", Flag(k.inferExports),
      Part("require_api", Flag(k.requireApi), ListParts("arguments", "value", k.arguments,
        InputParts(k.inputs, rest))))))
  }

  function PathParts(k: KeyInputs, rest: Parts): Parts {
    ListParts("report_paths", "path", k.reportPaths, ListParts("excluded_paths", "path", k.excludedPaths,
      ListParts("selected_sources", "path", k.selectedSources, ListParts("public_headers", "path", k.publicHeaders, rest))))
  }

  function KeyParts(k: KeyInputs): Parts
    requires Formed(k)
  {
    HeadParts(k, OptionParts(k, PathParts(k, RuleParts(k.rules, VariableParts(VARIABLES, k.environment)))))
  }

  function KeyText(k: KeyInputs): string
    requires Formed(k)
  {
    PartsText(KeyParts(k))
  }

  // ---- nothing is lost

  lemma {:induction false} ItemsInjective(name: string, a: seq<string>, b: seq<string>, x: Parts, y: Parts)
    requires |a| == |b| && ItemParts(name, a, x) == ItemParts(name, b, y)
    ensures a == b && x == y
  {
    if a != [] {
      ItemsInjective(name, a[1..], b[1..], x, y);
      assert a == [a[0]] + a[1..] && b == [b[0]] + b[1..];
    }
  }

  lemma ListInjective(name: string, item: string, a: seq<string>, b: seq<string>, x: Parts, y: Parts)
    requires ListParts(name, item, a, x) == ListParts(name, item, b, y)
    ensures a == b && x == y
  {
    DecimalInjective(|a|, |b|);
    ItemsInjective(item, a, b, x, y);
  }

  /** The list of command inputs has no count: it ends where another name comes. */
  lemma {:induction false} InputsInjective(a: seq<CommandInput>, b: seq<CommandInput>, x: Parts, y: Parts)
    requires x.Part? && y.Part? && x.name != "command_input_path" && y.name != "command_input_path"
    requires InputParts(a, x) == InputParts(b, y)
    ensures a == b && x == y
  {
    if a != [] && b != [] {
      InputsInjective(a[1..], b[1..], x, y);
      assert a == [a[0]] + a[1..] && b == [b[0]] + b[1..];
    }
  }

  predicate Unlike(p: Parts, names: seq<string>) {
    p.Done? || p.name !in names
  }

  /** The same rules, as far as their texts tell. */
  predicate SameRule(a: Rule, b: Rule) {
    Describe(a.callee) == Describe(b.callee) && a.argument == b.argument && a.provider == b.provider && a.reason == b.reason
  }

  predicate SameRules(a: seq<Rule>, b: seq<Rule>) {
    |a| == |b| && forall i :: 0 <= i < |a| ==> SameRule(a[i], b[i])
  }

  lemma {:induction false} RulesInjective(a: seq<Rule>, b: seq<Rule>, x: Parts, y: Parts)
    requires Unlike(x, ["callback"]) && Unlike(y, ["callback"]) && RuleParts(a, x) == RuleParts(b, y)
    ensures SameRules(a, b) && x == y
  {
    hide Describe;
    if a != [] && b != [] {
      DecimalInjective(a[0].argument, b[0].argument);
      RulesInjective(a[1..], b[1..], x, y);
      assert a == [a[0]] + a[1..] && b == [b[0]] + b[1..];
    }
  }

  lemma {:induction false} SameRuleParts(a: seq<Rule>, b: seq<Rule>, x: Parts)
    requires SameRules(a, b)
    ensures RuleParts(a, x) == RuleParts(b, x)
  {
    hide Describe;
    if a != [] {
      assert SameRule(a[0], b[0]);
      forall i | 0 <= i < |a| - 1 ensures SameRule(a[1..][i], b[1..][i]) { assert SameRule(a[i + 1], b[i + 1]); }
      SameRuleParts(a[1..], b[1..], x);
    }
  }

  lemma {:induction false} VariableNames(names: seq<string>, values: seq<Option<string>>)
    requires |names| == |values|
    ensures var p := VariableParts(names, values); p.Part? ==> p.name in names
  {
    if names != [] { VariableNames(names[1..], values[1..]); }
  }

  lemma {:induction false} VariablesInjective(names: seq<string>, a: seq<Option<string>>, b: seq<Option<string>>)
    requires |names| == |a| == |b| && forall i, j :: 0 <= i < j < |names| ==> names[i] != names[j]
    requires VariableParts(names, a) == VariableParts(names, b)
    ensures a == b
  {
    if names != [] {
      VariableNames(names[1..], a[1..]);
      VariableNames(names[1..], b[1..]);
      VariablesInjective(names[1..], a[1..], b[1..]);
      assert a == [a[0]] + a[1..] && b == [b[0]] + b[1..];
    }
  }

  lemma VariablesDistinct()
    ensures forall i, j :: 0 <= i < j < |VARIABLES| ==> VARIABLES[i] != VARIABLES[j]
    ensures "callback" !in VARIABLES
  {
  }

  lemma HeadInjective(a: KeyInputs, b: KeyInputs, x: Parts, y: Parts)
    requires x.Part? && y.Part? && x.name == y.name == "ast_filter"
    requires HeadParts(a, x) == HeadParts(b, y)
    ensures x == y && a.binary == b.binary && a.frontend == b.frontend && a.directory == b.directory && a.file == b.file
    ensures a.configuration == b.configuration && a.projectRoot == b.projectRoot && a.clang == b.clang && a.compiler == b.compiler
  {
    assert "clang_path"[0] != "ast_filter"[0];
  }

  lemma OptionsInjective(a: KeyInputs, b: KeyInputs, x: Parts, y: Parts)
    requires x.Part? && y.Part? && x.name == y.name == "report_paths"
    requires OptionParts(a, x) == OptionParts(b, y)
    ensures x == y && a.astFilter == b.astFilter && a.verbose == b.verbose && a.inferExports == b.inferExports
    ensures a.requireApi == b.requireApi && a.arguments == b.arguments && a.inputs == b.inputs
  {
    hide InputParts, ListParts;
    assert "report_paths"[0] != "command_input_path"[0];
    assert "1"[0] != "0"[0];
    ListInjective("arguments", "value", a.arguments, b.arguments, InputParts(a.inputs, x), InputParts(b.inputs, y));
    InputsInjective(a.inputs, b.inputs, x, y);
  }

  lemma PathsInjective(a: KeyInputs, b: KeyInputs, x: Parts, y: Parts)
    requires PathParts(a, x) == PathParts(b, y)
    ensures x == y && a.reportPaths == b.reportPaths && a.excludedPaths == b.excludedPaths
    ensures a.selectedSources == b.selectedSources && a.publicHeaders == b.publicHeaders
  {
    hide ListParts;
    var a3, b3 := ListParts("public_headers", "path", a.publicHeaders, x), ListParts("public_headers", "path", b.publicHeaders, y);
    var a2, b2 := ListParts("selected_sources", "path", a.selectedSources, a3), ListParts("selected_sources", "path", b.selectedSources, b3);
    var a1, b1 := ListParts("excluded_paths", "path", a.excludedPaths, a2), ListParts("excluded_paths", "path", b.excludedPaths, b2);
    ListInjective("report_paths", "path", a.reportPaths, b.reportPaths, a1, b1);
    ListInjective("excluded_paths", "path", a.excludedPaths, b.excludedPaths, a2, b2);
    ListInjective("selected_sources", "path", a.selectedSources, b.selectedSources, a3, b3);
    ListInjective("public_headers", "path", a.publicHeaders, b.publicHeaders, x, y);
  }

  /** Everything but the callback rules, which agree as far as their texts tell. */
  predicate SameInputs(a: KeyInputs, b: KeyInputs) {
    a == b.(rules := a.rules) && SameRules(a.rules, b.rules)
  }

  /** Two key texts agree exactly when all inputs agree, of the selector in a callback rule only its
      description. */
  lemma KeyTextIff(a: KeyInputs, b: KeyInputs)
    requires Formed(a) && Formed(b)
    ensures KeyText(a) == KeyText(b) <==> SameInputs(a, b)
  {
    hide HeadParts, RuleParts, VariableParts, PartsText, SameRules;
    if KeyText(a) == KeyText(b) {
      KeyTextInjective(a, b);
    } else if SameInputs(a, b) {
      SameRuleParts(a.rules, b.rules, VariableParts(VARIABLES, a.environment));
      SameKeyParts(a, b);
    }
  }

  lemma SameKeyParts(a: KeyInputs, b: KeyInputs)
    requires Formed(a) && a == b.(rules := a.rules)
    requires RuleParts(a.rules, VariableParts(VARIABLES, a.environment)) == RuleParts(b.rules, VariableParts(VARIABLES, a.environment))
    ensures KeyParts(a) == KeyParts(b)
  {
    hide RuleParts, VariableParts, ListParts, InputParts;
  }

  lemma KeyTextInjective(a: KeyInputs, b: KeyInputs)
    requires Formed(a) && Formed(b) && KeyText(a) == KeyText(b)
    ensures SameInputs(a, b)
  {
    hide HeadParts, RuleParts, VariableParts, PartsText, PartText, SameRules;
    var va, vb := VariableParts(VARIABLES, a.environment), VariableParts(VARIABLES, b.environment);
    var ra, rb := RuleParts(a.rules, va), RuleParts(b.rules, vb);
    var pa, pb := PathParts(a, ra), PathParts(b, rb);
    PartsInjective(KeyParts(a), KeyParts(b));
    HeadInjective(a, b, OptionParts(a, pa), OptionParts(b, pb));
    OptionsInjective(a, b, pa, pb);
    PathsInjective(a, b, ra, rb);
    VariablesDistinct();
    VariableNames(VARIABLES, a.environment);
    VariableNames(VARIABLES, b.environment);
    RulesInjective(a.rules, b.rules, va, vb);
    VariablesInjective(VARIABLES, a.environment, b.environment);
  }
}
