/** Choosing the compile commands of a build target: the targets it depends on, and one command
    for each of their sources. */
module Targets {
  import opened Wrappers
  import opened Digraph
  import opened Orders

  datatype Kind =
    | Executable | StaticLibrary | SharedLibrary | ModuleLibrary | ObjectLibrary | InterfaceLibrary | Utility

  datatype Target = Target(id: string, name: string, kind: Kind, sources: seq<string>, dependencies: seq<string>)

  datatype Command = Command(directory: string, file: string, output: string, arguments: seq<string>)

  // ---- the closure of a target

  ghost predicate UniqueIds(targets: seq<Target>) {
    forall i, j :: 0 <= i < j < |targets| ==> targets[i].id != targets[j].id
  }

  ghost function Ids(targets: seq<Target>): set<string> {
    set t | t in targets :: t.id
  }

  ghost predicate Indexed(targets: seq<Target>, byId: map<string, nat>) {
    && (forall id :: id in byId ==> byId[id] < |targets| && targets[byId[id]].id == id)
    && (forall i :: 0 <= i < |targets| ==> targets[i].id in byId && byId[targets[i].id] == i)
  }

  ghost function Dependencies(targets: seq<Target>): set<(nat, nat)> {
    set i: nat, j: nat | i < |targets| && j < |targets| && targets[j].id in targets[i].dependencies :: (i, j)
  }

  function Omission(dependency: string, name: string): string {
    "build metadata omits dependency target " + dependency + " referenced by " + name
  }

  /** One message for each of the first k dependencies that no target has as its id. */
  ghost function Missing(t: Target, ids: set<string>, k: nat): seq<string>
    requires k <= |t.dependencies|
  {
    if k == 0 then []
    else
      var dependency := t.dependencies[k - 1];
      Missing(t, ids, k - 1) + if dependency in ids then [] else [Omission(dependency, t.name)]
  }

  ghost predicate InRange(targets: seq<Target>, list: seq<nat>) {
    forall k :: 0 <= k < |list| ==> list[k] < |targets|
  }

  ghost function AllMissing(targets: seq<Target>, list: seq<nat>): multiset<string>
    requires InRange(targets, list)
  {
    if list == [] then multiset{}
    else
      var init, t := list[..|list| - 1], targets[list[|list| - 1]];
      AllMissing(targets, init) + multiset(Missing(t, Ids(targets), |t.dependencies|))
  }

  lemma {:induction false} AllMissingAppend(targets: seq<Target>, a: seq<nat>, b: seq<nat>)
    requires InRange(targets, a) && InRange(targets, b)
    ensures InRange(targets, a + b)
    ensures AllMissing(targets, a + b) == AllMissing(targets, a) + AllMissing(targets, b)
  {
    hide Missing;
    if b == [] {
      assert a + b == a;
    } else {
      var init := b[..|b| - 1];
      assert (a + b)[..|a + b| - 1] == a + init;
      AllMissingAppend(targets, a, init);
    }
  }

  lemma NothingMissing(targets: seq<Target>, list: seq<nat>)
    ensures AllMissing(targets, list[|list|..]) == multiset{}
  {
  }

  /** A list that was longer than p and has grown since. */
  lemma Extended(targets: seq<Target>, before: seq<nat>, after: seq<nat>, p: nat)
    requires p <= |before| <= |after| && after[..|before|] == before
    requires InRange(targets, after)
    ensures forall i :: i in before ==> i in after
    ensures after[..p] == before[..p]
    ensures InRange(targets, before) && InRange(targets, before[p..])
    ensures AllMissing(targets, after[p..]) ==
      AllMissing(targets, before[p..]) + AllMissing(targets, after[|before|..])
  {
    hide AllMissing;
    assert after[p..] == before[p..] + after[|before|..];
    assert forall k :: 0 <= k < |before| ==> after[k] == before[k];
    forall i | i in before ensures i in after {
      var k :| 0 <= k < |before| && before[k] == i;
      assert after[k] == i;
    }
    AllMissingAppend(targets, before[p..], after[|before|..]);
  }

  lemma FirstMissing(targets: seq<Target>, list: seq<nat>)
    requires list != [] && InRange(targets, list)
    ensures var t := targets[list[0]];
            AllMissing(targets, list) == AllMissing(targets, list[1..]) + multiset(Missing(t, Ids(targets), |t.dependencies|))
  {
    hide Missing;
    assert list == [list[0]] + list[1..];
    AllMissingAppend(targets, [list[0]], list[1..]);
    assert [list[0]][..0] == [];
  }

  // ---- a search that has grown from one list to another

  ghost predicate Grown(before: seq<nat>, after: seq<nat>) {
    |before| <= |after| && after[..|before|] == before
  }

  /** Whatever was added is reached from i. */
  ghost predicate ReachedFrom(E: set<(nat, nat)>, i: nat, before: seq<nat>, after: seq<nat>) {
    forall j :: j in after && j !in before ==> Reach(E, i, j)
  }

  /** Whatever was added, apart from the exceptions, has its arcs inside the list. */
  ghost predicate ClosedSince(E: set<(nat, nat)>, before: seq<nat>, after: seq<nat>, exceptions: set<nat>) {
    forall j: nat, k: nat :: j in after && j !in before && j !in exceptions && (j, k) in E ==> k in after
  }

  lemma AfterCall(E: set<(nat, nat)>, i: nat, next: nat, m0: seq<nat>, m1: seq<nat>, m: seq<nat>)
    requires (i, next) in E && i in m1 && (forall j :: j in m1 ==> j in m)
    requires ReachedFrom(E, i, m0, m1) && ReachedFrom(E, next, m1, m)
    requires ClosedSince(E, m0, m1, {i}) && ClosedSince(E, m1, m, {})
    ensures ReachedFrom(E, i, m0, m) && ClosedSince(E, m0, m, {i})
  {
    hide Reach;
    forall j | j in m && j !in m0 ensures Reach(E, i, j) {
      if j !in m1 { ReachStep(E, i, next, j); }
    }
  }

  lemma Done(targets: seq<Target>, byId: map<string, nat>, i: nat, m0: seq<nat>, m: seq<nat>)
    requires Indexed(targets, byId) && i < |targets|
    requires ClosedSince(Dependencies(targets), m0, m, {i})
    requires forall d :: d in targets[i].dependencies && d in byId ==> byId[d] in m
    ensures ClosedSince(Dependencies(targets), m0, m, {})
  {
  }

  lemma NothingAdded(E: set<(nat, nat)>, i: nat, m: seq<nat>, exceptions: set<nat>)
    ensures ReachedFrom(E, i, m, m) && ClosedSince(E, m, m, exceptions)
  {
  }

  lemma FirstAdded(E: set<(nat, nat)>, i: nat, m: seq<nat>)
    ensures ReachedFrom(E, i, m, m + [i]) && ClosedSince(E, m, m + [i], {i})
  {
    hide Reach;
    ReachRefl(E, i);
  }

  lemma NoneMissing(t: Target, ids: set<string>)
    ensures Missing(t, ids, 0) == []
  {
  }

  lemma OneMissing(t: Target, ids: set<string>, k: nat)
    requires k < |t.dependencies|
    ensures var d := t.dependencies[k];
            multiset(Missing(t, ids, k + 1)) ==
              multiset(Missing(t, ids, k)) + if d in ids then multiset{} else multiset{Omission(d, t.name)}
  {
    hide Omission;
  }

  lemma IdKnown(targets: seq<Target>, byId: map<string, nat>, d: string)
    requires Indexed(targets, byId)
    ensures d in byId <==> d in Ids(targets)
  {
    if d in byId { assert targets[byId[d]] in targets; }
  }

  lemma DependencyArc(targets: seq<Target>, byId: map<string, nat>, i: nat, d: string)
    requires Indexed(targets, byId) && i < |targets| && d in targets[i].dependencies && d in byId
    ensures byId[d] < |targets| && (i, byId[d]) in Dependencies(targets)
  {
  }

  class Closure {
    const targets: seq<Target>
    const byId: map<string, nat>
    var visited: set<string>
    var members: seq<nat>
    var diagnostics: seq<string>

    ghost predicate Valid()
      reads this
    {
      && Indexed(targets, byId)
      && Distinct(members)
      && InRange(targets, members)
      && (forall i: nat :: i < |targets| ==> (targets[i].id in visited <==> i in members))
    }

    ghost function Unseen(): set<nat>
      reads this
    {
      set i: nat | i < |targets| && i !in members
    }

    constructor (targets: seq<Target>, byId: map<string, nat>)
      requires Indexed(targets, byId)
      ensures Valid() && this.targets == targets && this.byId == byId && members == [] && diagnostics == []
    {
      this.targets, this.byId := targets, byId;
      visited, members, diagnostics := {}, [], [];
    }

    method Mark(i: nat)
      requires Valid() && i < |targets| && targets[i].id !in visited
      modifies this`visited, this`members
      ensures Valid() && members == old(members) + [i] && Unseen() < old(Unseen())
    {
      ghost var before := Unseen();
      visited := visited + {targets[i].id};
      members := members + [i];
      assert i in before && i !in Unseen() && Unseen() <= before;
    }

    /** Adds a target and what it depends on. Every target added is reached from the first one,
        none is left with a dependency that was not added, and each missing dependency of an
        added target is reported. */
    method Visit(i: nat)
      requires Valid() && i < |targets|
      modifies this`visited, this`members, this`diagnostics
      ensures Valid() && i in members
      ensures Grown(old(members), members)
      ensures ReachedFrom(Dependencies(targets), i, old(members), members)
      ensures ClosedSince(Dependencies(targets), old(members), members, {})
      ensures multiset(diagnostics) ==
        multiset(old(diagnostics)) + AllMissing(targets, members[|old(members)|..])
      decreases Unseen(), 0
    {
      hide Reach, AllMissing, Missing, Dependencies, ReachedFrom, ClosedSince, Indexed, Distinct, Ids;
      ghost var m0, E := members, Dependencies(targets);
      if targets[i].id in visited {
        NothingAdded(E, i, m0, {});
        NothingMissing(targets, m0);
        return;
      }
      Mark(i);
      FirstAdded(E, i, m0);
      VisitDependencies(i, m0);
      Done(targets, byId, i, m0, members);
      assert members[..|m0|] == members[..|m0| + 1][..|m0|] == m0;
      assert members[|m0|] == members[..|m0| + 1][|m0|] == i;
      FirstMissing(targets, members[|m0|..]);
      assert members[|m0|..][1..] == members[|m0| + 1..];
    }

    /** Visits the dependencies of i, which was added last to the list m0. */
    method VisitDependencies(i: nat, ghost m0: seq<nat>)
      requires Valid() && i < |targets| && members == m0 + [i]
      requires ReachedFrom(Dependencies(targets), i, m0, members) && ClosedSince(Dependencies(targets), m0, members, {i})
      modifies this`visited, this`members, this`diagnostics
      ensures Valid() && Grown(m0 + [i], members)
      ensures ReachedFrom(Dependencies(targets), i, m0, members) && ClosedSince(Dependencies(targets), m0, members, {i})
      ensures forall d :: d in targets[i].dependencies && d in byId ==> byId[d] in members
      ensures multiset(diagnostics) == multiset(old(diagnostics)) + AllMissing(targets, members[|m0| + 1..])
        + multiset(Missing(targets[i], Ids(targets), |targets[i].dependencies|))
      decreases Unseen(), 1
    {
      hide Reach, AllMissing, Missing, Dependencies, ReachedFrom, ClosedSince, Omission, Indexed, Distinct, Ids;
      ghost var E, ids := Dependencies(targets), Ids(targets);
      ghost var unseen := Unseen();
      var dependencies := targets[i].dependencies;
      NothingMissing(targets, members);
      NoneMissing(targets[i], ids);
      assert members[|m0| + 1..] == members[|members|..];
      for k := 0 to |dependencies|
        invariant Valid() && Grown(m0 + [i], members) && Unseen() <= unseen
        invariant ReachedFrom(E, i, m0, members) && ClosedSince(E, m0, members, {i})
        invariant forall l :: 0 <= l < k && dependencies[l] in byId ==> byId[dependencies[l]] in members
        invariant multiset(diagnostics) ==
          multiset(old(diagnostics)) + AllMissing(targets, members[|m0| + 1..]) + multiset(Missing(targets[i], ids, k))
      {
        var dependency := dependencies[k];
        OneMissing(targets[i], ids, k);
        IdKnown(targets, byId, dependency);
        if dependency !in byId {
          diagnostics := diagnostics + [Omission(dependency, targets[i].name)];
        } else {
          ghost var m1 := members;
          DependencyArc(targets, byId, i, dependency);
          assert m1[|m0|] == (m0 + [i])[|m0|] == i;
          Visit(byId[dependency]);
          Extended(targets, m1, members, |m0| + 1);
          AfterCall(E, i, byId[dependency], m0, m1, members);
        }
      }
    }
  }

  // ---- which target is asked for

  predicate Asked(t: Target, requested: string) {
    if requested != [] then t.name == requested || t.id == requested else t.kind == Executable
  }

  ghost predicate OnlyAsked(targets: seq<Target>, requested: string, i: nat) {
    && i < |targets| && Asked(targets[i], requested)
    && forall j :: 0 <= j < |targets| && j != i ==> !Asked(targets[j], requested)
  }

  datatype Problem = Unspecific | NotFound | UtilityTarget | DuplicateId | NoCommand | Ambiguous | NothingSelected

  /** The one target that is asked for, by name or id, or as the only executable. */
  method SelectTarget(targets: seq<Target>, requested: string) returns (r: Result<nat, Problem>)
    ensures r.Ok? ==> OnlyAsked(targets, requested, r.value)
    ensures r.Err? ==> forall i: nat :: !OnlyAsked(targets, requested, i)
  {
    var found: Option<nat> := None;
    for i := 0 to |targets|
      invariant found.None? ==> forall j :: 0 <= j < i ==> !Asked(targets[j], requested)
      invariant found.Some? ==> found.value < i && Asked(targets[found.value], requested)
      invariant found.Some? ==> forall j :: 0 <= j < i && j != found.value ==> !Asked(targets[j], requested)
    {
      if Asked(targets[i], requested) {
        if found.Some? { return Err(Unspecific); }
        found := Some(i);
      }
    }
    r := if found.Some? then Ok(found.value) else Err(NotFound);
  }

  /** A target is asked for by its name or its id, or without either as the only executable. */
  lemma AskedMeans(targets: seq<Target>, requested: string, i: nat)
    ensures OnlyAsked(targets, requested, i) <==>
      && i < |targets| && (if requested == [] then targets[i].kind == Executable else requested in {targets[i].name, targets[i].id})
      && forall j :: 0 <= j < |targets| && j != i ==>
           if requested == [] then targets[j].kind != Executable else requested !in {targets[j].name, targets[j].id}
  {
  }

  method IndexTargets(targets: seq<Target>) returns (r: Result<map<string, nat>, Problem>)
    ensures r.Ok? <==> UniqueIds(targets)
    ensures r.Ok? ==> Indexed(targets, r.value)
  {
    var byId: map<string, nat> := map[];
    for i := 0 to |targets|
      invariant forall id :: id in byId ==> byId[id] < i && targets[byId[id]].id == id
      invariant forall j :: 0 <= j < i ==> targets[j].id in byId && byId[targets[j].id] == j
    {
      if targets[i].id in byId { return Err(DuplicateId); }
      byId := byId[targets[i].id := i];
    }
    r := Ok(byId);
  }

  // ---- the command for one source of one target

  predicate OccursAt(text: string, needle: string, q: nat) {
    q + |needle| <= |text| && text[q..q + |needle|] == needle
  }

  /** The first place from p on at which needle occurs. */
  function FindFrom(text: string, needle: string, p: nat): (r: Option<nat>)
    requires p <= |text|
    ensures r.Some? ==> p <= r.value && OccursAt(text, needle, r.value)
    ensures forall q: nat :: p <= q && OccursAt(text, needle, q) ==> r.Some? && r.value <= q
    decreases |text| - p
  {
    if p + |needle| > |text| then None
    else if OccursAt(text, needle, p) then Some(p)
    else FindFrom(text, needle, p + 1)
  }

  function Marker(t: Target): string {
    "/CMakeFiles/" + t.name + ".dir/"
  }

  predicate BuiltFor(c: Command, t: Target) {
    c.output != [] && FindFrom("/" + c.output, Marker(t), 0).Some?
  }

  predicate BuiltIn(c: Command, t: Target, configuration: string) {
    configuration != [] && c.output != [] &&
    match FindFrom("/" + c.output, Marker(t), 0)
    case Some(p) => configuration + "/" <= ("/" + c.output)[p + |Marker(t)|..]
    case None => false
  }

  /** The text up to here ends a directory, or is empty. */
  predicate AtComponent(prefix: string) {
    prefix == [] || prefix[|prefix| - 1] == '/'
  }

  /** The output lies in the directory that CMake keeps for objects of the target: a directory
      CMakeFiles, and in it one whose whole name is that of the target and ".dir". */
  ghost predicate InObjectDirectory(c: Command, t: Target, prefix: string, rest: string) {
    AtComponent(prefix) && c.output == prefix + ("CMakeFiles/" + (t.name + (".dir/" + rest)))
  }

  /** Where a slash and m occur in a text that starts with a slash, m follows whole components. */
  lemma AroundOccurrence(output: string, m: string, p: nat) returns (prefix: string, rest: string)
    requires OccursAt("/" + output, "/" + m, p)
    ensures AtComponent(prefix) && output == prefix + (m + rest) && |prefix| == p
  {
    var text := "/" + output;
    prefix, rest := output[..p], output[p + |m|..];
    assert text[p..p + 1 + |m|][0] == '/' && text[p..p + 1 + |m|][1..] == m;
    assert output[p..p + |m|] == text[p + 1..p + 1 + |m|] == m;
    assert prefix != [] ==> prefix[|prefix| - 1] == text[p];
  }

  lemma OccurrenceBetween(prefix: string, m: string, rest: string)
    requires AtComponent(prefix)
    ensures OccursAt("/" + (prefix + (m + rest)), "/" + m, |prefix|)
  {
    var text := "/" + (prefix + (m + rest));
    assert text == "/" + prefix + m + rest;
    assert ("/" + prefix)[|prefix|] == '/';
    assert text[|prefix|..|prefix| + 1 + |m|] == "/" + m;
  }

  /** A command is built for a target exactly when its output lies in the target's object directory. */
  lemma BuiltForIff(c: Command, t: Target)
    ensures BuiltFor(c, t) <==> exists prefix, rest :: InObjectDirectory(c, t, prefix, rest)
  {
    hide OccursAt, AtComponent, Marker;
    if BuiltFor(c, t) {
      var prefix, rest := OccurrenceIsDirectory(c, t, FindFrom("/" + c.output, Marker(t), 0).value);
    }
    if prefix, rest :| InObjectDirectory(c, t, prefix, rest) { DirectoryOccurs(c, t, prefix, rest); }
  }

  /** No object directory of the target comes before this one. */
  ghost predicate FirstObjectDirectory(c: Command, t: Target, prefix: string, rest: string) {
    InObjectDirectory(c, t, prefix, rest) && forall other, more :: InObjectDirectory(c, t, other, more) ==> |prefix| <= |other|
  }

  lemma MarkerText(t: Target)
    ensures Marker(t) == "/" + ("CMakeFiles/" + (t.name + ".dir/"))
  {
    assert "/CMakeFiles/" == "/" + "CMakeFiles/";
  }

  lemma DirectoryOccurs(c: Command, t: Target, prefix: string, rest: string)
    requires InObjectDirectory(c, t, prefix, rest)
    ensures OccursAt("/" + c.output, Marker(t), |prefix|) && |prefix| + |Marker(t)| <= |"/" + c.output|
    ensures rest == ("/" + c.output)[|prefix| + |Marker(t)|..]
  {
    hide Marker;
    var m := "CMakeFiles/" + (t.name + ".dir/");
    MarkerText(t);
    assert m + rest == "CMakeFiles/" + (t.name + (".dir/" + rest));
    OccurrenceBetween(prefix, m, rest);
    RestAfter(prefix, m, rest);
  }

  lemma OccurrenceIsDirectory(c: Command, t: Target, p: nat) returns (prefix: string, rest: string)
    requires OccursAt("/" + c.output, Marker(t), p)
    ensures InObjectDirectory(c, t, prefix, rest) && |prefix| == p
  {
    hide AtComponent, Marker, OccursAt;
    var m := "CMakeFiles/" + (t.name + ".dir/");
    MarkerText(t);
    prefix, rest := AroundOccurrence(c.output, m, p);
    assert m + rest == "CMakeFiles/" + (t.name + (".dir/" + rest));
  }

  lemma BuiltInIff(c: Command, t: Target, configuration: string)
    ensures BuiltIn(c, t, configuration) ==> BuiltFor(c, t)
    ensures BuiltIn(c, t, configuration) <==>
      configuration != [] && exists prefix, rest :: FirstObjectDirectory(c, t, prefix, rest) && configuration + "/" <= rest
  {
    hide OccursAt, InObjectDirectory, Marker;
    var found := FindFrom("/" + c.output, Marker(t), 0);
    forall prefix, rest | InObjectDirectory(c, t, prefix, rest)
      ensures OccursAt("/" + c.output, Marker(t), |prefix|) && |prefix| + |Marker(t)| <= |"/" + c.output|
      ensures rest == ("/" + c.output)[|prefix| + |Marker(t)|..]
    {
      DirectoryOccurs(c, t, prefix, rest);
    }
    if found.Some? {
      var prefix, rest := OccurrenceIsDirectory(c, t, found.value);
      DirectoryOccurs(c, t, prefix, rest);
      assert FirstObjectDirectory(c, t, prefix, rest);
    }
  }

  lemma RestAfter(prefix: string, m: string, rest: string)
    ensures rest == ("/" + (prefix + (m + rest)))[|prefix| + 1 + |m|..]
  {
    assert "/" + (prefix + (m + rest)) == ("/" + prefix + m) + rest;
  }

  predicate Equivalent(a: Command, b: Command) {
    a.directory == b.directory && a.file == b.file && a.arguments == b.arguments
  }

  /** How closely a command belongs to a source of a target: it compiles the source, for the
      target, in the configuration. */
  function Closeness(c: Command, t: Target, source: string, configuration: string): nat {
    if c.file != source then 0
    else if !BuiltFor(c, t) then 1
    else if !BuiltIn(c, t, configuration) then 2
    else 3
  }

  /** Any command for the source will do; one that is built for the target is closer, and closer still is
      one whose object lies under the configuration's directory there. */
  lemma ClosenessMeans(c: Command, t: Target, source: string, configuration: string)
    ensures Closeness(c, t, source, configuration) >= 1 <==> c.file == source
    ensures Closeness(c, t, source, configuration) >= 2 <==>
      c.file == source && exists prefix, rest :: InObjectDirectory(c, t, prefix, rest)
    ensures Closeness(c, t, source, configuration) >= 3 <==>
      && c.file == source && configuration != []
      && exists prefix, rest :: FirstObjectDirectory(c, t, prefix, rest) && configuration + "/" <= rest
    ensures Closeness(c, t, source, configuration) <= 3
  {
    hide BuiltFor, BuiltIn;
    BuiltForIff(c, t);
    BuiltInIff(c, t, configuration);
  }

  /** The commands that belong to the source most closely. */
  ghost predicate Usable(commands: seq<Command>, t: Target, source: string, configuration: string, i: nat) {
    && i < |commands| && Closeness(commands[i], t, source, configuration) > 0
    && forall j :: 0 <= j < |commands| ==>
         Closeness(commands[j], t, source, configuration) <= Closeness(commands[i], t, source, configuration)
  }

  /** The first usable command, where all usable commands do the same. */
  ghost predicate IsChoice(commands: seq<Command>, t: Target, source: string, configuration: string, i: nat) {
    && Usable(commands, t, source, configuration, i)
    && forall j: nat :: Usable(commands, t, source, configuration, j) ==> i <= j && Equivalent(commands[i], commands[j])
  }

  /** The commands that are chosen from run in one directory, on one file, with one list of arguments. */
  lemma ChoiceMeans(commands: seq<Command>, t: Target, source: string, configuration: string, i: nat)
    ensures IsChoice(commands, t, source, configuration, i) <==>
      && Usable(commands, t, source, configuration, i)
      && (forall j: nat :: Usable(commands, t, source, configuration, j) ==> i <= j)
      && (forall j: nat :: Usable(commands, t, source, configuration, j) ==>
            commands[j] == commands[i].(output := commands[j].output))
  {
    hide Usable;
    assert forall j: nat :: Usable(commands, t, source, configuration, j) ==> j < |commands| by {
      forall j: nat | Usable(commands, t, source, configuration, j) ensures j < |commands| { UsableInRange(commands, t, source, configuration, j); }
    }
  }

  lemma UsableInRange(commands: seq<Command>, t: Target, source: string, configuration: string, j: nat)
    requires Usable(commands, t, source, configuration, j)
    ensures j < |commands|
  {
  }

  /** found lists, in ascending order, the commands that are at least so close. */
  ghost predicate AtLeast(commands: seq<Command>, t: Target, source: string, configuration: string,
                          closeness: nat, n: nat, found: seq<nat>)
    requires n <= |commands|
  {
    && (forall k, l :: 0 <= k < l < |found| ==> found[k] < found[l])
    && (forall i: nat :: i in found <==> i < n && Closeness(commands[i], t, source, configuration) >= closeness)
  }

  lemma AtLeastNext(commands: seq<Command>, t: Target, source: string, configuration: string, closeness: nat, n: nat, found: seq<nat>)
    requires n < |commands| && AtLeast(commands, t, source, configuration, closeness, n, found)
    ensures AtLeast(commands, t, source, configuration, closeness, n + 1,
                    if Closeness(commands[n], t, source, configuration) >= closeness then found + [n] else found)
  {
    hide Closeness;
    forall k | 0 <= k < |found| ensures found[k] < n { assert found[k] in found; }
  }

  /** The closest commands are those of the closest level that has any. */
  lemma ClosestLevel(commands: seq<Command>, t: Target, source: string, configuration: string, closeness: nat, found: seq<nat>)
    requires closeness > 0 && AtLeast(commands, t, source, configuration, closeness, |commands|, found) && found != []
    requires forall i :: 0 <= i < |commands| ==> Closeness(commands[i], t, source, configuration) <= closeness
    ensures forall i: nat :: i in found <==> Usable(commands, t, source, configuration, i)
    ensures forall i: nat :: i in found ==> i < |commands| && found[0] <= i
  {
    hide Closeness;
    assert found[0] in found;
  }

  /** The next place to look at. */
  function Upto(commands: seq<Command>, list: seq<nat>, k: nat): nat {
    if k < |list| then list[k] else |commands|
  }

  lemma AtLeastSkip(commands: seq<Command>, t: Target, source: string, configuration: string, closeness: nat,
                    all: seq<nat>, k: nat, found: seq<nat>)
    requires k < |all| && AtLeast(commands, t, source, configuration, closeness, |commands|, all)
    requires all[k] < |commands| && AtLeast(commands, t, source, configuration, closeness + 1, all[k] + 1, found)
    ensures Upto(commands, all, k + 1) <= |commands|
    ensures AtLeast(commands, t, source, configuration, closeness + 1, Upto(commands, all, k + 1), found)
  {
    hide Closeness;
    var n := Upto(commands, all, k + 1);
    assert k + 1 < |all| ==> all[k + 1] in all;
    forall l | 0 <= l < |all| ensures all[l] <= all[k] || n <= all[l] {
      if l < k { assert all[l] < all[k]; } else if k + 1 < l { assert all[k + 1] < all[l]; }
    }
  }

  lemma AtLeastNone(commands: seq<Command>, t: Target, source: string, configuration: string, closeness: nat, all: seq<nat>)
    requires AtLeast(commands, t, source, configuration, closeness, |commands|, all)
    ensures Upto(commands, all, 0) <= |commands|
    ensures AtLeast(commands, t, source, configuration, closeness + 1, Upto(commands, all, 0), [])
  {
    hide Closeness;
    if all != [] {
      assert all[0] in all;
      forall l | 0 <= l < |all| ensures all[0] <= all[l] {
        if 0 < l { assert all[0] < all[l]; }
      }
    }
  }

  /** Those of the commands that belong to the source one level more closely. */
  method Closer(commands: seq<Command>, t: Target, source: string, configuration: string, closeness: nat, all: seq<nat>)
    returns (found: seq<nat>)
    requires 1 <= closeness <= 2 && AtLeast(commands, t, source, configuration, closeness, |commands|, all)
    ensures AtLeast(commands, t, source, configuration, closeness + 1, |commands|, found)
  {
    found := [];
    AtLeastNone(commands, t, source, configuration, closeness, all);
    for k := 0 to |all|
      invariant Upto(commands, all, k) <= |commands|
      invariant AtLeast(commands, t, source, configuration, closeness + 1, Upto(commands, all, k), found)
    {
      hide Marker, BuiltFor, BuiltIn, Equivalent;
      var i := all[k];
      assert i in all;
      AtLeastNext(commands, t, source, configuration, closeness + 1, i, found);
      if (if closeness == 1 then BuiltFor(commands[i], t) else BuiltIn(commands[i], t, configuration)) {
        found := found + [i];
      }
      AtLeastSkip(commands, t, source, configuration, closeness, all, k, found);
    }
  }

  lemma ChoiceAgrees(commands: seq<Command>, t: Target, source: string, configuration: string, k: nat, i: nat, j: nat)
    requires IsChoice(commands, t, source, configuration, k)
    requires Usable(commands, t, source, configuration, i) && Usable(commands, t, source, configuration, j)
    ensures Equivalent(commands[i], commands[j])
  {
    hide Closeness;
    EquivalentPairs(commands[k], commands[i], commands[j]);
  }

  lemma TwoDiffer(commands: seq<Command>, t: Target, source: string, configuration: string, i: nat, j: nat)
    requires Usable(commands, t, source, configuration, i) && Usable(commands, t, source, configuration, j)
    requires !Equivalent(commands[i], commands[j])
    ensures forall k: nat :: !IsChoice(commands, t, source, configuration, k)
  {
    hide IsChoice;
    forall k: nat ensures !IsChoice(commands, t, source, configuration, k) {
      if IsChoice(commands, t, source, configuration, k) {
        ChoiceAgrees(commands, t, source, configuration, k, i, j);
      }
    }
  }

  method SelectCommand(commands: seq<Command>, t: Target, source: string, configuration: string) returns (r: Result<nat, Problem>)
    ensures r.Ok? ==> IsChoice(commands, t, source, configuration, r.value)
    ensures r.Err? ==> forall i: nat :: !IsChoice(commands, t, source, configuration, i)
  {
    hide Marker, Equivalent, BuiltFor, BuiltIn;
    var candidates: seq<nat> := [];
    for i := 0 to |commands|
      invariant AtLeast(commands, t, source, configuration, 1, i, candidates)
    {
      AtLeastNext(commands, t, source, configuration, 1, i, candidates);
      if commands[i].file == source { candidates := candidates + [i]; }
    }
    if candidates == [] { return Err(NoCommand); }
    var owned := Closer(commands, t, source, configuration, 1, candidates);
    var configured := Closer(commands, t, source, configuration, 2, owned);
    var usable := if configured != [] then configured else if owned == [] then candidates else owned;
    ClosestLevel(commands, t, source, configuration,
                 if configured != [] then 3 else if owned == [] then 1 else 2, usable);
    r := FirstIfEquivalent(commands, t, source, configuration, usable);
  }

  method FirstIfEquivalent(commands: seq<Command>, t: Target, source: string, configuration: string, usable: seq<nat>)
    returns (r: Result<nat, Problem>)
    requires usable != [] && forall i: nat :: i in usable <==> Usable(commands, t, source, configuration, i)
    requires forall i: nat :: i in usable ==> i < |commands| && usable[0] <= i
    ensures r.Ok? ==> IsChoice(commands, t, source, configuration, r.value)
    ensures r.Err? ==> forall i: nat :: !IsChoice(commands, t, source, configuration, i)
  {
    hide Usable, Equivalent;
    var first := usable[0];
    assert first in usable;
    for k := 0 to |usable|
      invariant forall l :: 0 <= l < k ==> usable[l] < |commands| && Equivalent(commands[first], commands[usable[l]])
    {
      assert usable[k] in usable;
      if !Equivalent(commands[first], commands[usable[k]]) {
        TwoDiffer(commands, t, source, configuration, first, usable[k]);
        return Err(Ambiguous);
      }
    }
    r := Ok(first);
  }

  lemma EquivalentPairs(a: Command, b: Command, c: Command)
    ensures Equivalent(a, a)
    ensures Equivalent(a, b) && Equivalent(a, c) ==> Equivalent(b, c)
  {
  }

  lemma LeastUsable(commands: seq<Command>, t: Target, source: string, configuration: string, i: nat) returns (first: nat)
    requires Usable(commands, t, source, configuration, i)
    ensures Usable(commands, t, source, configuration, first)
    ensures forall j: nat :: Usable(commands, t, source, configuration, j) ==> first <= j
  {
    hide Usable;
    first := 0;
    while !Usable(commands, t, source, configuration, first)
      invariant first <= i && forall j: nat :: j < first ==> !Usable(commands, t, source, configuration, j)
      decreases i - first
    {
      first := first + 1;
    }
  }

  lemma ClosestExists(commands: seq<Command>, t: Target, source: string, configuration: string, i: nat, gap: nat) returns (best: nat)
    requires i < |commands| && Closeness(commands[i], t, source, configuration) > 0
    requires gap == 3 - Closeness(commands[i], t, source, configuration)
    ensures Usable(commands, t, source, configuration, best)
    decreases gap
  {
    hide BuiltFor, BuiltIn;
    if j :| 0 <= j < |commands| && Closeness(commands[j], t, source, configuration) > Closeness(commands[i], t, source, configuration) {
      best := ClosestExists(commands, t, source, configuration, j, 3 - Closeness(commands[j], t, source, configuration));
    } else {
      best := i;
    }
  }

  /** A command can be chosen exactly when some command compiles the source and the commands that
      belong to it most closely all do the same. */
  lemma ChoiceExists(commands: seq<Command>, t: Target, source: string, configuration: string)
    ensures (exists i: nat :: IsChoice(commands, t, source, configuration, i)) <==>
      && (exists i :: 0 <= i < |commands| && commands[i].file == source)
      && (forall i: nat, j: nat :: Usable(commands, t, source, configuration, i) && Usable(commands, t, source, configuration, j) ==>
            Equivalent(commands[i], commands[j]))
  {
    hide BuiltFor, BuiltIn;
    if i: nat :| IsChoice(commands, t, source, configuration, i) {
      assert commands[i].file == source;
      forall j: nat, k: nat | Usable(commands, t, source, configuration, j) && Usable(commands, t, source, configuration, k)
        ensures Equivalent(commands[j], commands[k])
      {
        EquivalentPairs(commands[i], commands[j], commands[k]);
      }
    }
    if i :| 0 <= i < |commands| && commands[i].file == source {
      var best := ClosestExists(commands, t, source, configuration, i, 3 - Closeness(commands[i], t, source, configuration));
      var first := LeastUsable(commands, t, source, configuration, best);
      if forall i: nat, j: nat :: Usable(commands, t, source, configuration, i) && Usable(commands, t, source, configuration, j) ==>
           Equivalent(commands[i], commands[j])
      {
        assert IsChoice(commands, t, source, configuration, first);
      }
    }
  }

  // ---- the selection

  predicate Compiled(t: Target) {
    t.kind != Utility && t.kind != InterfaceLibrary
  }

  /** The target is in the closure of the selected one, and the source is one of those it compiles. */
  ghost predicate Needed(targets: seq<Target>, selected: nat, t: nat, source: string) {
    && t < |targets| && Reach(Dependencies(targets), selected, t)
    && Compiled(targets[t]) && source in targets[t].sources
  }

  /** A source is needed exactly when a target compiles it that the selected one reaches and that is an
      executable or a library with code of its own. */
  lemma NeededMeans(targets: seq<Target>, selected: nat, t: nat, source: string)
    ensures Needed(targets, selected, t, source) <==>
      && t < |targets| && Reach(Dependencies(targets), selected, t) && source in targets[t].sources
      && targets[t].kind in {Executable, StaticLibrary, SharedLibrary, ModuleLibrary, ObjectLibrary}
  {
    hide Reach;
  }

  ghost predicate HasChoice(commands: seq<Command>, t: Target, source: string, configuration: string) {
    exists i: nat :: IsChoice(commands, t, source, configuration, i)
  }

  ghost predicate ChosenFor(commands: seq<Command>, t: Target, sources: seq<string>, configuration: string, i: nat) {
    exists source :: source in sources && IsChoice(commands, t, source, configuration, i)
  }

  ghost predicate ChosenForSome(targets: seq<Target>, commands: seq<Command>, list: seq<nat>, configuration: string, i: nat)
    requires InRange(targets, list)
  {
    exists t :: t in list && Compiled(targets[t]) && ChosenFor(commands, targets[t], targets[t].sources, configuration, i)
  }

  lemma ChoiceUnique(commands: seq<Command>, t: Target, source: string, configuration: string, i: nat, j: nat)
    requires IsChoice(commands, t, source, configuration, i) && IsChoice(commands, t, source, configuration, j)
    ensures i == j
  {
    hide Usable;
  }

  method SelectSources(commands: seq<Command>, t: Target, configuration: string, chosen0: set<nat>)
    returns (r: Result<set<nat>, Problem>)
    ensures r.Ok? <==> forall source :: source in t.sources ==> HasChoice(commands, t, source, configuration)
    ensures r.Ok? ==> forall i: nat :: i in r.value <==> i in chosen0 || ChosenFor(commands, t, t.sources, configuration, i)
  {
    hide IsChoice;
    var chosen := chosen0;
    for k := 0 to |t.sources|
      invariant forall source :: source in t.sources[..k] ==> HasChoice(commands, t, source, configuration)
      invariant forall i: nat :: i in chosen <==> i in chosen0 || ChosenFor(commands, t, t.sources[..k], configuration, i)
    {
      var source := t.sources[k];
      assert t.sources[..k + 1] == t.sources[..k] + [source];
      var choice := SelectCommand(commands, t, source, configuration);
      if choice.Err? {
        assert source in t.sources && !HasChoice(commands, t, source, configuration);
        return Err(choice.error);
      }
      ghost var before := chosen;
      chosen := chosen + {choice.value};
      forall i: nat ensures i in chosen <==> i in chosen0 || ChosenFor(commands, t, t.sources[..k + 1], configuration, i) {
        OneMoreSource(commands, t, t.sources[..k], source, configuration, choice.value, i);
      }
    }
    assert t.sources[..|t.sources|] == t.sources;
    r := Ok(chosen);
  }

  lemma OneMoreSource(commands: seq<Command>, t: Target, sources: seq<string>, source: string, configuration: string, choice: nat, i: nat)
    requires IsChoice(commands, t, source, configuration, choice)
    ensures ChosenFor(commands, t, sources + [source], configuration, i) <==> ChosenFor(commands, t, sources, configuration, i) || i == choice
  {
    if IsChoice(commands, t, source, configuration, i) { ChoiceUnique(commands, t, source, configuration, i, choice); }
    hide IsChoice;
    if x :| x in sources && IsChoice(commands, t, x, configuration, i) { assert x in sources + [source]; }
    if i == choice { assert source in sources + [source]; }
  }

  /** The targets of a closure in the order of their names. */
  function ByName(targets: seq<Target>): (nat, nat) -> bool {
    (i: nat, j: nat) => StringLess(NameAt(targets, i), NameAt(targets, j))
  }

  function NameAt(targets: seq<Target>, i: nat): string {
    if i < |targets| then targets[i].name else ""
  }

  function Note(t: Target): seq<string> {
    if t.kind == StaticLibrary then
      ["static-library target " + t.name
       + " is analyzed with all translation units present; archive-member extraction is not modeled"]
    else []
  }

  function Names(targets: seq<Target>, list: seq<nat>): seq<string>
    requires InRange(targets, list)
  {
    if list == [] then [] else Names(targets, list[..|list| - 1]) + [targets[list[|list| - 1]].name]
  }

  function Notes(targets: seq<Target>, list: seq<nat>): seq<string>
    requires InRange(targets, list)
  {
    if list == [] then [] else Notes(targets, list[..|list| - 1]) + Note(targets[list[|list| - 1]])
  }

  datatype Selection = Selection(target: nat, closure: seq<string>, indexes: seq<nat>, diagnostics: seq<string>)

  /** members are the targets that the selected one depends on, itself included. */
  ghost predicate IsClosure(targets: seq<Target>, selected: nat, members: seq<nat>) {
    && InRange(targets, members) && Distinct(members)
    && forall t: nat :: t < |targets| ==> (t in members <==> Reach(Dependencies(targets), selected, t))
  }

  /** What is said about a closure: its names in order, the dependencies that do not exist, and a
      note for each static library. */
  ghost predicate Describes(targets: seq<Target>, members: seq<nat>, s: Selection)
    requires InRange(targets, members)
  {
    var ordered := Sort(ByName(targets), members);
    InRange(targets, ordered) && s.closure == Names(targets, ordered)
    && exists said :: multiset(said) == AllMissing(targets, members) + multiset(Notes(targets, ordered))
         && s.diagnostics == Sort(StringLess, said)
  }

  lemma {:induction false} NamesAt(targets: seq<Target>, list: seq<nat>, k: nat)
    requires InRange(targets, list) && k < |list|
    ensures |Names(targets, list)| == |list| && Names(targets, list)[k] == targets[list[k]].name
  {
    var init := list[..|list| - 1];
    if k < |init| { NamesAt(targets, init, k); } else if init != [] { NamesAt(targets, init, 0); }
  }

  /** The names of a closure are listed in order. */
  lemma ClosureSorted(targets: seq<Target>, members: seq<nat>, s: Selection)
    requires InRange(targets, members) && Describes(targets, members, s)
    ensures |s.closure| == |members| && forall k, l :: 0 <= k < l < |s.closure| ==> !StringLess(s.closure[l], s.closure[k])
  {
    hide StringLess, Names, AllMissing;
    var ordered := Sort(ByName(targets), members);
    StringOrder();
    assert StrictWeak(ByName(targets));
    SortIsSorted(ByName(targets), members);
    NamesAll(targets, ordered);
  }

  lemma NamesAll(targets: seq<Target>, list: seq<nat>)
    requires InRange(targets, list)
    ensures |Names(targets, list)| == |list| && forall k :: 0 <= k < |list| ==> Names(targets, list)[k] == targets[list[k]].name
  {
    hide Names;
    forall k | 0 <= k < |list| ensures |Names(targets, list)| == |list| && Names(targets, list)[k] == targets[list[k]].name {
      NamesAt(targets, list, k);
    }
    if list == [] { NoNames(targets); } else { NamesAt(targets, list, 0); }
  }

  /** What is said of a static library: its members are all taken, as if they were linked. */
  predicate IsLibraryNote(t: Target, d: string) {
    t.kind == StaticLibrary
    && d == "static-library target " + t.name + " is analyzed with all translation units present; archive-member extraction is not modeled"
  }

  lemma NoteMeans(t: Target, d: string)
    ensures d in Note(t) <==> IsLibraryNote(t, d)
  {
  }

  /** There is a note exactly for each static library in the closure. */
  lemma {:induction false} NotesMean(targets: seq<Target>, list: seq<nat>, d: string)
    requires InRange(targets, list)
    ensures d in Notes(targets, list) <==> exists k :: 0 <= k < |list| && IsLibraryNote(targets[list[k]], d)
  {
    hide Note, IsLibraryNote;
    if list != [] {
      var init, last := list[..|list| - 1], list[|list| - 1];
      NotesMean(targets, init, d);
      NoteMeans(targets[last], d);
      assert list == init + [last];
    }
  }

  lemma NoNames(targets: seq<Target>)
    ensures Names(targets, []) == []
  {
  }

  /** The command is the choice for some source that is needed. */
  ghost predicate ChosenForNeeded(targets: seq<Target>, commands: seq<Command>, configuration: string, selected: nat, i: nat) {
    exists t: nat, source ::
      t < |targets| && Needed(targets, selected, t, source) && IsChoice(commands, targets[t], source, configuration, i)
  }

  /** The commands selected are, in their own order and once each, the choices for the sources
      that the closure compiles. */
  ghost predicate SelectsNeeded(targets: seq<Target>, commands: seq<Command>, configuration: string, selected: nat, indexes: seq<nat>) {
    && (forall k, l :: 0 <= k < l < |indexes| ==> indexes[k] < indexes[l])
    && (forall i: nat :: i in indexes <==> ChosenForNeeded(targets, commands, configuration, selected, i))
  }

  ghost predicate AllHaveChoices(targets: seq<Target>, commands: seq<Command>, configuration: string, selected: nat) {
    forall t: nat, source :: Needed(targets, selected, t, source) ==> HasChoice(commands, targets[t], source, configuration)
  }

  ghost predicate SomethingNeeded(targets: seq<Target>, selected: nat) {
    exists t: nat, source :: Needed(targets, selected, t, source)
  }

  method FindClosure(targets: seq<Target>, byId: map<string, nat>, selected: nat) returns (members: seq<nat>, missing: seq<string>)
    requires Indexed(targets, byId) && selected < |targets|
    ensures IsClosure(targets, selected, members)
    ensures multiset(missing) == AllMissing(targets, members)
  {
    hide Reach, AllMissing;
    var closure := new Closure(targets, byId);
    closure.Visit(selected);
    members, missing := closure.members, closure.diagnostics;
    assert members[0..] == members;
    forall t: nat | t < |targets| ensures t in members <==> Reach(Dependencies(targets), selected, t) {
      if Reach(Dependencies(targets), selected, t) && t !in members {
        var a, b := ReachCrossing(Dependencies(targets), selected, t, iset x | x in members);
        assert false;
      }
    }
  }

  /** When the selection succeeds. */
  ghost predicate Selectable(targets: seq<Target>, commands: seq<Command>, configuration: string, i: nat) {
    && UniqueIds(targets) && i < |targets| && targets[i].kind != Utility
    && AllHaveChoices(targets, commands, configuration, i)
    && (SomethingNeeded(targets, i) || targets[i].kind == InterfaceLibrary)
  }

  ghost predicate SelectionRight(targets: seq<Target>, requested: string, commands: seq<Command>, configuration: string, s: Selection) {
    && OnlyAsked(targets, requested, s.target) && Selectable(targets, commands, configuration, s.target)
    && SelectsNeeded(targets, commands, configuration, s.target, s.indexes)
    && exists members :: IsClosure(targets, s.target, members) && Describes(targets, members, s)
  }

  lemma NeededInRange(targets: seq<Target>, selected: nat, t: nat, source: string)
    requires Needed(targets, selected, t, source)
    ensures t < |targets|
  {
  }

  lemma NeededByMembers(targets: seq<Target>, selected: nat, members: seq<nat>, list: seq<nat>, t: nat, source: string)
    requires IsClosure(targets, selected, members) && forall x: nat :: x in list <==> x in members
    requires InRange(targets, list)
    ensures Needed(targets, selected, t, source) <==> t in list && Compiled(targets[t]) && source in targets[t].sources
  {
    hide Reach;
  }

  /** The set of commands chosen for the members of a closure. */
  method SelectForAll(targets: seq<Target>, commands: seq<Command>, configuration: string, ordered: seq<nat>)
    returns (r: Result<set<nat>, Problem>)
    requires InRange(targets, ordered)
    ensures r.Ok? <==> forall t, source :: t in ordered && Compiled(targets[t]) && source in targets[t].sources ==>
                         HasChoice(commands, targets[t], source, configuration)
    ensures r.Ok? ==> forall i: nat :: i in r.value <==> ChosenForSome(targets, commands, ordered, configuration, i)
  {
    hide HasChoice, ChosenFor;
    var chosen: set<nat> := {};
    for k := 0 to |ordered|
      invariant forall t, source :: t in ordered[..k] && Compiled(targets[t]) && source in targets[t].sources ==>
                  HasChoice(commands, targets[t], source, configuration)
      invariant forall i: nat :: i in chosen <==> ChosenForSome(targets, commands, ordered[..k], configuration, i)
    {
      var t := ordered[k];
      assert ordered[..k + 1] == ordered[..k] + [t];
      if Compiled(targets[t]) {
        var one := SelectSources(commands, targets[t], configuration, chosen);
        if one.Err? {
          assert t in ordered;
          return Err(one.error);
        }
        chosen := one.value;
      }
    }
    assert ordered[..|ordered|] == ordered;
    r := Ok(chosen);
  }

  /** The members of a set of positions, in order. */
  method InOrder(n: nat, chosen: set<nat>) returns (indexes: seq<nat>)
    requires forall i :: i in chosen ==> i < n
    ensures forall k, l :: 0 <= k < l < |indexes| ==> indexes[k] < indexes[l]
    ensures forall i: nat :: i in indexes <==> i in chosen
  {
    indexes := [];
    for i := 0 to n
      invariant forall k :: 0 <= k < |indexes| ==> indexes[k] < i
      invariant forall k, l :: 0 <= k < l < |indexes| ==> indexes[k] < indexes[l]
      invariant forall j: nat :: j in indexes <==> j in chosen && j < i
    {
      if i in chosen { indexes := indexes + [i]; }
    }
  }

  /** The positions of the commands that a closure needs. */
  method SelectIndexes(targets: seq<Target>, commands: seq<Command>, configuration: string, selected: nat,
                       ghost members: seq<nat>, ordered: seq<nat>)
    returns (r: Result<seq<nat>, Problem>)
    requires IsClosure(targets, selected, members) && InRange(targets, ordered)
    requires forall x: nat :: x in ordered <==> x in members
    ensures r.Ok? <==> AllHaveChoices(targets, commands, configuration, selected)
    ensures r.Ok? ==> SelectsNeeded(targets, commands, configuration, selected, r.value)
  {
    hide IsClosure, ChosenForSome, HasChoice, AllHaveChoices, SelectsNeeded;
    var chosen := SelectForAll(targets, commands, configuration, ordered);
    ChoicesNeeded(targets, commands, configuration, selected, members, ordered);
    if chosen.Err? { return Err(chosen.error); }
    ChosenInRange(targets, commands, configuration, ordered);
    var indexes := InOrder(|commands|, chosen.value);
    SelectedIsNeeded(targets, commands, configuration, selected, members, ordered, indexes);
    r := Ok(indexes);
  }

  /** Selects the commands of the target that is asked for. */
  method SelectTargetCommands(targets: seq<Target>, requested: string, commands: seq<Command>, configuration: string)
    returns (r: Result<Selection, Problem>)
    ensures r.Ok? ==> SelectionRight(targets, requested, commands, configuration, r.value)
    ensures r.Ok? <==> exists i :: OnlyAsked(targets, requested, i) && Selectable(targets, commands, configuration, i)
  {
    hide IsClosure, AllMissing, Reach, Indexed, UniqueIds, SelectsNeeded, Asked, AllHaveChoices, SomethingNeeded, Names, Notes, Sort;
    var selected :- SelectTarget(targets, requested);
    assert forall i: nat :: OnlyAsked(targets, requested, i) ==> i == selected;
    if targets[selected].kind == Utility { return Err(UtilityTarget); }
    var byId :- IndexTargets(targets);
    var members, missing := FindClosure(targets, byId, selected);
    var ordered := Sort(ByName(targets), members);
    OrderedMembers(targets, selected, members, ordered);
    var indexes :- SelectIndexes(targets, commands, configuration, selected, members, ordered);
    SelectsSome(targets, commands, configuration, selected, indexes);
    if indexes == [] && targets[selected].kind != InterfaceLibrary { return Err(NothingSelected); }
    var said := missing + Notes(targets, ordered);
    var s := Selection(selected, Names(targets, ordered), indexes, Sort(StringLess, said));
    assert Describes(targets, members, s);
    r := Ok(s);
  }

  lemma OrderedMembers(targets: seq<Target>, selected: nat, members: seq<nat>, ordered: seq<nat>)
    requires IsClosure(targets, selected, members) && ordered == Sort(ByName(targets), members)
    ensures InRange(targets, members) && InRange(targets, ordered)
    ensures forall x: nat :: x in ordered <==> x in members
  {
    hide Reach;
    SortMembers(ByName(targets), members);
    forall k | 0 <= k < |ordered| ensures ordered[k] < |targets| { assert ordered[k] in members; }
  }

  lemma ChoicesNeeded(targets: seq<Target>, commands: seq<Command>, configuration: string, selected: nat, members: seq<nat>, ordered: seq<nat>)
    requires IsClosure(targets, selected, members) && InRange(targets, ordered)
    requires forall x: nat :: x in ordered <==> x in members
    ensures AllHaveChoices(targets, commands, configuration, selected) <==>
      forall t, source :: t in ordered && Compiled(targets[t]) && source in targets[t].sources ==>
        HasChoice(commands, targets[t], source, configuration)
  {
    hide HasChoice, Needed;
    forall t: nat, source
      ensures Needed(targets, selected, t, source) <==> t in ordered && Compiled(targets[t]) && source in targets[t].sources
    {
      NeededByMembers(targets, selected, members, ordered, t, source);
    }
  }

  lemma ChosenInRange(targets: seq<Target>, commands: seq<Command>, configuration: string, list: seq<nat>)
    requires InRange(targets, list)
    ensures forall i: nat :: ChosenForSome(targets, commands, list, configuration, i) ==> i < |commands|
  {
  }

  lemma SelectedIsNeeded(targets: seq<Target>, commands: seq<Command>, configuration: string, selected: nat,
                         members: seq<nat>, ordered: seq<nat>, indexes: seq<nat>)
    requires IsClosure(targets, selected, members) && InRange(targets, ordered)
    requires forall x: nat :: x in ordered <==> x in members
    requires forall k, l :: 0 <= k < l < |indexes| ==> indexes[k] < indexes[l]
    requires forall i: nat :: i in indexes <==> ChosenForSome(targets, commands, ordered, configuration, i)
    ensures SelectsNeeded(targets, commands, configuration, selected, indexes)
  {
    hide Needed, IsChoice;
    forall i: nat
      ensures ChosenForNeeded(targets, commands, configuration, selected, i) <==>
        ChosenForSome(targets, commands, ordered, configuration, i)
    {
      forall t: nat, source
        ensures Needed(targets, selected, t, source) <==> t in ordered && Compiled(targets[t]) && source in targets[t].sources
      {
        NeededByMembers(targets, selected, members, ordered, t, source);
      }
      if t: nat, source :| t < |targets| && Needed(targets, selected, t, source) && IsChoice(commands, targets[t], source, configuration, i) {
        assert ChosenFor(commands, targets[t], targets[t].sources, configuration, i);
      }
    }
  }

  lemma SelectsSome(targets: seq<Target>, commands: seq<Command>, configuration: string, selected: nat, indexes: seq<nat>)
    requires SelectsNeeded(targets, commands, configuration, selected, indexes)
    requires AllHaveChoices(targets, commands, configuration, selected)
    ensures indexes != [] <==> SomethingNeeded(targets, selected)
  {
    hide IsChoice, Needed;
    if t: nat, source :| Needed(targets, selected, t, source) {
      NeededInRange(targets, selected, t, source);
      var i: nat :| IsChoice(commands, targets[t], source, configuration, i);
      assert ChosenForNeeded(targets, commands, configuration, selected, i);
    }
    if indexes != [] { assert indexes[0] in indexes; }
  }

  lemma ChoiceCompiles(commands: seq<Command>, t: Target, source: string, configuration: string, i: nat)
    requires IsChoice(commands, t, source, configuration, i)
    ensures i < |commands| && commands[i].file == source
  {
    hide BuiltFor, BuiltIn;
  }

  ghost predicate Compiles(commands: seq<Command>, indexes: seq<nat>, file: string) {
    exists i: nat :: i in indexes && i < |commands| && commands[i].file == file
  }

  /** The files that the selected commands compile are exactly the sources that are needed. */
  lemma SelectionCovers(targets: seq<Target>, commands: seq<Command>, configuration: string, selected: nat, indexes: seq<nat>, file: string)
    requires SelectsNeeded(targets, commands, configuration, selected, indexes)
    requires AllHaveChoices(targets, commands, configuration, selected)
    ensures Compiles(commands, indexes, file) <==> exists t: nat :: Needed(targets, selected, t, file)
  {
    hide Needed, IsChoice;
    if t: nat :| Needed(targets, selected, t, file) {
      NeededInRange(targets, selected, t, file);
      var i: nat :| IsChoice(commands, targets[t], file, configuration, i);
      ChoiceCompiles(commands, targets[t], file, configuration, i);
      assert ChosenForNeeded(targets, commands, configuration, selected, i);
    }
    if i: nat :| i in indexes && i < |commands| && commands[i].file == file {
      assert ChosenForNeeded(targets, commands, configuration, selected, i);
      var t: nat, source :|
        t < |targets| && Needed(targets, selected, t, source) && IsChoice(commands, targets[t], source, configuration, i);
      ChoiceCompiles(commands, targets[t], source, configuration, i);
    }
  }
}
