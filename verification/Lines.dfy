/** Estimating lines of code: ranges of lines are swept in order, file by file, so that no line
    is counted twice. */
module Lines {
  import opened Wrappers
  import opened Orders
  import opened Symbols
  import opened Facts

  type Range = (nat, nat)

  datatype Estimate = Estimate(loc: nat, unmeasured: nat)

  // ---- lines

  function Interval(a: nat, b: nat): (r: set<nat>)
    ensures forall l: nat :: l in r <==> a <= l <= b
  {
    if b < a then {} else if b == 0 then {0} else Interval(a, b - 1) + {b}
  }

  lemma {:induction false} IntervalSize(a: nat, b: nat)
    requires a <= b
    ensures |Interval(a, b)| == b - a + 1
    decreases b - a
  {
    hide Interval;
    if a == b {
      assert Interval(a, b) == {a};
    } else {
      IntervalSize(a, b - 1);
      assert Interval(a, b) == Interval(a, b - 1) + {b};
    }
  }

  /** The lines that some range covers. */
  ghost function LinesOf(ranges: seq<Range>): set<nat> {
    if ranges == [] then {} else LinesOf(ranges[..|ranges| - 1]) + Interval(ranges[|ranges| - 1].0, ranges[|ranges| - 1].1)
  }

  lemma {:induction false} LinesMember(ranges: seq<Range>, l: nat)
    ensures l in LinesOf(ranges) <==> exists i :: 0 <= i < |ranges| && ranges[i].0 <= l <= ranges[i].1
  {
    if ranges != [] {
      LinesMember(ranges[..|ranges| - 1], l);
    }
  }

  lemma LinesOfPermuted(a: seq<Range>, b: seq<Range>)
    requires multiset(a) == multiset(b)
    ensures LinesOf(a) == LinesOf(b)
  {
    SameMultisetSameMembers(a, b);
    forall l ensures l in LinesOf(a) <==> l in LinesOf(b) {
      LinesMember(a, l);
      LinesMember(b, l);
      if i :| 0 <= i < |a| && a[i].0 <= l <= a[i].1 { assert a[i] in b; }
      if i :| 0 <= i < |b| && b[i].0 <= l <= b[i].1 { assert b[i] in a; }
    }
  }

  predicate RangeLess(a: Range, b: Range) {
    a.0 < b.0 || (a.0 == b.0 && a.1 < b.1)
  }

  lemma RangeOrder()
    ensures StrictTotal(RangeLess)
  {
  }

  function SortRanges(ranges: seq<Range>): seq<Range> {
    Sort(RangeLess, ranges)
  }

  /** Ranges of one file: what overlaps or touches is joined. */
  method Sweep(ranges: seq<Range>) returns (total: nat)
    requires ranges != [] && forall i :: 0 <= i < |ranges| ==> 1 <= ranges[i].0 <= ranges[i].1
    ensures total == |LinesOf(ranges)|
  {
    hide LinesOf, SortRanges, Interval;
    var sorted := SortRanges(ranges);
    SortedRanges(ranges);
    total := 0;
    var begin: nat, end: nat := sorted[0].0, sorted[0].1;
    ghost var done: set<nat> := {};
    SweepStart(sorted);
    for index := 1 to |sorted|
      invariant begin <= end && begin <= sorted[index - 1].0
      invariant LinesOf(sorted[..index]) == done + Interval(begin, end)
      invariant total == |done| && forall l :: l in done ==> l < begin
    {
      var range := sorted[index];
      assert range.0 >= sorted[index - 1].0;
      LinesNext(sorted, index);
      if range.0 <= end || range.0 - 1 == end {
        JoinInterval(begin, end, range);
        end := if end < range.1 then range.1 else end;
        assert LinesOf(sorted[..index + 1]) == done + Interval(begin, end);
      } else {
        CountInterval(done, begin, end);
        total := total + (end - begin + 1);
        done := done + Interval(begin, end);
        IntervalBounds(begin, end);
        begin, end := range.0, range.1;
      }
    }
    assert sorted[..|sorted|] == sorted;
    CountInterval(done, begin, end);
    total := total + (end - begin + 1);
    LinesOfPermuted(sorted, ranges);
  }

  lemma SortedRanges(ranges: seq<Range>)
    requires forall i :: 0 <= i < |ranges| ==> 1 <= ranges[i].0 <= ranges[i].1
    ensures var s := SortRanges(ranges);
            && multiset(s) == multiset(ranges) && |s| == |ranges|
            && (forall i :: 0 <= i < |s| ==> 1 <= s[i].0 <= s[i].1)
            && (forall i, j :: 0 <= i < j < |s| ==> s[i].0 <= s[j].0)
  {
    var s := SortRanges(ranges);
    RangeOrder();
    SortIsSorted(RangeLess, ranges);
    SortMembers(RangeLess, ranges);
    forall i | 0 <= i < |s| ensures 1 <= s[i].0 <= s[i].1 { assert s[i] in ranges; }
  }

  lemma SweepStart(sorted: seq<Range>)
    requires sorted != []
    ensures LinesOf(sorted[..1]) == {} + Interval(sorted[0].0, sorted[0].1)
  {
    assert sorted[..1][..0] == [];
    assert LinesOf([]) == {};
  }

  lemma LinesNext(sorted: seq<Range>, index: nat)
    requires index < |sorted|
    ensures LinesOf(sorted[..index + 1]) == LinesOf(sorted[..index]) + Interval(sorted[index].0, sorted[index].1)
  {
    assert sorted[..index + 1][..index] == sorted[..index];
  }

  lemma JoinInterval(begin: nat, end: nat, range: Range)
    requires begin <= range.0 <= end + 1 && begin <= end && range.0 <= range.1
    ensures Interval(begin, end) + Interval(range.0, range.1) == Interval(begin, if end < range.1 then range.1 else end)
  {
  }

  lemma IntervalBounds(begin: nat, end: nat)
    ensures forall l :: l in Interval(begin, end) <==> begin <= l <= end
  {
  }

  lemma CountInterval(done: set<nat>, begin: nat, end: nat)
    requires begin <= end && forall l :: l in done ==> l < begin
    ensures |done + Interval(begin, end)| == |done| + (end - begin + 1)
  {
    IntervalSize(begin, end);
    assert done !! Interval(begin, end);
  }

  // ---- members

  /** A member is measured if its definition has a beginning and an end in one file. */
  predicate Measured(e: SourceExtent) {
    !(e.begin.file == [] || e.begin.file != e.end.file || e.begin.line == 0 || e.end.line < e.begin.line)
  }

  type Line = (string, nat)

  ghost function ExtentLines(e: SourceExtent): set<Line> {
    if Measured(e) then set l | l in Interval(e.begin.line, e.end.line) :: (e.begin.file, l) else {}
  }

  /** The distinct (file, line) pairs that the measured members cover. */
  ghost function Covered(symbols: seq<Symbol>, members: seq<nat>): set<Line>
    requires InBounds(symbols, members)
  {
    set i, x | 0 <= i < |members| && x in ExtentLines(PrimaryExtent(symbols[members[i]])) :: x
  }

  predicate InBounds(symbols: seq<Symbol>, members: seq<nat>) {
    forall i :: 0 <= i < |members| ==> members[i] < |symbols|
  }

  function UnmeasuredCount(symbols: seq<Symbol>, members: seq<nat>): nat
    requires InBounds(symbols, members)
  {
    if members == [] then 0
    else
      var last := if Measured(PrimaryExtent(symbols[members[|members| - 1]])) then 0 else 1;
      UnmeasuredCount(symbols, members[..|members| - 1]) + last
  }

  /** The ranges of each file are those of its measured members. */
  ghost predicate Grouped(symbols: seq<Symbol>, members: seq<nat>, groups: map<string, seq<Range>>)
    requires InBounds(symbols, members)
  {
    && (forall f :: f in groups ==> groups[f] != [] && forall i :: 0 <= i < |groups[f]| ==> 1 <= groups[f][i].0 <= groups[f][i].1)
    && (forall x: Line :: x in Covered(symbols, members) <==> x.0 in groups && x.1 in LinesOf(groups[x.0]))
  }

  lemma CoveredNext(symbols: seq<Symbol>, members: seq<nat>, k: nat)
    requires InBounds(symbols, members) && k < |members|
    ensures InBounds(symbols, members[..k]) && InBounds(symbols, members[..k + 1])
    ensures Covered(symbols, members[..k + 1]) == Covered(symbols, members[..k]) + ExtentLines(PrimaryExtent(symbols[members[k]]))
    ensures UnmeasuredCount(symbols, members[..k + 1]) ==
      UnmeasuredCount(symbols, members[..k]) + if Measured(PrimaryExtent(symbols[members[k]])) then 0 else 1
  {
    hide ExtentLines, Measured, PrimaryExtent;
    assert members[..k + 1][..k] == members[..k];
    var a, b := Covered(symbols, members[..k + 1]), Covered(symbols, members[..k]);
    forall x | x in a ensures x in b + ExtentLines(PrimaryExtent(symbols[members[k]])) {
      var i :| 0 <= i < k + 1 && x in ExtentLines(PrimaryExtent(symbols[members[..k + 1][i]]));
      if i < k { assert members[..k][i] == members[i]; }
    }
    forall x | x in b + ExtentLines(PrimaryExtent(symbols[members[k]])) ensures x in a {
      if x in b {
        var i :| 0 <= i < k && x in ExtentLines(PrimaryExtent(symbols[members[..k][i]]));
        assert members[..k + 1][i] == members[i];
      } else {
        assert members[..k + 1][k] == members[k];
      }
    }
  }

  lemma GroupedNext(symbols: seq<Symbol>, members: seq<nat>, groups: map<string, seq<Range>>, k: nat)
    requires InBounds(symbols, members) && k < |members| && InBounds(symbols, members[..k]) && Grouped(symbols, members[..k], groups)
    requires Measured(PrimaryExtent(symbols[members[k]]))
    ensures InBounds(symbols, members[..k + 1])
    ensures var e := PrimaryExtent(symbols[members[k]]);
            var f := e.begin.file;
            Grouped(symbols, members[..k + 1], groups[f := (if f in groups then groups[f] else []) + [(e.begin.line, e.end.line)]])
  {
    hide Covered, PrimaryExtent, Interval, LinesOf;
    CoveredNext(symbols, members, k);
    var e := PrimaryExtent(symbols[members[k]]);
    var f := e.begin.file;
    var was := if f in groups then groups[f] else [];
    var next := groups[f := was + [(e.begin.line, e.end.line)]];
    LinesLast(was, (e.begin.line, e.end.line));
    NoLines();
    forall x: Line ensures x in Covered(symbols, members[..k + 1]) <==> x.0 in next && x.1 in LinesOf(next[x.0]) {
      assert x in Covered(symbols, members[..k]) <==> x.0 in groups && x.1 in LinesOf(groups[x.0]);
      ExtentLine(e, x);
    }
  }

  lemma ExtentLine(e: SourceExtent, x: Line)
    requires Measured(e)
    ensures x in ExtentLines(e) <==> x.0 == e.begin.file && x.1 in Interval(e.begin.line, e.end.line)
  {
  }

  lemma LinesLast(ranges: seq<Range>, r: Range)
    ensures LinesOf(ranges + [r]) == LinesOf(ranges) + Interval(r.0, r.1)
  {
    assert (ranges + [r])[..|ranges|] == ranges;
  }

  lemma NoLines()
    ensures LinesOf([]) == {}
  {
  }

  /** The pairs of one file. */
  ghost function FileLines(f: string, lines: set<nat>): set<Line> {
    set l | l in lines :: (f, l)
  }

  lemma {:induction false} FileLinesSize(f: string, lines: set<nat>)
    ensures |FileLines(f, lines)| == |lines|
    decreases |lines|
  {
    if lines != {} {
      var l :| l in lines;
      FileLinesSize(f, lines - {l});
      assert FileLines(f, lines) == FileLines(f, lines - {l}) + {(f, l)};
    } else {
      assert FileLines(f, lines) == {};
    }
  }

  /** The covered pairs whose file is among the given ones. */
  ghost function InFiles(covered: set<Line>, files: set<string>): set<Line> {
    set x | x in covered && x.0 in files
  }

  lemma NextFile(symbols: seq<Symbol>, members: seq<nat>, groups: map<string, seq<Range>>, files: set<string>, f: string)
    requires InBounds(symbols, members) && Grouped(symbols, members, groups) && f in groups && f !in files
    ensures |InFiles(Covered(symbols, members), files + {f})| == |InFiles(Covered(symbols, members), files)| + |LinesOf(groups[f])|
  {
    hide Covered, LinesOf;
    var c := Covered(symbols, members);
    FileLinesSize(f, LinesOf(groups[f]));
    var fl := FileLines(f, LinesOf(groups[f]));
    forall x: Line ensures x in InFiles(c, files + {f}) <==> x in InFiles(c, files) + fl {
      assert x in c <==> x.0 in groups && x.1 in LinesOf(groups[x.0]);
      if x.0 == f && x.1 in LinesOf(groups[f]) { assert x == (f, x.1); }
    }
    assert InFiles(c, files + {f}) == InFiles(c, files) + fl;
    assert InFiles(c, files) !! fl;
  }

  /** The estimate is the number of distinct (file, line) pairs covered, whatever the order, the
      overlap or the adjacency of the members, and the number of members without a range. */
  method EstimateLines(symbols: seq<Symbol>, members: seq<nat>) returns (r: Estimate)
    requires InBounds(symbols, members)
    ensures r.loc == |Covered(symbols, members)|
    ensures r.unmeasured == UnmeasuredCount(symbols, members)
  {
    hide Covered, Grouped, UnmeasuredCount, LinesOf, PrimaryExtent, ExtentLines;
    var groups: map<string, seq<Range>> := map[];
    var unmeasured := 0;
    NothingCovered(symbols);
    for k := 0 to |members|
      invariant InBounds(symbols, members[..k]) && Grouped(symbols, members[..k], groups)
      invariant unmeasured == UnmeasuredCount(symbols, members[..k])
    {
      var e := PrimaryExtent(symbols[members[k]]);
      CoveredNext(symbols, members, k);
      if e.begin.file == [] || e.begin.file != e.end.file || e.begin.line == 0 || e.end.line < e.begin.line {
        unmeasured := unmeasured + 1;
        UnmeasuredNext(symbols, members, groups, k);
      } else {
        GroupedNext(symbols, members, groups, k);
        var f := e.begin.file;
        groups := groups[f := (if f in groups then groups[f] else []) + [(e.begin.line, e.end.line)]];
      }
    }
    assert members[..|members|] == members;
    var loc := CountFiles(symbols, members, groups);
    r := Estimate(loc, unmeasured);
  }

  method CountFiles(symbols: seq<Symbol>, members: seq<nat>, groups: map<string, seq<Range>>) returns (loc: nat)
    requires InBounds(symbols, members) && Grouped(symbols, members, groups)
    ensures loc == |Covered(symbols, members)|
  {
    hide Covered, Grouped, LinesOf;
    loc := 0;
    var left := groups.Keys;
    assert InFiles(Covered(symbols, members), {}) == {};
    assert groups.Keys - left == {};
    while left != {}
      invariant left <= groups.Keys && loc == |InFiles(Covered(symbols, members), groups.Keys - left)|
    {
      var f :| f in left;
      GroupRanges(symbols, members, groups, f);
      var lines := Sweep(groups[f]);
      NextFile(symbols, members, groups, groups.Keys - left, f);
      loc := loc + lines;
      assert groups.Keys - (left - {f}) == (groups.Keys - left) + {f};
      left := left - {f};
    }
    assert groups.Keys - left == groups.Keys;
    AllFiles(symbols, members, groups);
  }

  lemma GroupRanges(symbols: seq<Symbol>, members: seq<nat>, groups: map<string, seq<Range>>, f: string)
    requires InBounds(symbols, members) && Grouped(symbols, members, groups) && f in groups
    ensures groups[f] != [] && forall i :: 0 <= i < |groups[f]| ==> 1 <= groups[f][i].0 <= groups[f][i].1
  {
  }

  lemma AllFiles(symbols: seq<Symbol>, members: seq<nat>, groups: map<string, seq<Range>>)
    requires InBounds(symbols, members) && Grouped(symbols, members, groups)
    ensures InFiles(Covered(symbols, members), groups.Keys) == Covered(symbols, members)
  {
    hide Covered, LinesOf;
  }

  lemma NothingCovered(symbols: seq<Symbol>)
    ensures forall none: seq<nat> :: none == [] ==>
      InBounds(symbols, none) && Grouped(symbols, none, map[]) && UnmeasuredCount(symbols, none) == 0
  {
  }

  lemma UnmeasuredNext(symbols: seq<Symbol>, members: seq<nat>, groups: map<string, seq<Range>>, k: nat)
    requires InBounds(symbols, members) && k < |members| && InBounds(symbols, members[..k]) && Grouped(symbols, members[..k], groups)
    requires !Measured(PrimaryExtent(symbols[members[k]]))
    ensures InBounds(symbols, members[..k + 1]) && Grouped(symbols, members[..k + 1], groups)
  {
    hide Covered, LinesOf, PrimaryExtent;
    CoveredNext(symbols, members, k);
    assert Covered(symbols, members[..k + 1]) == Covered(symbols, members[..k]);
  }

  // ---- consequences

  /** A member list within another covers no more, so an owner's estimate never exceeds its
      component's. */
  lemma CoveredMono(symbols: seq<Symbol>, some: seq<nat>, all: seq<nat>)
    requires InBounds(symbols, some) && InBounds(symbols, all) && forall m: nat :: m in some ==> m in all
    ensures Covered(symbols, some) <= Covered(symbols, all) && |Covered(symbols, some)| <= |Covered(symbols, all)|
  {
    hide ExtentLines, PrimaryExtent;
    var a, b := Covered(symbols, some), Covered(symbols, all);
    forall x | x in a ensures x in b {
      var i :| 0 <= i < |some| && x in ExtentLines(PrimaryExtent(symbols[some[i]]));
      assert some[i] in all;
      var j :| 0 <= j < |all| && all[j] == some[i];
    }
    SubsetSize(a, b);
  }

  lemma {:induction false} SubsetSize<T>(a: set<T>, b: set<T>)
    requires a <= b
    ensures |a| <= |b|
  {
    assert b == a + (b - a);
  }

  /** The order of the members, and how often each is listed, does not matter. */
  lemma CoveredBySet(symbols: seq<Symbol>, a: seq<nat>, b: seq<nat>)
    requires InBounds(symbols, a) && InBounds(symbols, b) && forall m: nat :: m in a <==> m in b
    ensures Covered(symbols, a) == Covered(symbols, b)
  {
    CoveredMono(symbols, a, b);
    CoveredMono(symbols, b, a);
  }
}
