/** Lines and columns of positions in a source file, from the offsets at which its lines start. */
module LineIndex {
  import opened Wrappers

  predicate BreakAt(text: string, p: nat) {
    p < |text| && text[p] == '\n'
  }

  /** The number of line breaks before a position. */
  function Breaks(text: string, p: nat): nat {
    if p == 0 then 0 else Breaks(text, p - 1) + if BreakAt(text, p - 1) then 1 else 0
  }

  predicate StartsLine(text: string, p: nat) {
    p == 0 || BreakAt(text, p - 1)
  }

  /** starts lists, in ascending order, the positions up to n at which a line starts. */
  ghost predicate ListsStarts(text: string, n: nat, starts: seq<nat>) {
    && (forall i, j :: 0 <= i < j < |starts| ==> starts[i] < starts[j])
    && (forall p: nat :: p in starts <==> p <= n && StartsLine(text, p))
  }

  method LineStarts(text: string) returns (starts: seq<nat>)
    ensures ListsStarts(text, |text|, starts)
  {
    starts := [0];
    for offset := 0 to |text|
      invariant ListsStarts(text, offset, starts)
    {
      if text[offset] == '\n' {
        assert forall i :: 0 <= i < |starts| ==> starts[i] in starts;
        starts := starts + [offset + 1];
      }
    }
  }

  /** The number of entries of a sorted list that are at most x. */
  method UpperBound(list: seq<nat>, x: nat) returns (n: nat)
    requires forall i, j :: 0 <= i < j < |list| ==> list[i] < list[j]
    ensures n <= |list|
    ensures forall i :: 0 <= i < |list| ==> (list[i] <= x <==> i < n)
  {
    var hi := |list|;
    n := 0;
    while n < hi
      invariant n <= hi <= |list|
      invariant forall i :: 0 <= i < n ==> list[i] <= x
      invariant forall i :: hi <= i < |list| ==> x < list[i]
    {
      var mid := (n + hi) / 2;
      if list[mid] <= x { n := mid + 1; } else { hi := mid; }
    }
  }

  lemma {:induction false} BreaksMono(text: string, p: nat, q: nat)
    requires p <= q
    ensures Breaks(text, p) <= Breaks(text, q)
    ensures Breaks(text, p) == Breaks(text, q) <==> forall r: nat :: p <= r < q ==> !BreakAt(text, r)
    decreases q
  {
    hide BreakAt;
    if p < q {
      BreaksMono(text, p, q - 1);
    }
  }

  /** The line starts are numbered by the line breaks before them. */
  lemma {:induction false} StartsAreNumbered(text: string, starts: seq<nat>, i: nat)
    requires ListsStarts(text, |text|, starts) && i < |starts|
    ensures Breaks(text, starts[i]) == i
  {
    hide BreakAt;
    assert starts[i] in starts;
    if i == 0 {
      assert 0 in starts;
      FirstIsLeast(starts, 0);
    } else {
      StartsAreNumbered(text, starts, i - 1);
      NoStartBetween(text, starts, i);
      assert StartsLine(text, starts[i]);
      BreaksMono(text, starts[i - 1], starts[i] - 1);
    }
  }

  lemma FirstIsLeast(starts: seq<nat>, p: nat)
    requires (forall i, j :: 0 <= i < j < |starts| ==> starts[i] < starts[j]) && p in starts
    ensures starts[0] <= p
  {
  }

  lemma NoStartBetween(text: string, starts: seq<nat>, i: nat)
    requires ListsStarts(text, |text|, starts) && 0 < i < |starts|
    ensures forall r: nat :: starts[i - 1] <= r < starts[i] - 1 ==> !BreakAt(text, r)
  {
    forall r: nat | starts[i - 1] <= r < starts[i] - 1 ensures !BreakAt(text, r) {
      assert starts[i] in starts;
      if BreakAt(text, r) {
        assert StartsLine(text, r + 1);
        Between(starts, i, r + 1);
      }
    }
  }

  lemma Between(starts: seq<nat>, i: nat, p: nat)
    requires (forall i, j :: 0 <= i < j < |starts| ==> starts[i] < starts[j]) && 0 < i < |starts| && p in starts
    ensures p <= starts[i - 1] || starts[i] <= p
  {
    var j :| 0 <= j < |starts| && starts[j] == p;
    assert j < i - 1 ==> starts[j] < starts[i - 1];
    assert i < j ==> starts[i] < starts[j];
  }

  /** Line and column, counted from one, belong to a position: as many line breaks come before it
      as there are earlier lines, and the column counts from the last of them. */
  ghost predicate IsPoint(text: string, p: nat, line: nat, column: nat) {
    && line == Breaks(text, p) + 1
    && 1 <= column <= p + 1
    && StartsLine(text, p + 1 - column)
    && forall q: nat :: p + 1 - column <= q < p ==> !BreakAt(text, q)
  }

  /** A position with its line and column, where zero stands for what is not known: the file is
      read for them, if it can be. */
  method PointAt(file: Option<string>, p: nat, line0: nat, column0: nat) returns (line: nat, column: nat)
    ensures file.None? ==> line == line0 && column == column0
    ensures line0 != 0 ==> line == line0
    ensures column0 != 0 ==> column == column0
    ensures file.Some? && line0 == 0 ==> line == Breaks(file.value, p) + 1
    ensures file.Some? && column0 == 0 ==> IsPoint(file.value, p, Breaks(file.value, p) + 1, column)
  {
    line, column := line0, column0;
    if (line0 != 0 && column0 != 0) || file.None? { return; }
    var starts := LineStarts(file.value);
    var index := UpperBound(starts, p);
    IndexIsLine(file.value, starts, p, index);
    if line == 0 { line := index; }
    if column == 0 && index != 0 { column := p - starts[index - 1] + 1; }
  }

  lemma IndexIsLine(text: string, starts: seq<nat>, p: nat, index: nat)
    requires ListsStarts(text, |text|, starts) && index <= |starts|
    requires forall i :: 0 <= i < |starts| ==> (starts[i] <= p <==> i < index)
    ensures 0 < index && starts[index - 1] <= p
    ensures IsPoint(text, p, index, p - starts[index - 1] + 1)
  {
    hide BreakAt;
    assert 0 in starts;
    var start := starts[index - 1];
    assert start in starts;
    StartsAreNumbered(text, starts, index - 1);
    forall q: nat | start <= q < p ensures !BreakAt(text, q) {
      LaterBreak(text, starts, p, index, q);
    }
    BreaksMono(text, start, p);
  }

  lemma LaterBreak(text: string, starts: seq<nat>, p: nat, index: nat, q: nat)
    requires ListsStarts(text, |text|, starts) && 0 < index <= |starts|
    requires forall i :: 0 <= i < |starts| ==> (starts[i] <= p <==> i < index)
    requires starts[index - 1] <= q < p
    ensures !BreakAt(text, q)
  {
    if BreakAt(text, q) {
      assert StartsLine(text, q + 1);
    }
  }

  lemma LaterDiffers(text: string, p: nat, q: nat, line: nat, column: nat)
    requires p < q && IsPoint(text, p, line, column)
    ensures !IsPoint(text, q, line, column)
  {
    BreaksMono(text, p, q);
  }

  /** The line and the column determine the position. */
  lemma PointDeterminesPosition(text: string, p: nat, q: nat, line: nat, column: nat)
    requires IsPoint(text, p, line, column) && IsPoint(text, q, line, column)
    ensures p == q
  {
    if p < q { LaterDiffers(text, p, q, line, column); }
    if q < p { LaterDiffers(text, q, p, line, column); }
  }
}
