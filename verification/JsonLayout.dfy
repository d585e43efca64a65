/** Objects and arrays laid out as a writer prints them, and the values they denote. */
module JsonLayout {
  import opened Wrappers
  import opened Text
  import opened Orders
  import opened Json
  import opened JsonGrammar
  import opened JsonText

  /** The blanks before the first entry, before each later one, and after the last. */
  datatype Layout = Layout(first: string, next: string, last: string)

  const INLINE := Layout("", " ", "")

  predicate Blank(l: Layout) {
    IsSpaces(l.first) && IsSpaces(l.next) && IsSpaces(l.last)
  }

  function StringTree(s: string): Tree {
    TString(BytePieces(s))
  }

  function NumberTree(n: nat): Tree {
    TNumber(Numeral(false, Decimal(n), None, None))
  }

  function BoolTree(b: bool): Tree {
    if b then TTrue else TFalse
  }

  function MembersOf(names: seq<string>, trees: seq<Tree>, before: string, next: string, last: string): Members
    requires |names| == |trees|
  {
    if names == [] then NoMembers
    else Member(before, BytePieces(names[0]), "", " ", trees[0], if |names| == 1 then last else "",
                MembersOf(names[1..], trees[1..], next, next, last))
  }

  function ObjectTree(names: seq<string>, trees: seq<Tree>, l: Layout): Tree
    requires |names| == |trees|
  {
    TObject(l.last, MembersOf(names, trees, l.first, l.next, l.last))
  }

  function ElementsOf(trees: seq<Tree>, before: string, next: string, last: string): Elements {
    if trees == [] then NoElements
    else Element(before, trees[0], if |trees| == 1 then last else "", ElementsOf(trees[1..], next, next, last))
  }

  function ArrayTree(trees: seq<Tree>, l: Layout, empty: string): Tree {
    TArray(empty, ElementsOf(trees, l.first, l.next, l.last))
  }

  // ---- the value of a tree

  ghost predicate Denotes(t: Tree, v: Value, representable: string -> bool) {
    GoodTree(t, representable) && TreeValue(t, representable) == v
  }

  lemma StringDenotes(s: string, representable: string -> bool)
    ensures Denotes(StringTree(s), Str(s), representable)
  {
    EscapedSpec(s);
  }

  lemma NumberDenotes(n: nat, representable: string -> bool)
    requires representable(Decimal(n))
    ensures Denotes(NumberTree(n), Number(Decimal(n)), representable)
  {
    var d := Decimal(n);
    assert d[0] == '0' ==> |d| == 1;
    assert NumeralText(Numeral(false, d, None, None)) == d;
  }

  lemma BoolDenotes(b: bool, representable: string -> bool)
    ensures Denotes(BoolTree(b), Bool(b), representable)
  {
  }

  lemma NullDenotes(representable: string -> bool)
    ensures Denotes(TNull, Null, representable)
  {
  }

  function MapOf(names: seq<string>, values: seq<Value>): map<string, Value>
    requires |names| == |values|
  {
    if names == [] then map[] else map[names[0] := values[0]] + MapOf(names[1..], values[1..])
  }

  /** A list of distinct names with their values is read back by name. */
  lemma {:induction false} MapOfAt(names: seq<string>, values: seq<Value>)
    requires |names| == |values| && Distinct(names)
    ensures MapOf(names, values).Keys == set n | n in names
    ensures forall i :: 0 <= i < |names| ==> MapOf(names, values)[names[i]] == values[i]
  {
    if names != [] {
      var rest := names[1..];
      assert names == [names[0]] + rest;
      forall i, j | 0 <= i < j < |rest| ensures rest[i] != rest[j] { assert names[i + 1] != names[j + 1]; }
      MapOfAt(rest, values[1..]);
      forall i | 0 <= i < |names| ensures names[i] in MapOf(names, values) && MapOf(names, values)[names[i]] == values[i] {
        if i > 0 {
          assert rest[i - 1] == names[i];
        } else {
          assert names[0] !in rest;
        }
      }
    }
  }

  ghost predicate AllDenote(trees: seq<Tree>, values: seq<Value>, representable: string -> bool) {
    |trees| == |values| && forall i :: 0 <= i < |trees| ==> Denotes(trees[i], values[i], representable)
  }

  lemma {:induction false} MembersDenote(names: seq<string>, trees: seq<Tree>, values: seq<Value>,
                                         before: string, next: string, last: string, seen: set<string>, representable: string -> bool)
    requires |names| == |trees| && AllDenote(trees, values, representable) && Distinct(names)
    requires (forall n :: n in names ==> n !in seen) && IsSpaces(before) && IsSpaces(next) && IsSpaces(last)
    ensures var ms := MembersOf(names, trees, before, next, last);
            GoodMembers(ms, seen, representable) && MemberValues(ms, seen, representable) == MapOf(names, values)
  {
    hide GoodTree, TreeValue, BytePieces, GoodPieces, PiecesValue;
    if names != [] {
      EscapedSpec(names[0]);
      var rest := names[1..];
      assert names == [names[0]] + rest;
      forall i, j | 0 <= i < j < |rest| ensures rest[i] != rest[j] { assert names[i + 1] != names[j + 1]; }
      forall n | n in rest ensures n !in seen + {names[0]} {
        var i :| 0 <= i < |rest| && rest[i] == n;
        assert names[i + 1] != names[0];
      }
      MembersDenote(rest, trees[1..], values[1..], next, next, last, seen + {names[0]}, representable);
      assert Denotes(trees[0], values[0], representable);
    }
  }

  lemma ObjectDenotes(names: seq<string>, trees: seq<Tree>, values: seq<Value>, l: Layout, representable: string -> bool)
    requires |names| == |trees| && AllDenote(trees, values, representable) && Distinct(names) && Blank(l)
    ensures Denotes(ObjectTree(names, trees, l), Object(MapOf(names, values)), representable)
  {
    MembersDenote(names, trees, values, l.first, l.next, l.last, {}, representable);
  }

  lemma {:induction false} ElementsDenote(trees: seq<Tree>, values: seq<Value>, before: string, next: string, last: string, representable: string -> bool)
    requires AllDenote(trees, values, representable) && IsSpaces(before) && IsSpaces(next) && IsSpaces(last)
    ensures var es := ElementsOf(trees, before, next, last);
            GoodElements(es, representable) && ElementValues(es, representable) == values
  {
    hide GoodTree, TreeValue;
    if trees != [] {
      ElementsDenote(trees[1..], values[1..], next, next, last, representable);
      assert Denotes(trees[0], values[0], representable);
      assert values == [values[0]] + values[1..];
    }
  }

  lemma ArrayDenotes(trees: seq<Tree>, values: seq<Value>, l: Layout, empty: string, representable: string -> bool)
    requires AllDenote(trees, values, representable) && Blank(l) && IsSpaces(empty)
    ensures Denotes(ArrayTree(trees, l, empty), Array(values), representable)
  {
    ElementsDenote(trees, values, l.first, l.next, l.last, representable);
  }

  /** A printed tree, with blanks after it, is parsed to the value it denotes. */
  lemma PrintedParses(t: Tree, v: Value, after: string, representable: string -> bool)
    requires Denotes(t, v, representable) && IsSpaces(after)
    ensures ParseDocument(TreeText(t) + after, representable) == Ok(v)
  {
    hide GoodTree, TreeValue, TreeText, ParseDocument;
    assert TreeText(t) + after == [] + (TreeText(t) + after);
    DocumentRead(TreeText(t) + after, [], t, after, representable);
  }
}
