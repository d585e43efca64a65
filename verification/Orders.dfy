/** Orders on strings and tuples, and the two library algorithms the engine leans on:
    sorting a vector by a comparison and dropping repeated neighbours. */
module Orders {

  ghost predicate StrictWeak<T(!new)>(less: (T, T) -> bool) {
    && (forall a :: !less(a, a))
    && (forall a, b, c :: less(a, b) && less(b, c) ==> less(a, c))
    && (forall a, b, c :: !less(a, b) && !less(b, c) ==> !less(a, c))
  }

  ghost predicate Connected<T(!new)>(less: (T, T) -> bool) {
    forall a, b :: less(a, b) || a == b || less(b, a)
  }

  ghost predicate StrictTotal<T(!new)>(less: (T, T) -> bool) {
    StrictWeak(less) && Connected(less)
  }

  /** No later element comes before an earlier one. */
  ghost predicate SortedBy<T>(less: (T, T) -> bool, s: seq<T>) {
    forall i, j :: 0 <= i < j < |s| ==> !less(s[j], s[i])
  }

  ghost predicate StrictlySortedBy<T>(less: (T, T) -> bool, s: seq<T>) {
    forall i, j :: 0 <= i < j < |s| ==> less(s[i], s[j])
  }

  ghost predicate Distinct<T>(s: seq<T>) {
    forall i, j :: 0 <= i < j < |s| ==> s[i] != s[j]
  }

  // ---- byte-wise comparison of strings

  predicate StringLess(a: string, b: string) {
    |b| > 0 && (|a| == 0 || a[0] < b[0] || (a[0] == b[0] && StringLess(a[1..], b[1..])))
  }

  lemma {:induction false} StringTrans(a: string, b: string, c: string)
    ensures StringLess(a, b) && StringLess(b, c) ==> StringLess(a, c)
    ensures !StringLess(a, b) && !StringLess(b, c) ==> !StringLess(a, c)
  {
    if |a| > 0 && |b| > 0 && |c| > 0 {
      StringTrans(a[1..], b[1..], c[1..]);
    }
  }

  lemma {:induction false} StringTotal(a: string, b: string)
    ensures StringLess(a, b) || a == b || StringLess(b, a)
    ensures !StringLess(a, a)
  {
    if |a| > 0 {
      StringTotal(a[1..], if |b| > 0 then b[1..] else []);
      if |b| > 0 && a[1..] == b[1..] && a[0] == b[0] {
        assert a == [a[0]] + a[1..] == b;
      }
    }
  }

  lemma StringOrder()
    ensures StrictTotal(StringLess)
  {
    forall a, b { StringTotal(a, b); }
    forall a, b, c
      ensures StringLess(a, b) && StringLess(b, c) ==> StringLess(a, c)
      ensures !StringLess(a, b) && !StringLess(b, c) ==> !StringLess(a, c)
    { StringTrans(a, b, c); }
  }

  // ---- sorting

  function InsertSorted<T>(less: (T, T) -> bool, x: T, s: seq<T>): (r: seq<T>)
    ensures multiset(r) == multiset(s) + multiset{x}
  {
    if s == [] || less(x, s[0]) then [x] + s
    else
      assert s == [s[0]] + s[1..];
      [s[0]] + InsertSorted(less, x, s[1..])
  }

  /** The result of sorting a vector. For elements that compare equal the order is that of
      insertion; nothing below depends on it. */
  function Sort<T>(less: (T, T) -> bool, s: seq<T>): (r: seq<T>)
    ensures multiset(r) == multiset(s)
    ensures |r| == |s|
  {
    if s == [] then []
    else
      assert s == s[..|s| - 1] + [s[|s| - 1]];
      var r := InsertSorted(less, s[|s| - 1], Sort(less, s[..|s| - 1]));
      assert |multiset(r)| == |r| && |multiset(s)| == |s|;
      r
  }

  lemma {:induction false} InsertKeepsSorted<T(!new)>(less: (T, T) -> bool, x: T, s: seq<T>)
    requires StrictWeak(less) && SortedBy(less, s)
    ensures SortedBy(less, InsertSorted(less, x, s))
  {
    if s == [] {
    } else if less(x, s[0]) {
      var r := [x] + s;
      forall j | 0 < j < |r| ensures !less(r[j], r[0]) {
        assert r[j] == s[j - 1];
        assert j - 1 > 0 ==> !less(s[j - 1], s[0]);
      }
      forall i, j | 0 < i < j < |r| ensures !less(r[j], r[i]) {
        assert r[i] == s[i - 1] && r[j] == s[j - 1];
      }
    } else {
      InsertKeepsSorted(less, x, s[1..]);
      var t := InsertSorted(less, x, s[1..]);
      var r := [s[0]] + t;
      forall y | y in t ensures !less(y, s[0]) {
        assert y in multiset(t);
        assert y in multiset(s[1..]) || y == x;
        if y != x {
          assert y in s[1..];
          var k :| 0 <= k < |s[1..]| && s[1..][k] == y;
          assert s[k + 1] == y;
        }
      }
      forall i, j | 0 <= i < j < |r| ensures !less(r[j], r[i]) {
        assert r[j] == t[j - 1];
        if i > 0 { assert r[i] == t[i - 1]; }
      }
    }
  }

  lemma {:induction false} SortIsSorted<T(!new)>(less: (T, T) -> bool, s: seq<T>)
    requires StrictWeak(less)
    ensures SortedBy(less, Sort(less, s))
  {
    if s != [] {
      SortIsSorted(less, s[..|s| - 1]);
      InsertKeepsSorted(less, s[|s| - 1], Sort(less, s[..|s| - 1]));
    }
  }

  lemma {:induction false} InsertAtEnd<T(!new)>(less: (T, T) -> bool, x: T, s: seq<T>)
    requires forall i :: 0 <= i < |s| ==> !less(x, s[i])
    ensures InsertSorted(less, x, s) == s + [x]
  {
    if s != [] { InsertAtEnd(less, x, s[1..]); }
  }

  /** Sorting a sorted sequence changes nothing. */
  lemma {:induction false} SortOfSorted<T(!new)>(less: (T, T) -> bool, s: seq<T>)
    requires SortedBy(less, s)
    ensures Sort(less, s) == s
  {
    if s != [] {
      SortOfSorted(less, s[..|s| - 1]);
      InsertAtEnd(less, s[|s| - 1], s[..|s| - 1]);
    }
  }

  lemma SameMultisetSameMembers<T>(s: seq<T>, t: seq<T>)
    requires multiset(s) == multiset(t)
    ensures forall x :: x in s <==> x in t
  {
    forall x ensures x in s <==> x in t {
      assert x in s <==> x in multiset(s);
      assert x in t <==> x in multiset(t);
    }
  }

  lemma SortMembers<T>(less: (T, T) -> bool, s: seq<T>)
    ensures forall x :: x in Sort(less, s) <==> x in s
  {
    SameMultisetSameMembers(Sort(less, s), s);
  }

  lemma {:induction false} DistinctCount<T>(s: seq<T>)
    ensures Distinct(s) <==> forall x :: x in s ==> multiset(s)[x] == 1
  {
    if s != [] {
      var t := s[1..];
      assert s == [s[0]] + t;
      DistinctCount(t);
      if Distinct(s) {
        assert Distinct(t);
        forall x | x in s ensures multiset(s)[x] == 1 {
          if x == s[0] { assert x !in t; } else { assert x in t; }
        }
      }
      if forall x :: x in s ==> multiset(s)[x] == 1 {
        assert s[0] !in t by { assert multiset(s)[s[0]] == 1 + multiset(t)[s[0]]; }
        forall x | x in t ensures multiset(t)[x] == 1 { assert multiset(s)[x] == 1; }
        forall i, j | 0 <= i < j < |s| ensures s[i] != s[j] {
          assert s[j] == t[j - 1];
          if i > 0 { assert s[i] == t[i - 1]; }
        }
      }
    }
  }

  lemma DistinctPermuted<T>(s: seq<T>, t: seq<T>)
    requires multiset(s) == multiset(t) && Distinct(s)
    ensures Distinct(t)
  {
    DistinctCount(s);
    DistinctCount(t);
    SameMultisetSameMembers(s, t);
  }

  lemma SortDistinct<T>(less: (T, T) -> bool, s: seq<T>)
    requires Distinct(s)
    ensures Distinct(Sort(less, s))
  {
    DistinctPermuted(s, Sort(less, s));
  }

  /** Sorting distinct elements by a total order sorts them strictly. */
  lemma SortStrict<T(!new)>(less: (T, T) -> bool, s: seq<T>)
    requires StrictTotal(less) && Distinct(s)
    ensures StrictlySortedBy(less, Sort(less, s))
  {
    SortIsSorted(less, s);
    SortDistinct(less, s);
  }

  lemma StrictDistinct<T(!new)>(less: (T, T) -> bool, s: seq<T>)
    requires StrictWeak(less) && StrictlySortedBy(less, s)
    ensures Distinct(s)
  {
  }

  lemma NonemptyHasMember<T(!new)>(s: seq<T>)
    ensures s != [] ==> exists x :: x in s
  {
    if s != [] { assert s[0] in s; }
  }

  /** A strictly sorted sequence is determined by its set of elements. */
  lemma {:induction false} StrictUnique<T(!new)>(less: (T, T) -> bool, s: seq<T>, t: seq<T>)
    requires StrictWeak(less) && StrictlySortedBy(less, s) && StrictlySortedBy(less, t)
    requires forall x :: x in s <==> x in t
    ensures s == t
  {
    if s == [] {
      NonemptyHasMember(t);
    } else {
      assert s[0] in t;
      assert t != [];
      assert t[0] in s;
      assert forall y :: y in t ==> y == t[0] || less(t[0], y);
      assert forall y :: y in s ==> y == s[0] || less(s[0], y);
      assert s[0] == t[0];
      var s', t' := s[1..], t[1..];
      forall x ensures x in s' <==> x in t' {
        if x in s' {
          var i :| 0 <= i < |s'| && s'[i] == x;
          assert less(s[0], s[i + 1]) && x in s;
          var j :| 0 <= j < |t| && t[j] == x;
          assert t'[j - 1] == x;
        }
        if x in t' {
          var i :| 0 <= i < |t'| && t'[i] == x;
          assert less(t[0], t[i + 1]) && x in t;
          var j :| 0 <= j < |s| && s[j] == x;
          assert s'[j - 1] == x;
        }
      }
      StrictUnique(less, s', t');
      assert s == [s[0]] + s' && t == [t[0]] + t';
    }
  }

  // ---- dropping repeated neighbours

  function Dedup<T(==)>(s: seq<T>): seq<T> {
    if |s| <= 1 then s
    else if s[0] == s[1] then Dedup(s[1..])
    else [s[0]] + Dedup(s[1..])
  }

  /** Different elements of s are ordered one way or the other. */
  ghost predicate NoTies<T>(less: (T, T) -> bool, s: seq<T>) {
    forall i, j :: 0 <= i < j < |s| && s[i] != s[j] ==> less(s[i], s[j]) || less(s[j], s[i])
  }

  lemma {:induction false} DedupSorted<T(!new)>(less: (T, T) -> bool, s: seq<T>)
    requires StrictWeak(less) && SortedBy(less, s) && NoTies(less, s)
    ensures StrictlySortedBy(less, Dedup(s))
    ensures forall x :: x in Dedup(s) <==> x in s
    ensures s != [] ==> Dedup(s) != [] && Dedup(s)[0] == s[0]
  {
    if |s| > 1 {
      var t := s[1..];
      assert SortedBy(less, t) by {
        forall i, j | 0 <= i < j < |t| ensures !less(t[j], t[i]) {
          assert t[i] == s[i + 1] && t[j] == s[j + 1];
        }
      }
      assert NoTies(less, t) by {
        forall i, j | 0 <= i < j < |t| && t[i] != t[j] ensures less(t[i], t[j]) || less(t[j], t[i]) {
          assert t[i] == s[i + 1] && t[j] == s[j + 1];
        }
      }
      DedupSorted(less, t);
      assert s == [s[0]] + t;
      var d := Dedup(t);
      if s[0] != s[1] {
        assert less(s[0], s[1]);
        var r := [s[0]] + d;
        forall i, j | 0 <= i < j < |r| ensures less(r[i], r[j]) {
          assert r[j] == d[j - 1];
          if i > 0 {
            assert r[i] == d[i - 1];
          } else if j > 1 {
            assert less(d[0], d[j - 1]);
          }
        }
      } else {
        assert s[0] == t[0];
      }
    }
  }

  /** Sort, then drop repeats. */
  function SortUnique<T(==)>(less: (T, T) -> bool, s: seq<T>): seq<T> {
    Dedup(Sort(less, s))
  }

  lemma SortUniqueSpec<T(!new)>(less: (T, T) -> bool, s: seq<T>)
    requires StrictTotal(less)
    ensures StrictlySortedBy(less, SortUnique(less, s))
    ensures forall x :: x in SortUnique(less, s) <==> x in s
  {
    SortIsSorted(less, s);
    DedupSorted(less, Sort(less, s));
    SortMembers(less, s);
  }

  /** The same when only the elements of s are known to be ordered. */
  lemma SortUniqueUntied<T(!new)>(less: (T, T) -> bool, s: seq<T>)
    requires StrictWeak(less) && forall x, y :: x in s && y in s && x != y ==> less(x, y) || less(y, x)
    ensures StrictlySortedBy(less, SortUnique(less, s))
    ensures forall x :: x in SortUnique(less, s) <==> x in s
  {
    var sorted := Sort(less, s);
    SortIsSorted(less, s);
    SortMembers(less, s);
    forall i, j | 0 <= i < j < |sorted| && sorted[i] != sorted[j] ensures less(sorted[i], sorted[j]) || less(sorted[j], sorted[i]) {
      assert sorted[i] in s && sorted[j] in s;
    }
    DedupSorted(less, sorted);
  }

  /** Only the set of elements matters. */
  lemma SortUniqueBySet<T(!new)>(less: (T, T) -> bool, s: seq<T>, t: seq<T>)
    requires StrictTotal(less) && forall x :: x in s <==> x in t
    ensures SortUnique(less, s) == SortUnique(less, t)
  {
    SortUniqueSpec(less, s);
    SortUniqueSpec(less, t);
    StrictUnique(less, SortUnique(less, s), SortUnique(less, t));
  }
}
