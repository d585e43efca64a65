/** The order in which dead components and their members are listed. */
module Arrangement {
  import opened Orders
  import opened Symbols

  // ---- members, by qualified name and signature

  function NameOf(symbols: seq<Symbol>, id: nat): (string, string) {
    if id < |symbols| then (symbols[id].qualifiedName, symbols[id].signature) else ("", "")
  }

  predicate NameLess(a: (string, string), b: (string, string)) {
    if a.0 != b.0 then StringLess(a.0, b.0) else StringLess(a.1, b.1)
  }

  function MemberOrder(symbols: seq<Symbol>): (nat, nat) -> bool {
    (a: nat, b: nat) => NameLess(NameOf(symbols, a), NameOf(symbols, b))
  }

  // ---- components, by the place and key of their first members

  datatype Front = Front(file: string, line: nat, column: nat, key: string)

  function FrontOf(symbols: seq<Symbol>, component: seq<nat>): Front {
    if component != [] && component[0] < |symbols| then
      var s := symbols[component[0]];
      var p := PrimaryExtent(s).location;
      Front(p.file, p.line, p.column, s.key)
    else Front("", 0, 0, "")
  }

  predicate FrontLess(a: Front, b: Front) {
    StringLess(a.file, b.file) || (a.file == b.file && (a.line < b.line || (a.line == b.line &&
      (a.column < b.column || (a.column == b.column && StringLess(a.key, b.key))))))
  }

  function ComponentOrder(symbols: seq<Symbol>): (seq<nat>, seq<nat>) -> bool {
    (a: seq<nat>, b: seq<nat>) => FrontLess(FrontOf(symbols, a), FrontOf(symbols, b))
  }

  /** Each component lists its members in order, and the components are in order themselves. */
  ghost predicate Arranged(symbols: seq<Symbol>, sccs: seq<seq<nat>>) {
    && (forall k :: 0 <= k < |sccs| ==> SortedBy(MemberOrder(symbols), sccs[k]))
    && SortedBy(ComponentOrder(symbols), sccs)
  }

  lemma NameTrans(a: (string, string), b: (string, string), c: (string, string))
    ensures NameLess(a, b) && NameLess(b, c) ==> NameLess(a, c)
    ensures !NameLess(a, b) && !NameLess(b, c) ==> !NameLess(a, c)
    ensures !NameLess(a, a)
  {
    StringTrans(a.0, b.0, c.0);
    StringTrans(a.1, b.1, c.1);
    StringTotal(a.0, b.0);
    StringTotal(b.0, c.0);
    StringTotal(a.0, c.0);
    StringTotal(a.1, a.1);
    StringTotal(a.0, a.0);
  }

  lemma FrontTrans(a: Front, b: Front, c: Front)
    ensures FrontLess(a, b) && FrontLess(b, c) ==> FrontLess(a, c)
    ensures !FrontLess(a, b) && !FrontLess(b, c) ==> !FrontLess(a, c)
    ensures !FrontLess(a, a)
  {
    StringTrans(a.file, b.file, c.file);
    StringTrans(a.key, b.key, c.key);
    StringTotal(a.file, b.file);
    StringTotal(b.file, c.file);
    StringTotal(a.file, c.file);
    StringTotal(a.key, a.key);
    StringTotal(a.file, a.file);
  }

  lemma MemberOrderWeak(symbols: seq<Symbol>)
    ensures StrictWeak(MemberOrder(symbols))
  {
    hide NameLess, NameOf;
    forall a: nat, b: nat, c: nat
      ensures var less := MemberOrder(symbols);
              (less(a, b) && less(b, c) ==> less(a, c)) && (!less(a, b) && !less(b, c) ==> !less(a, c)) && !less(a, a)
    {
      NameTrans(NameOf(symbols, a), NameOf(symbols, b), NameOf(symbols, c));
    }
  }

  lemma ComponentOrderWeak(symbols: seq<Symbol>)
    ensures StrictWeak(ComponentOrder(symbols))
  {
    hide FrontLess, FrontOf;
    forall a: seq<nat>, b: seq<nat>, c: seq<nat>
      ensures var less := ComponentOrder(symbols);
              (less(a, b) && less(b, c) ==> less(a, c)) && (!less(a, b) && !less(b, c) ==> !less(a, c)) && !less(a, a)
    {
      FrontTrans(FrontOf(symbols, a), FrontOf(symbols, b), FrontOf(symbols, c));
    }
  }

  lemma ArrangedBySorting(symbols: seq<Symbol>, found: seq<seq<nat>>)
    requires forall k :: 0 <= k < |found| ==> SortedBy(MemberOrder(symbols), found[k])
    ensures Arranged(symbols, Sort(ComponentOrder(symbols), found))
  {
    hide SortedBy, Sort, FrontLess, FrontOf, NameLess, NameOf, StrictWeak;
    var sccs := Sort(ComponentOrder(symbols), found);
    ComponentOrderWeak(symbols);
    SortIsSorted(ComponentOrder(symbols), found);
    SortMembers(ComponentOrder(symbols), found);
    forall k | 0 <= k < |sccs| ensures SortedBy(MemberOrder(symbols), sccs[k]) {
      assert sccs[k] in found;
    }
  }
}
