/** The order in which lists of facts are printed: by the keys of symbols, then by kind, then by
    evidence. */
module SortKeys {
  import opened Orders
  import opened Symbols
  import opened Canonical

  /** What is compared: keys, the rank of the kind, and the evidence. */
  datatype SortKey = SortKey(first: string, second: string, rank: nat, evidence: Evidence)

  predicate SortKeyLess(a: SortKey, b: SortKey) {
    StringLess(a.first, b.first) || (a.first == b.first &&
    (StringLess(a.second, b.second) || (a.second == b.second &&
    (a.rank < b.rank || (a.rank == b.rank && EvidenceLess(a.evidence, b.evidence))))))
  }

  lemma SortKeyTrans(a: SortKey, b: SortKey, c: SortKey)
    ensures SortKeyLess(a, b) && SortKeyLess(b, c) ==> SortKeyLess(a, c)
    ensures !SortKeyLess(a, b) && !SortKeyLess(b, c) ==> !SortKeyLess(a, c)
    ensures SortKeyLess(a, b) || a == b || SortKeyLess(b, a)
    ensures !SortKeyLess(a, a)
  {
    hide StringLess, EvidenceLess;
    Strings(a.first, b.first, c.first);
    Strings(a.second, b.second, c.second);
    EvidenceTrans(a.evidence, b.evidence, c.evidence);
    EvidenceTrans(b.evidence, a.evidence, c.evidence);
    EvidenceTrans(a.evidence, c.evidence, b.evidence);
  }

  /** Three strings are ordered in one way. */
  lemma Strings(a: string, b: string, c: string)
    ensures StringLess(a, b) && StringLess(b, c) ==> StringLess(a, c)
    ensures !StringLess(a, b) && !StringLess(b, c) ==> !StringLess(a, c)
    ensures (StringLess(a, b) || a == b || StringLess(b, a)) && (StringLess(b, c) || b == c || StringLess(c, b))
    ensures (StringLess(a, c) || a == c || StringLess(c, a))
    ensures !StringLess(a, a) && !StringLess(b, b) && !StringLess(c, c)
    ensures !(StringLess(a, b) && StringLess(b, a)) && !(StringLess(b, c) && StringLess(c, b)) && !(StringLess(a, c) && StringLess(c, a))
  {
    StringTrans(a, b, c);
    StringTotal(a, b);
    StringTotal(b, c);
    StringTotal(a, c);
    StringTotal(c, c);
    StringTrans(a, b, a);
    StringTrans(b, c, b);
    StringTrans(a, c, a);
  }
}
