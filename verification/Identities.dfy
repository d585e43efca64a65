/** Stable symbol keys: a length-prefixed encoding of the parts of a symbol's identity. */
module Identities {
  import opened Wrappers
  import opened Symbols
  import opened Text

  datatype IdentityError = EmptyConfiguration | MissingAnchor

  function MakeIdentity(configuration: string, usr: string, linkageName: string,
                        translationUnit: string, fallbackAnchor: string): Result<Identity, IdentityError>
  {
    if configuration == [] then Err(EmptyConfiguration)
    else
      var quality := if linkageName != [] || usr != [] then Stable else Fallback;
      if quality == Fallback && fallbackAnchor == [] then Err(MissingAnchor)
      else Ok(Identity(configuration, usr, linkageName, translationUnit, fallbackAnchor, quality))
  }

  /** What names the symbol inside its configuration and translation unit. */
  datatype Anchor = LinkageAnchor(value: string) | UsrAnchor(value: string) | FallbackAnchor(value: string)

  function AnchorOf(i: Identity): Anchor {
    if i.linkageName != [] then LinkageAnchor(i.linkageName)
    else if i.usr != [] then UsrAnchor(i.usr)
    else FallbackAnchor(i.fallbackAnchor)
  }

  function AnchorLabel(a: Anchor): string {
    match a
    case LinkageAnchor(_) => "linkage"
    case UsrAnchor(_) => "usr"
    case FallbackAnchor(_) => "fallback"
  }

  function Component(name: string, value: string): string {
    "|" + name + "=" + (Decimal(|value|) + (":" + value))
  }

  function StableKey(i: Identity): string {
    var a := AnchorOf(i);
    "cxx-dead-symbol-v1" + (Component("configuration", i.configuration)
    + (Component("anchor", AnchorLabel(a))
    + (Component("value", a.value)
    + Component("translation_unit", i.translationUnit))))
  }

  /** Two keys that agree on a component's name agree on its value and on what follows. */
  lemma ComponentPrefix(name: string, v: string, w: string, x: string, y: string)
    requires Component(name, v) + x == Component(name, w) + y
    ensures v == w && x == y
  {
    var head := "|" + name + "=";
    assert Component(name, v) + x == head + (Decimal(|v|) + (":" + v + x));
    assert Component(name, w) + y == head + (Decimal(|w|) + (":" + w + y));
    PrefixSplit(head, Decimal(|v|) + (":" + v + x), head, Decimal(|w|) + (":" + w + y));
    NumeralPrefix(|v|, |w|, ":" + v + x, ":" + w + y);
    assert ":" + v + x == (":" + v) + x && ":" + w + y == (":" + w) + y;
    PrefixSplit(":" + v, x, ":" + w, y);
    assert v == (":" + v)[1..] && w == (":" + w)[1..];
  }

  lemma AnchorLabels(a: Anchor, b: Anchor)
    requires AnchorLabel(a) == AnchorLabel(b) && a.value == b.value
    ensures a == b
  {
    assert "linkage"[0] == 'l' && "usr"[0] == 'u' && "fallback"[0] == 'f';
  }

  /** The key determines the configuration, the kind and value of the anchor, and the
      translation unit. */
  lemma KeyInjective(i: Identity, j: Identity)
    requires StableKey(i) == StableKey(j)
    ensures i.configuration == j.configuration && i.translationUnit == j.translationUnit
    ensures AnchorOf(i) == AnchorOf(j)
  {
    var a, b := AnchorOf(i), AnchorOf(j);
    var ti, tj := Component("translation_unit", i.translationUnit), Component("translation_unit", j.translationUnit);
    var vi, vj := Component("value", a.value) + ti, Component("value", b.value) + tj;
    var ai, aj := Component("anchor", AnchorLabel(a)) + vi, Component("anchor", AnchorLabel(b)) + vj;
    PrefixSplit("cxx-dead-symbol-v1", Component("configuration", i.configuration) + ai,
                "cxx-dead-symbol-v1", Component("configuration", j.configuration) + aj);
    ComponentPrefix("configuration", i.configuration, j.configuration, ai, aj);
    ComponentPrefix("anchor", AnchorLabel(a), AnchorLabel(b), vi, vj);
    ComponentPrefix("value", a.value, b.value, ti, tj);
    assert ti == ti + [] && tj == tj + [];
    ComponentPrefix("translation_unit", i.translationUnit, j.translationUnit, [], []);
    AnchorLabels(a, b);
  }

  /** Converse: the key depends on nothing else. */
  lemma KeyDependsOnAnchor(i: Identity, j: Identity)
    requires i.configuration == j.configuration && i.translationUnit == j.translationUnit
    requires AnchorOf(i) == AnchorOf(j)
    ensures StableKey(i) == StableKey(j)
  {
  }

  /** So the key stands for exactly these four. */
  lemma KeyIff(i: Identity, j: Identity)
    ensures StableKey(i) == StableKey(j) <==>
      i.configuration == j.configuration && i.translationUnit == j.translationUnit && AnchorOf(i) == AnchorOf(j)
  {
    hide StableKey, AnchorOf;
    if StableKey(i) == StableKey(j) { KeyInjective(i, j); }
    if i.configuration == j.configuration && i.translationUnit == j.translationUnit && AnchorOf(i) == AnchorOf(j) {
      KeyDependsOnAnchor(i, j);
    }
  }

  /** The identity was made by MakeIdentity and the key was derived from it. */
  predicate WellIdentified(s: Symbol) {
    && MakeIdentity(s.identity.configuration, s.identity.usr, s.identity.linkageName,
                    s.identity.translationUnit, s.identity.fallbackAnchor) == Ok(s.identity)
    && s.key == StableKey(s.identity)
  }

  /** Both name the symbol by linkage name, or lacking that by USR, or lacking both by the fallback
      anchor, and by the same. */
  predicate SameName(i: Identity, j: Identity) {
    || (i.linkageName != [] && j.linkageName == i.linkageName)
    || (i.linkageName == j.linkageName == [] && i.usr != [] && j.usr == i.usr)
    || (i.linkageName == j.linkageName == [] && i.usr == j.usr == [] && i.fallbackAnchor == j.fallbackAnchor)
  }

  /** Two identities have one key exactly when configuration, translation unit and name agree. */
  lemma SameKeyIff(i: Identity, j: Identity)
    ensures StableKey(i) == StableKey(j) <==>
      i.configuration == j.configuration && i.translationUnit == j.translationUnit && SameName(i, j)
  {
    hide StableKey;
    KeyIff(i, j);
  }
}
