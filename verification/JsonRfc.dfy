/** The grammar of sections 2 to 7 of RFC 8259 itself, in which any four hexadecimal digits may follow
    \u, and exactly which of its texts the reader accepts. Bytes above 0x7f stand for themselves,
    whether or not they are UTF-8. */
module JsonRfc {
  import opened Wrappers
  import opened Text
  import opened Json
  import JsonText
  import opened JsonGrammar
  import opened JsonSound
  import JsonParser

  // ---- the grammar

  predicate RfcPiece(p: Piece) {
    match p
    case Plain(c) => c != '"' && c != '\\' && c >= ' '
    case Short(c) => ShortEscape(c).Some?
    case Unicode(hex) => IsQuad(hex)
    case Pair(_, _) => false
  }

  predicate RfcPieces(ps: seq<Piece>) {
    forall i :: 0 <= i < |ps| ==> RfcPiece(ps[i])
  }

  predicate RfcTree(t: Tree) {
    match t
    case TNull => true
    case TTrue => true
    case TFalse => true
    case TNumber(n) => GoodNumeral(n)
    case TString(ps) => RfcPieces(ps)
    case TArray(space, elements) => IsSpaces(space) && RfcElements(elements)
    case TObject(space, members) => IsSpaces(space) && RfcMembers(members)
  }

  predicate RfcElements(es: Elements) {
    match es
    case NoElements => true
    case Element(before, value, after, rest) => IsSpaces(before) && RfcTree(value) && IsSpaces(after) && RfcElements(rest)
  }

  predicate RfcMembers(ms: Members) {
    match ms
    case NoMembers => true
    case Member(before, key, beforeColon, afterColon, value, after, rest) =>
      && IsSpaces(before) && RfcPieces(key) && IsSpaces(beforeColon) && IsSpaces(afterColon) && IsSpaces(after)
      && RfcTree(value) && RfcMembers(rest)
  }

  // ---- what the reader asks beyond the grammar

  predicate IsHigh(p: Piece) {
    p.Unicode? && IsQuad(p.hex) && 0xd800 <= QuadValue(p.hex) <= 0xdbff
  }

  predicate IsLow(p: Piece) {
    p.Unicode? && IsQuad(p.hex) && 0xdc00 <= QuadValue(p.hex) <= 0xdfff
  }

  /** Every high surrogate is followed at once by a low one. */
  predicate Paired(ps: seq<Piece>) {
    forall i :: 0 <= i < |ps| && IsHigh(ps[i]) ==> i + 1 < |ps| && IsLow(ps[i + 1])
  }

  predicate TreePaired(t: Tree) {
    match t
    case TString(ps) => Paired(ps)
    case TArray(_, elements) => ElementsPaired(elements)
    case TObject(_, members) => MembersPaired(members)
    case _ => true
  }

  predicate ElementsPaired(es: Elements) {
    match es
    case NoElements => true
    case Element(_, value, _, rest) => TreePaired(value) && ElementsPaired(rest)
  }

  predicate MembersPaired(ms: Members) {
    match ms
    case NoMembers => true
    case Member(_, key, _, _, value, _, rest) => Paired(key) && TreePaired(value) && MembersPaired(rest)
  }

  predicate NumbersFit(t: Tree, representable: string -> bool) {
    match t
    case TNumber(n) => representable(NumeralText(n))
    case TArray(_, elements) => ElementsFit(elements, representable)
    case TObject(_, members) => MembersFit(members, representable)
    case _ => true
  }

  predicate ElementsFit(es: Elements, representable: string -> bool) {
    match es
    case NoElements => true
    case Element(_, value, _, rest) => NumbersFit(value, representable) && ElementsFit(rest, representable)
  }

  predicate MembersFit(ms: Members, representable: string -> bool) {
    match ms
    case NoMembers => true
    case Member(_, _, _, _, value, _, rest) => NumbersFit(value, representable) && MembersFit(rest, representable)
  }

  /** Neighbouring surrogates are taken together. */
  function Join(ps: seq<Piece>): seq<Piece> {
    if ps == [] then []
    else if IsHigh(ps[0]) && |ps| > 1 && IsLow(ps[1]) then [Pair(ps[0].hex, ps[1].hex)] + Join(ps[2..])
    else [ps[0]] + Join(ps[1..])
  }

  /** The bytes that a piece stands for; a lone surrogate is encoded like any other value. */
  function Bytes(p: Piece): string {
    match p
    case Plain(c) => [c]
    case Short(c) => if ShortEscape(c).Some? then [ShortEscape(c).value] else []
    case Unicode(hex) => if IsQuad(hex) then Utf8(QuadValue(hex)) else []
    case Pair(_, _) => if GoodPiece(p) then PieceValue(p) else []
  }

  function AllBytes(ps: seq<Piece>): string {
    if ps == [] then [] else Bytes(ps[0]) + AllBytes(ps[1..])
  }

  function Name(key: seq<Piece>): string {
    AllBytes(Join(key))
  }

  predicate NamesDiffer(t: Tree) {
    match t
    case TArray(_, elements) => ElementsDiffer(elements)
    case TObject(_, members) => MembersDiffer(members, {})
    case _ => true
  }

  predicate ElementsDiffer(es: Elements) {
    match es
    case NoElements => true
    case Element(_, value, _, rest) => NamesDiffer(value) && ElementsDiffer(rest)
  }

  predicate MembersDiffer(ms: Members, seen: set<string>) {
    match ms
    case NoMembers => true
    case Member(_, key, _, _, value, _, rest) =>
      NamesDiffer(value) && Name(key) !in seen && MembersDiffer(rest, seen + {Name(key)})
  }

  predicate Acceptable(t: Tree, representable: string -> bool) {
    TreePaired(t) && NamesDiffer(t) && NumbersFit(t, representable)
  }

  // ---- the same text with surrogates taken together

  function JoinTree(t: Tree): Tree {
    match t
    case TString(ps) => TString(Join(ps))
    case TArray(space, elements) => TArray(space, JoinElements(elements))
    case TObject(space, members) => TObject(space, JoinMembers(members))
    case _ => t
  }

  function JoinElements(es: Elements): Elements {
    match es
    case NoElements => NoElements
    case Element(before, value, after, rest) => Element(before, JoinTree(value), after, JoinElements(rest))
  }

  function JoinMembers(ms: Members): Members {
    match ms
    case NoMembers => NoMembers
    case Member(before, key, beforeColon, afterColon, value, after, rest) =>
      Member(before, Join(key), beforeColon, afterColon, JoinTree(value), after, JoinMembers(rest))
  }

  lemma {:induction false} JoinText(ps: seq<Piece>)
    ensures PiecesText(Join(ps)) == PiecesText(ps)
  {
    hide IsHigh, IsLow;
    if ps == [] {
    } else if IsHigh(ps[0]) && |ps| > 1 && IsLow(ps[1]) {
      JoinText(ps[2..]);
      assert ps[1..][1..] == ps[2..];
      assert Join(ps)[1..] == Join(ps[2..]);
      HighLowText(ps[0], ps[1]);
      Reassociate(PieceText(ps[0]), PieceText(ps[1]), PiecesText(ps[2..]));
    } else {
      JoinText(ps[1..]);
      assert Join(ps)[1..] == Join(ps[1..]);
    }
  }

  lemma HighLowText(p: Piece, q: Piece)
    requires IsHigh(p) && IsLow(q)
    ensures p.Unicode? && q.Unicode? && PieceText(Pair(p.hex, q.hex)) == PieceText(p) + PieceText(q)
    ensures GoodPiece(Pair(p.hex, q.hex)) && !IsHigh(q)
  {
    hide IsQuad, QuadValue;
  }

  lemma {:induction false} JoinTreeText(t: Tree)
    ensures TreeText(JoinTree(t)) == TreeText(t)
    decreases t, 0
  {
    match t
    case TString(ps) => JoinText(ps);
    case TArray(space, elements) => JoinElementsText(elements);
    case TObject(space, members) => JoinMembersText(members);
    case _ =>
  }

  lemma {:induction false} JoinElementsText(es: Elements)
    ensures ElementsText(JoinElements(es)) == ElementsText(es) && (JoinElements(es).NoElements? <==> es.NoElements?)
    decreases es, 1
  {
    hide TreeText, JoinTree;
    if es.Element? {
      JoinTreeText(es.value);
      JoinElementsText(es.rest);
    }
  }

  lemma {:induction false} JoinMembersText(ms: Members)
    ensures MembersText(JoinMembers(ms)) == MembersText(ms) && (JoinMembers(ms).NoMembers? <==> ms.NoMembers?)
    decreases ms, 1
  {
    hide TreeText, JoinTree, Join;
    if ms.Member? {
      JoinText(ms.key);
      JoinTreeText(ms.value);
      JoinMembersText(ms.rest);
    }
  }

  // ---- acceptable is well formed once surrogates are taken together

  lemma RfcTail(ps: seq<Piece>, k: nat)
    requires k <= |ps| && RfcPieces(ps)
    ensures RfcPieces(ps[k..])
  {
    hide RfcPiece;
  }

  lemma GoodCons(p: Piece, ps: seq<Piece>)
    ensures GoodPieces([p] + ps) <==> GoodPiece(p) && GoodPieces(ps)
  {
    hide GoodPiece;
    var all := [p] + ps;
    assert all[0] == p && forall i :: 0 <= i < |ps| ==> all[i + 1] == ps[i];
  }

  lemma {:induction false} JoinGood(ps: seq<Piece>)
    requires RfcPieces(ps)
    ensures GoodPieces(Join(ps)) <==> Paired(ps)
    ensures GoodPieces(Join(ps)) ==> PiecesValue(Join(ps)) == Name(ps)
  {
    hide IsHigh, IsLow, RfcPieces, GoodPiece, GoodPieces, PiecesValue, Bytes, PieceValue;
    if ps == [] {
      NothingGood();
    } else if IsHigh(ps[0]) && |ps| > 1 && IsLow(ps[1]) {
      RfcTail(ps, 2);
      JoinGood(ps[2..]);
      HighLowText(ps[0], ps[1]);
      GoodCons(Pair(ps[0].hex, ps[1].hex), Join(ps[2..]));
      PairedCons2(ps);
      JoinedBytes(Pair(ps[0].hex, ps[1].hex), Join(ps[2..]));
    } else {
      RfcTail(ps, 1);
      JoinGood(ps[1..]);
      FirstGood(ps);
      GoodCons(ps[0], Join(ps[1..]));
      PairedCons(ps);
      JoinedBytes(ps[0], Join(ps[1..]));
    }
  }

  lemma NothingGood()
    ensures forall ps: seq<Piece> :: ps == [] ==> GoodPieces(ps) && PiecesValue(ps) == []
  {
  }

  lemma FirstGood(ps: seq<Piece>)
    requires ps != [] && RfcPieces(ps)
    ensures GoodPiece(ps[0]) <==> !IsHigh(ps[0])
  {
    assert RfcPiece(ps[0]);
  }

  lemma PairedCons(ps: seq<Piece>)
    requires ps != []
    ensures Paired(ps) <==> (IsHigh(ps[0]) ==> |ps| > 1 && IsLow(ps[1])) && Paired(ps[1..])
  {
    hide IsHigh, IsLow;
    assert forall i :: 0 <= i < |ps| - 1 ==> ps[1..][i] == ps[i + 1];
    if Paired(ps[1..]) && (IsHigh(ps[0]) ==> |ps| > 1 && IsLow(ps[1])) {
      forall i | 0 <= i < |ps| && IsHigh(ps[i]) ensures i + 1 < |ps| && IsLow(ps[i + 1]) {
        if i > 0 { assert ps[1..][i - 1] == ps[i]; }
      }
    }
    if Paired(ps) {
      forall i | 0 <= i < |ps[1..]| && IsHigh(ps[1..][i]) ensures i + 1 < |ps[1..]| && IsLow(ps[1..][i + 1]) {
        assert ps[1..][i] == ps[i + 1];
      }
    }
  }

  lemma PairedCons2(ps: seq<Piece>)
    requires |ps| > 1 && IsHigh(ps[0]) && IsLow(ps[1])
    ensures Paired(ps) <==> Paired(ps[2..])
  {
    hide Paired, IsHigh, IsLow;
    HighLowText(ps[0], ps[1]);
    PairedCons(ps);
    PairedCons(ps[1..]);
    assert ps[1..][1..] == ps[2..] && ps[1..][0] == ps[1];
  }

  lemma JoinedBytes(p: Piece, ps: seq<Piece>)
    ensures AllBytes([p] + ps) == Bytes(p) + AllBytes(ps)
    ensures GoodPieces([p] + ps) ==> GoodPieces(ps) && GoodPiece(p) && Bytes(p) == PieceValue(p)
    ensures GoodPieces([p] + ps) ==> PiecesValue([p] + ps) == PieceValue(p) + PiecesValue(ps)
  {
    hide Utf8, IsQuad, QuadValue;
    GoodCons(p, ps);
    assert ([p] + ps)[1..] == ps;
  }

  lemma {:induction false} AcceptableIsGood(t: Tree, representable: string -> bool)
    requires RfcTree(t)
    ensures GoodTree(JoinTree(t), representable) <==> Acceptable(t, representable)
    decreases t, 0
  {
    hide GoodPieces, IsSpaces, Join, Paired;
    match t
    case TString(ps) => JoinGood(ps);
    case TArray(_, elements) => ElementsAreGood(elements, representable);
    case TObject(_, members) => MembersAreGood(members, {}, representable);
    case _ =>
  }

  lemma {:induction false} ElementsAreGood(es: Elements, representable: string -> bool)
    requires RfcElements(es)
    ensures GoodElements(JoinElements(es), representable) <==>
      ElementsPaired(es) && ElementsDiffer(es) && ElementsFit(es, representable)
    decreases es, 1
  {
    hide GoodTree, JoinTree, IsSpaces, TreePaired, NamesDiffer, NumbersFit;
    if es.Element? {
      AcceptableIsGood(es.value, representable);
      ElementsAreGood(es.rest, representable);
    }
  }

  lemma {:induction false} MembersAreGood(ms: Members, seen: set<string>, representable: string -> bool)
    requires RfcMembers(ms)
    ensures GoodMembers(JoinMembers(ms), seen, representable) <==>
      MembersPaired(ms) && MembersDiffer(ms, seen) && MembersFit(ms, representable)
    decreases ms, 1
  {
    hide GoodTree, JoinTree, IsSpaces, TreePaired, NamesDiffer, NumbersFit, GoodPieces, PiecesValue, Paired, Join, Name;
    if ms.Member? {
      JoinGood(ms.key);
      AcceptableIsGood(ms.value, representable);
      MembersAreGood(ms.rest, seen + {Name(ms.key)}, representable);
    }
  }

  // ---- what is not acceptable is refused

  /** A high surrogate is refused unless a low one follows. */
  lemma HighRefused(hex: string, t: string, acc: string)
    requires IsQuad(hex) && CodePoint(QuadValue(hex), t).Err?
    ensures Chars("\\u" + hex + t, acc).Err?
  {
    hide HexDigits, IsQuad, HexQuad, QuadValue, CodePoint, Utf8;
    var text := "\\u" + hex + t;
    assert text[0] == '\\' && text[1..] == "u" + hex + t;
    QuadPrefix(hex, t);
    assert text[1..][0] == 'u' && text[1..][1..] == hex + t;
  }

  lemma NoEscapeFollows(first: nat, t: string)
    requires 0xd800 <= first <= 0xdbff && (|t| < 2 || t[0] != '\\' || t[1] != 'u')
    ensures CodePoint(first, t).Err?
  {
    hide HexQuad;
  }

  lemma OtherEscapeFollows(first: nat, hex: string, more: string)
    requires 0xd800 <= first <= 0xdbff && IsQuad(hex) && !(0xdc00 <= QuadValue(hex) <= 0xdfff)
    ensures CodePoint(first, "\\u" + hex + more).Err?
  {
    hide HexDigits, IsQuad, HexQuad, QuadValue;
    var t := "\\u" + hex + more;
    assert t[0] == '\\' && t[1] == 'u' && t[2..] == hex + more;
    QuadPrefix(hex, more);
  }

  lemma NoLowFollows(first: nat, rest: seq<Piece>, s: string)
    requires 0xd800 <= first <= 0xdbff && RfcPieces(rest) && (rest == [] || !IsLow(rest[0]))
    ensures CodePoint(first, PiecesText(rest) + ("\"" + s)).Err?
  {
    hide HexDigits, IsQuad, HexQuad, QuadValue, CodePoint, ShortEscape;
    var t := PiecesText(rest) + ("\"" + s);
    if rest == [] {
      assert t == "\"" + s;
      NoEscapeFollows(first, t);
    } else {
      var more := PiecesText(rest[1..]) + ("\"" + s);
      assert t == PieceText(rest[0]) + more;
      FollowerStarts(rest[0], more);
      if rest[0].Unicode? {
        OtherEscapeFollows(first, rest[0].hex, more);
      } else {
        NoEscapeFollows(first, t);
      }
    }
  }

  lemma FollowerStarts(p: Piece, more: string)
    requires RfcPiece(p)
    ensures var t := PieceText(p) + more;
            if p.Unicode? then IsQuad(p.hex) && t == "\\u" + p.hex + more else |t| < 2 || t[0] != '\\' || t[1] != 'u'
  {
    hide IsQuad;
    if p.Short? { assert (['\\', p.c] + more)[1] == p.c; }
    if p.Plain? { assert ([p.c] + more)[0] == p.c; }
  }

  lemma TwoRead(ps: seq<Piece>, close: string, acc: string)
    requires |ps| > 1 && IsHigh(ps[0]) && IsLow(ps[1])
    ensures var p := Pair(ps[0].hex, ps[1].hex);
            GoodPiece(p) && Chars(PiecesText(ps) + close, acc) == Chars(PiecesText(ps[2..]) + close, acc + PieceValue(p))
  {
    hide Chars, GoodPiece, PieceText, PieceValue, IsHigh, IsLow;
    HighLowText(ps[0], ps[1]);
    var p := Pair(ps[0].hex, ps[1].hex);
    PieceRead(p, PiecesText(ps[2..]) + close, acc);
    assert ps[1..][1..] == ps[2..] && ps[1..][0] == ps[1];
    assert PiecesText(ps) + close == PieceText(p) + (PiecesText(ps[2..]) + close);
  }

  lemma OneRead(ps: seq<Piece>, close: string, acc: string)
    requires ps != [] && GoodPiece(ps[0])
    ensures Chars(PiecesText(ps) + close, acc) == Chars(PiecesText(ps[1..]) + close, acc + PieceValue(ps[0]))
  {
    hide Chars, GoodPiece, PieceText, PieceValue;
    PieceRead(ps[0], PiecesText(ps[1..]) + close, acc);
    assert PiecesText(ps) + close == PieceText(ps[0]) + (PiecesText(ps[1..]) + close);
  }

  lemma LoneRefused(ps: seq<Piece>, s: string, acc: string)
    requires ps != [] && RfcPieces(ps) && IsHigh(ps[0]) && (|ps| == 1 || !IsLow(ps[1]))
    ensures Chars(PiecesText(ps) + ("\"" + s), acc).Err?
  {
    hide Chars, IsHigh, IsLow, RfcPieces, CodePoint, PieceText;
    var close := "\"" + s;
    RfcTail(ps, 1);
    HighPiece(ps[0]);
    NoLowFollows(QuadValue(ps[0].hex), ps[1..], s);
    HighRefused(ps[0].hex, PiecesText(ps[1..]) + close, acc);
    assert PiecesText(ps) + close == "\\u" + ps[0].hex + (PiecesText(ps[1..]) + close);
  }

  lemma {:induction false} PiecesRefused(ps: seq<Piece>, s: string, acc: string)
    requires RfcPieces(ps) && !Paired(ps)
    ensures Chars(PiecesText(ps) + ("\"" + s), acc).Err?
  {
    hide Chars, IsHigh, IsLow, RfcPieces, GoodPiece, PieceText, PieceValue, Paired, PiecesText;
    if ps == [] {
      assert false by { NothingUnpaired(); }
    } else if IsHigh(ps[0]) && |ps| > 1 && IsLow(ps[1]) {
      HighLowText(ps[0], ps[1]);
      PairedCons2(ps);
      RfcTail(ps, 2);
      TwoRead(ps, "\"" + s, acc);
      PiecesRefused(ps[2..], s, acc + PieceValue(Pair(ps[0].hex, ps[1].hex)));
    } else if IsHigh(ps[0]) {
      LoneRefused(ps, s, acc);
    } else {
      FirstGood(ps);
      PairedCons(ps);
      RfcTail(ps, 1);
      OneRead(ps, "\"" + s, acc);
      PiecesRefused(ps[1..], s, acc + PieceValue(ps[0]));
    }
  }

  lemma NothingUnpaired()
    ensures forall ps: seq<Piece> :: ps == [] ==> Paired(ps)
  {
  }

  lemma HighPiece(p: Piece)
    requires IsHigh(p)
    ensures p.Unicode? && IsQuad(p.hex) && 0xd800 <= QuadValue(p.hex) <= 0xdbff && PieceText(p) == "\\u" + p.hex
  {
  }

  lemma StringRefused(ps: seq<Piece>, s: string)
    requires RfcPieces(ps) && !Paired(ps)
    ensures ParseString(QuotedText(ps) + s).Err?
  {
    hide Chars, RfcPieces, PiecesText, Paired;
    PiecesRefused(ps, s, []);
    assert (QuotedText(ps) + s)[1..] == PiecesText(ps) + ("\"" + s);
  }

  lemma RfcStart(t: Tree)
    requires RfcTree(t)
    ensures var text := TreeText(t);
            && text != [] && !IsSpace(text[0])
            && (text[0] == '"' <==> t.TString?) && (text[0] == '[' <==> t.TArray?) && (text[0] == '{' <==> t.TObject?)
            && (t.TNumber? ==> text[0] == '-' || IsDigit(text[0]))
            && text[0] != ']' && text[0] != '}'
  {
    hide RfcElements, RfcMembers, ElementsText, MembersText, PiecesText, RfcPieces;
  }

  lemma RfcSpaceThen(w: string, t: Tree, s: string)
    requires IsSpaces(w) && RfcTree(t)
    ensures SkipSpace(w + (TreeText(t) + s)) == TreeText(t) + s
    ensures SkipSpace(TreeText(t) + s) == TreeText(t) + s
    ensures TreeText(t) != [] && (TreeText(t) + s)[0] == TreeText(t)[0]
  {
    hide TreeText;
    RfcStart(t);
    SkipSpaces(w, TreeText(t) + s);
    SkipSpaces([], TreeText(t) + s);
    assert [] + (TreeText(t) + s) == TreeText(t) + s;
  }

  lemma RfcUnspaced(t: Tree, s: string)
    requires RfcTree(t)
    ensures SkipSpace(TreeText(t) + s) == TreeText(t) + s
    ensures TreeText(t) != [] && (TreeText(t) + s)[0] == TreeText(t)[0]
  {
    hide TreeText, RfcTree, SkipSpace;
    RfcSpaceThen([], t, s);
  }

  /** A subtree that is acceptable is read as it is when surrogates are taken together. */
  lemma AcceptableRead(t: Tree, s: string, representable: string -> bool)
    requires GoodTree(JoinTree(t), representable) && EndsNumber(s)
    ensures ParseValue(TreeText(t) + s, representable) == Ok((TreeValue(JoinTree(t), representable), s))
  {
    hide ParseValue, TreeText, TreeValue, JoinTree, GoodTree;
    JoinTreeText(t);
    TreeRead(JoinTree(t), s, representable);
  }

  lemma StringTreeRefused(ps: seq<Piece>, s: string, representable: string -> bool)
    requires RfcTree(TString(ps)) && !GoodTree(JoinTree(TString(ps)), representable)
    ensures ParseValue(TreeText(TString(ps)) + s, representable).Err?
  {
    hide ParseValue, ParseString, SkipSpace, QuotedText, RfcPieces, GoodPieces, Join, Paired;
    RfcStart(TString(ps));
    RfcUnspaced(TString(ps), s);
    JoinGood(ps);
    StringRefused(ps, s);
    JsonParser.TextValue(TreeText(TString(ps)) + s, representable);
  }

  lemma NumberTreeRefused(n: Numeral, s: string, representable: string -> bool)
    requires RfcTree(TNumber(n)) && EndsNumber(s) && !GoodTree(JoinTree(TNumber(n)), representable)
    ensures ParseValue(TreeText(TNumber(n)) + s, representable).Err?
  {
    hide ParseValue, ParseNumber, SkipSpace, NumeralText, GoodNumeral, EndsNumber;
    RfcStart(TNumber(n));
    RfcUnspaced(TNumber(n), s);
    NumberRefused(n, s, representable);
    JsonParser.NumberValue(TreeText(TNumber(n)) + s, representable);
  }

  lemma PlainTreesGood(t: Tree, representable: string -> bool)
    requires t.TNull? || t.TTrue? || t.TFalse?
    ensures GoodTree(JoinTree(t), representable)
  {
  }

  lemma {:induction false} TreeRefused(t: Tree, s: string, representable: string -> bool)
    requires RfcTree(t) && EndsNumber(s) && !GoodTree(JoinTree(t), representable)
    ensures ParseValue(TreeText(t) + s, representable).Err?
    decreases t, 2
  {
    hide *;
    match t
    case TNumber(n) => NumberTreeRefused(n, s, representable);
    case TString(ps) => StringTreeRefused(ps, s, representable);
    case TArray(space, elements) => ArrayRefused(space, elements, s, representable);
    case TObject(space, members) => ObjectRefused(space, members, s, representable);
    case _ => PlainTreesGood(t, representable);
  }

  lemma NumberRefused(n: Numeral, s: string, representable: string -> bool)
    requires GoodNumeral(n) && EndsNumber(s) && !representable(NumeralText(n))
    ensures ParseNumber(NumeralText(n) + s, representable).Err?
  {
    hide NumberEnd, NumeralText, GoodNumeral;
    NumeralRead(n, s);
    assert (NumeralText(n) + s)[..|NumeralText(n)|] == NumeralText(n);
  }

  lemma ArrayShape(space: string, elements: Elements, s: string, representable: string -> bool)
    requires RfcTree(TArray(space, elements)) && !GoodTree(JoinTree(TArray(space, elements)), representable)
    ensures elements.Element? && RfcElements(elements) && !GoodElements(JoinElements(elements), representable)
    ensures var text := TreeText(TArray(space, elements)) + s; text != [] && text[0] == '[' && text[1..] == ElementsText(elements) + s
  {
    hide IsSpaces, ElementsText;
    BodyText("[", ElementsText(elements), s);
  }

  lemma ObjectShape(space: string, members: Members, s: string, representable: string -> bool)
    requires RfcTree(TObject(space, members)) && !GoodTree(JoinTree(TObject(space, members)), representable)
    ensures members.Member? && RfcMembers(members) && !GoodMembers(JoinMembers(members), {}, representable)
    ensures var text := TreeText(TObject(space, members)) + s; text != [] && text[0] == '{' && text[1..] == MembersText(members) + s
  {
    hide IsSpaces, MembersText;
    BodyText("{", MembersText(members), s);
  }

  lemma {:induction false} ArrayRefused(space: string, elements: Elements, s: string, representable: string -> bool)
    requires RfcTree(TArray(space, elements)) && !GoodTree(JoinTree(TArray(space, elements)), representable)
    ensures ParseValue(TreeText(TArray(space, elements)) + s, representable).Err?
    decreases elements, 1
  {
    hide ParseValue, ParseItems, SkipSpace, ElementsText, RfcElements, GoodElements, JoinElements, TreeText, GoodTree, JoinTree, RfcTree;
    RfcUnspaced(TArray(space, elements), s);
    ArrayShape(space, elements, s, representable);
    OpenBracket(TreeText(TArray(space, elements)) + s, representable);
    RfcElementsStart(elements, s);
    ElementsRefused(elements, [], s, representable);
  }

  lemma RfcElementsStart(es: Elements, s: string)
    requires es.Element? && RfcElements(es)
    ensures var t := SkipSpace(ElementsText(es) + s); t != [] && t[0] != ']'
    ensures SkipSpace(ElementsText(es) + s) == TreeText(es.value) + (es.after + (ElementsTail(es.rest) + s))
  {
    hide TreeText, RfcTree, IsSpaces, SkipSpace, ElementsText, ElementsTail;
    ElementText(es, s);
    RfcSpaceThen(es.before, es.value, es.after + (ElementsTail(es.rest) + s));
    RfcStart(es.value);
  }

  lemma ItemsRefused(s: string, acc: seq<Value>, representable: string -> bool)
    requires ParseValue(s, representable).Err?
    ensures ParseItems(s, acc, representable).Err?
  {
    hide ParseValue;
  }

  lemma {:induction false} ElementsRefused(es: Elements, acc: seq<Value>, s: string, representable: string -> bool)
    requires es.Element? && RfcElements(es) && !GoodElements(JoinElements(es), representable)
    ensures ParseItems(SkipSpace(ElementsText(es) + s), acc, representable).Err?
    decreases es, 0
  {
    hide ParseValue, ParseItems, TreeText, TreeValue, RfcTree, GoodTree, JoinTree, SkipSpace, IsSpaces, ElementsText, ElementsTail, EndsNumber;
    var tail := ElementsTail(es.rest) + s;
    var text := TreeText(es.value) + (es.after + tail);
    RfcElementsStart(es, s);
    TailStarts(es.rest, s);
    EndsAfterValue(es.after, tail);
    if GoodTree(JoinTree(es.value), representable) {
      AcceptableRead(es.value, es.after + tail, representable);
      ItemsUnfold(text, acc, TreeValue(JoinTree(es.value), representable), es.after + tail, representable);
      ElementsRefused(es.rest, acc + [TreeValue(JoinTree(es.value), representable)], s, representable);
    } else {
      TreeRefused(es.value, es.after + tail, representable);
      ItemsRefused(text, acc, representable);
    }
  }

  lemma {:induction false} ObjectRefused(space: string, members: Members, s: string, representable: string -> bool)
    requires RfcTree(TObject(space, members)) && !GoodTree(JoinTree(TObject(space, members)), representable)
    ensures ParseValue(TreeText(TObject(space, members)) + s, representable).Err?
    decreases members, 1
  {
    hide ParseValue, ParseMembers, SkipSpace, MembersText, RfcMembers, GoodMembers, JoinMembers, TreeText, GoodTree, JoinTree, RfcTree, IsSpaces;
    RfcUnspaced(TObject(space, members), s);
    ObjectShape(space, members, s, representable);
    OpenBrace(TreeText(TObject(space, members)) + s, representable);
    RfcMembersFacts(members);
    MembersStart(members, s, representable);
    var none: map<string, Value> := map[];
    assert none.Keys == {};
    MembersRefused(members, none, s, representable);
  }

  lemma RfcMembersFacts(ms: Members)
    requires ms.Member? && RfcMembers(ms)
    ensures IsSpaces(ms.before) && RfcPieces(ms.key) && IsSpaces(ms.beforeColon) && IsSpaces(ms.afterColon)
    ensures IsSpaces(ms.after) && RfcTree(ms.value) && RfcMembers(ms.rest)
  {
  }

  /** The text of one member, cut where the reader stops. */
  lemma MemberCuts(ms: Members, s: string)
    requires ms.Member? && RfcMembers(ms)
    ensures var tail := MembersTail(ms.rest) + s;
            var value := TreeText(ms.value) + (ms.after + tail);
            var colon := ":" + (ms.afterColon + value);
            var text := QuotedText(ms.key) + (ms.beforeColon + colon);
            && SkipSpace(MembersText(ms) + s) == text && Starts(text, '"')
            && SkipSpace(ms.beforeColon + colon) == colon
            && SkipSpace(ms.afterColon + value) == value
            && SkipSpace(ms.after + tail) == tail && EndsNumber(ms.after + tail)
            && Starts(tail, if ms.rest.NoMembers? then '}' else ',')
            && tail[1..] == if ms.rest.NoMembers? then s else MembersText(ms.rest) + s
  {
    hide TreeText, RfcTree, RfcPieces, SkipSpace, IsSpaces, QuotedText, MembersText, MembersTail, EndsNumber;
    RfcMembersFacts(ms);
    MemberTailStarts(ms.rest, s);
    var tail := MembersTail(ms.rest) + s;
    var value := TreeText(ms.value) + (ms.after + tail);
    var colon := ":" + (ms.afterColon + value);
    MemberText(ms, s);
    QuotedStart(ms.key, ms.before, ms.beforeColon + colon);
    SkipSpaces(ms.beforeColon, colon);
    RfcSpaceThen(ms.afterColon, ms.value, ms.after + tail);
    EndsAfterValue(ms.after, tail);
  }

  lemma KeyRefused(s: string, acc: map<string, Value>, representable: string -> bool)
    requires Starts(s, '"') && ParseString(s).Err?
    ensures ParseMembers(s, acc, representable).Err?
  {
    hide ParseValue, ParseString;
  }

  lemma MemberRefused(s: string, acc: map<string, Value>, key: string, afterKey: string, afterColon: string, representable: string -> bool)
    requires Starts(s, '"') && ParseString(s) == Ok((key, afterKey)) && SkipSpace(afterKey) == ":" + afterColon
    requires ParseValue(SkipSpace(afterColon), representable).Err? || key in acc
    ensures ParseMembers(s, acc, representable).Err?
  {
    hide ParseValue, ParseString, SkipSpace;
    assert (":" + afterColon)[1..] == afterColon;
  }

  lemma {:induction false} MembersRefused(ms: Members, acc: map<string, Value>, s: string, representable: string -> bool)
    requires ms.Member? && RfcMembers(ms) && !GoodMembers(JoinMembers(ms), acc.Keys, representable)
    ensures ParseMembers(SkipSpace(MembersText(ms) + s), acc, representable).Err?
    decreases ms, 0
  {
    hide ParseValue, ParseString, ParseMembers, TreeValue, TreeText, RfcTree, GoodTree, GoodPieces, RfcPieces, JoinTree, Join,
         SkipSpace, IsSpaces, QuotedText, PiecesValue, MembersText, MembersTail, EndsNumber, Paired, GoodMembers, RfcMembers;
    RfcMembersFacts(ms);
    MemberCuts(ms, s);
    var tail := MembersTail(ms.rest) + s;
    var value := TreeText(ms.value) + (ms.after + tail);
    var colon := ":" + (ms.afterColon + value);
    var text := QuotedText(ms.key) + (ms.beforeColon + colon);
    JoinGood(ms.key);
    if !Paired(ms.key) {
      StringRefused(ms.key, ms.beforeColon + colon);
      KeyRefused(text, acc, representable);
    } else {
      var key := PiecesValue(Join(ms.key));
      JoinedStringRead(ms.key, ms.beforeColon + colon);
      if !GoodTree(JoinTree(ms.value), representable) {
        TreeRefused(ms.value, ms.after + tail, representable);
        MemberRefused(text, acc, key, ms.beforeColon + colon, ms.afterColon + value, representable);
      } else if key in acc {
        MemberRefused(text, acc, key, ms.beforeColon + colon, ms.afterColon + value, representable);
      } else {
        var v := TreeValue(JoinTree(ms.value), representable);
        AcceptableRead(ms.value, ms.after + tail, representable);
        MembersUnfold(text, acc, key, ms.beforeColon + colon, ms.afterColon + value, v, ms.after + tail, tail, representable);
        RestNotGood(ms, acc, v, representable);
        MembersRefused(ms.rest, acc[key := v], s, representable);
      }
    }
  }

  lemma JoinedStringRead(ps: seq<Piece>, s: string)
    requires GoodPieces(Join(ps))
    ensures ParseString(QuotedText(ps) + s) == Ok((PiecesValue(Join(ps)), s))
  {
    hide ParseString, GoodPieces, PiecesText, PiecesValue, Join;
    JoinText(ps);
    StringRead(Join(ps), s);
  }

  lemma RestNotGood(ms: Members, acc: map<string, Value>, v: Value, representable: string -> bool)
    requires ms.Member? && RfcMembers(ms) && !GoodMembers(JoinMembers(ms), acc.Keys, representable)
    requires GoodPieces(Join(ms.key)) && GoodTree(JoinTree(ms.value), representable) && PiecesValue(Join(ms.key)) !in acc
    ensures ms.rest.Member? && !GoodMembers(JoinMembers(ms.rest), acc[PiecesValue(Join(ms.key)) := v].Keys, representable)
  {
    hide GoodPieces, PiecesValue, GoodTree, JoinTree, Join, IsSpaces, RfcTree, RfcPieces;
    assert acc[PiecesValue(Join(ms.key)) := v].Keys == acc.Keys + {PiecesValue(Join(ms.key))};
  }

  // ---- documents

  /** s is a text of the grammar of the standard: a tree with spaces around it. */
  ghost predicate IsRfcText(s: string, before: string, t: Tree, after: string) {
    IsSpaces(before) && RfcTree(t) && IsSpaces(after) && s == before + (TreeText(t) + after)
  }

  /** A text of the standard's grammar is accepted exactly when every high surrogate is followed at
      once by a low one, the names in each object differ, and the numbers are representable. */
  lemma AcceptedIff(s: string, before: string, t: Tree, after: string, representable: string -> bool)
    requires IsRfcText(s, before, t, after)
    ensures ParseDocument(s, representable).Ok? <==> Acceptable(t, representable)
    ensures Acceptable(t, representable) ==>
      GoodTree(JoinTree(t), representable) && ParseDocument(s, representable) == Ok(TreeValue(JoinTree(t), representable))
  {
    hide ParseValue, TreeText, TreeValue, GoodTree, RfcTree, JoinTree, IsSpaces, Acceptable, SkipSpace, ParseDocument;
    AcceptableIsGood(t, representable);
    JoinTreeText(t);
    if Acceptable(t, representable) {
      DocumentRead(s, before, JoinTree(t), after, representable);
    } else {
      SpacesEndNumber(after);
      TreeRefused(t, after, representable);
      RfcSpaceThen(before, t, after);
      DocumentRefused(s, representable);
    }
  }

  lemma DocumentRefused(s: string, representable: string -> bool)
    requires ParseValue(SkipSpace(s), representable).Err?
    ensures ParseDocument(s, representable).Err?
  {
    hide ParseValue, SkipSpace;
  }

  // ---- every accepted text is in the standard's grammar

  function Spell(ps: seq<Piece>): seq<Piece> {
    if ps == [] then []
    else (match ps[0] case Pair(high, low) => [Unicode(high), Unicode(low)] case p => [p]) + Spell(ps[1..])
  }

  function SpellTree(t: Tree): Tree {
    match t
    case TString(ps) => TString(Spell(ps))
    case TArray(space, elements) => TArray(space, SpellElements(elements))
    case TObject(space, members) => TObject(space, SpellMembers(members))
    case _ => t
  }

  function SpellElements(es: Elements): Elements {
    match es
    case NoElements => NoElements
    case Element(before, value, after, rest) => Element(before, SpellTree(value), after, SpellElements(rest))
  }

  function SpellMembers(ms: Members): Members {
    match ms
    case NoMembers => NoMembers
    case Member(before, key, beforeColon, afterColon, value, after, rest) =>
      Member(before, Spell(key), beforeColon, afterColon, SpellTree(value), after, SpellMembers(rest))
  }

  lemma {:induction false} SpellJoins(ps: seq<Piece>)
    requires GoodPieces(ps)
    ensures RfcPieces(Spell(ps)) && Join(Spell(ps)) == ps
  {
    hide IsQuad, QuadValue;
    if ps != [] {
      var rest := Spell(ps[1..]);
      SpellJoins(ps[1..]);
      assert GoodPiece(ps[0]);
      if ps[0].Pair? {
        var two := [Unicode(ps[0].high), Unicode(ps[0].low)];
        assert (two + rest)[2..] == rest;
        assert ps == [ps[0]] + ps[1..];
      } else {
        assert ([ps[0]] + rest)[1..] == rest;
        assert ps == [ps[0]] + ps[1..];
      }
    }
  }

  lemma {:induction false} SpellTreeJoins(t: Tree, representable: string -> bool)
    requires GoodTree(t, representable)
    ensures RfcTree(SpellTree(t)) && JoinTree(SpellTree(t)) == t
    decreases t, 0
  {
    hide GoodPieces, RfcPieces, IsSpaces, Join, Spell, GoodNumeral;
    match t
    case TString(ps) => SpellJoins(ps);
    case TArray(_, elements) => SpellElementsJoins(elements, representable);
    case TObject(_, members) => SpellMembersJoins(members, {}, representable);
    case _ =>
  }

  lemma {:induction false} SpellElementsJoins(es: Elements, representable: string -> bool)
    requires GoodElements(es, representable)
    ensures RfcElements(SpellElements(es)) && JoinElements(SpellElements(es)) == es
    decreases es, 1
  {
    hide GoodTree, RfcTree, IsSpaces, JoinTree, SpellTree;
    if es.Element? {
      SpellTreeJoins(es.value, representable);
      SpellElementsJoins(es.rest, representable);
    }
  }

  lemma {:induction false} SpellMembersJoins(ms: Members, seen: set<string>, representable: string -> bool)
    requires GoodMembers(ms, seen, representable)
    ensures RfcMembers(SpellMembers(ms)) && JoinMembers(SpellMembers(ms)) == ms
    decreases ms, 1
  {
    hide GoodTree, RfcTree, IsSpaces, JoinTree, SpellTree, GoodPieces, RfcPieces, Join, Spell, PiecesValue;
    if ms.Member? {
      SpellJoins(ms.key);
      SpellTreeJoins(ms.value, representable);
      SpellMembersJoins(ms.rest, seen + {PiecesValue(ms.key)}, representable);
    }
  }

  ghost predicate Denoted(s: string, v: Value, representable: string -> bool) {
    exists before, t, after ::
      IsRfcText(s, before, t, after) && Acceptable(t, representable) && GoodTree(JoinTree(t), representable)
      && TreeValue(JoinTree(t), representable) == v
  }

  /** The reader returns v exactly for the acceptable texts of the standard's grammar that denote v. */
  lemma ParseIffRfc(s: string, v: Value, representable: string -> bool)
    ensures ParseDocument(s, representable) == Ok(v) <==> Denoted(s, v, representable)
  {
    hide ParseDocument, TreeValue, GoodTree, RfcTree, TreeText, JoinTree, SpellTree, Acceptable, IsSpaces;
    if ParseDocument(s, representable) == Ok(v) {
      var before, t, after := DocumentSound(s, representable);
      SpellTreeJoins(t, representable);
      JoinTreeText(SpellTree(t));
      assert IsRfcText(s, before, SpellTree(t), after);
      AcceptableIsGood(SpellTree(t), representable);
    }
    if Denoted(s, v, representable) {
      var before, t, after :| IsRfcText(s, before, t, after) && Acceptable(t, representable)
        && GoodTree(JoinTree(t), representable) && TreeValue(JoinTree(t), representable) == v;
      AcceptedIff(s, before, t, after, representable);
    }
  }

  /** A text of the standard's grammar that is refused: a string of one high surrogate. */
  lemma LoneSurrogateRefused(representable: string -> bool)
    ensures var t := TString([Unicode("d800")]);
            IsRfcText("\"\\ud800\"", [], t, []) && ParseDocument("\"\\ud800\"", representable).Err?
  {
    var ps := [Unicode("d800")];
    var t := TString(ps);
    QuadOfD800();
    assert ps[1..] == [];
    assert PiecesText(ps) == "\\ud800";
    assert "\"\\ud800\"" == [] + (TreeText(t) + []);
    assert IsHigh(ps[0]);
    AcceptedIff("\"\\ud800\"", [], t, [], representable);
  }

  /** A string of one byte that is not UTF-8 is accepted, and the byte is its value. */
  lemma StrayByteAccepted(representable: string -> bool)
    ensures var s := [0x80 as char];
            JsonText.Utf8Decode(s).None? && ParseDocument(['"'] + s + ['"'], representable) == Ok(Str(s))
  {
    hide ParseDocument;
    var s := [0x80 as char];
    var ps := [Plain(0x80 as char)];
    assert ps[1..] == [] && PiecesText(ps) == s + [] && PiecesValue(ps) == s + [] && s + [] == s;
    var t := TString(ps);
    assert TreeText(t) == ['"'] + s + ['"'];
    assert [] + (TreeText(t) + []) == ['"'] + s + ['"'];
    DocumentRead(['"'] + s + ['"'], [], t, [], representable);
  }

  lemma QuadOfD800()
    ensures IsQuad("d800") && QuadValue("d800") == 0xd800
  {
    var s := "d800";
    assert s[1..] == "800" && "800"[1..] == "00" && "00"[1..] == "0" && "0"[1..] == "";
    assert HexDigits("0", 1, 0xd80) == HexDigits("", 0, 0xd800);
    assert HexDigits("00", 2, 0xd8) == HexDigits("0", 1, 0xd80);
    assert HexDigits("800", 3, 0xd) == HexDigits("00", 2, 0xd8);
    assert HexDigits("d800", 4, 0) == HexDigits("800", 3, 0xd);
  }

  // ---- the characters of the grammar

  /** A single character is a number exactly when it is one of the ten digits. */
  lemma DigitsAreNumbers(c: char)
    ensures NumberEnd([c]).Ok? <==> '0' <= c <= '9'
  {
    var s := [c];
    assert s[0..] == s && s[1..] == [];
    if IsDigit(c) {
      assert s + [] == s;
      DigitSpanOf(s, []);
    }
  }

  /** The escapes of one character, and what each stands for. */
  lemma ShortEscapes(c: char, x: char)
    requires c != 'u'
    ensures ParseString(['"', '\\', c, '"']) == Ok(([x], [])) <==>
      || (c == x && c in {'"', '\\', '/'})
      || (c == 'b' && x as int == 8) || (c == 'f' && x as int == 12) || (c == 'n' && x == '\n')
      || (c == 'r' && x == '\r') || (c == 't' && x == '\t')
  {
    var s := ['"', '\\', c, '"'];
    assert s[1..] == ['\\', c, '"'] && ['\\', c, '"'][1..] == [c, '"'] && [c, '"'][1..] == ['"'] && ['"'][1..] == [];
    assert Chars(s[1..], []) == (match ShortEscape(c) case Some(y) => Chars(['"'], [] + [y]) case None => Fail(InvalidEscape, ['"']));
    assert forall y: char :: [] + [y] == [y];
  }

  /** The sixteen hexadecimal digits, in either case, and their values. */
  lemma HexDigitsMean(c: char, n: nat)
    ensures HexValue(c) == Some(n) <==> n < 16 && (c == "0123456789abcdef"[n] || c == "0123456789ABCDEF"[n])
  {
  }
}
