/** The texts that the reader accepts, as trees that spell out every byte: the JSON grammar of
    sections 2 to 7 of RFC 8259 with surrogates taken in pairs, distinct names and representable
    numbers. JsonRfc relates it to the grammar of the standard itself. */
module JsonGrammar {
  import opened Wrappers
  import opened Text
  import opened Json

  datatype Piece =
    | Plain(c: char)
    | Short(c: char)
    | Unicode(hex: string)
    | Pair(high: string, low: string)

  datatype Exponent = Exponent(letter: char, sign: string, digits: string)

  datatype Numeral = Numeral(negative: bool, whole: string, fraction: Option<string>, exponent: Option<Exponent>)

  datatype Tree =
    | TNull | TTrue | TFalse
    | TNumber(numeral: Numeral)
    | TString(pieces: seq<Piece>)
    | TArray(space: string, elements: Elements)
    | TObject(space: string, members: Members)

  datatype Elements = NoElements | Element(before: string, value: Tree, after: string, rest: Elements)

  datatype Members =
    | NoMembers
    | Member(before: string, key: seq<Piece>, beforeColon: string, afterColon: string, value: Tree, after: string, rest: Members)

  // ---- the text of a tree

  function PieceText(p: Piece): string {
    match p
    case Plain(c) => [c]
    case Short(c) => ['\\', c]
    case Unicode(hex) => "\\u" + hex
    case Pair(high, low) => "\\u" + high + "\\u" + low
  }

  function PiecesText(ps: seq<Piece>): string {
    if ps == [] then [] else PieceText(ps[0]) + PiecesText(ps[1..])
  }

  function QuotedText(ps: seq<Piece>): string {
    "\"" + (PiecesText(ps) + "\"")
  }

  function FractionText(f: Option<string>): string {
    if f.Some? then "." + f.value else []
  }

  function ExponentText(e: Option<Exponent>): string {
    if e.Some? then [e.value.letter] + e.value.sign + e.value.digits else []
  }

  function NumeralText(n: Numeral): string {
    (if n.negative then "-" else []) + (n.whole + (FractionText(n.fraction) + ExponentText(n.exponent)))
  }

  function TreeText(t: Tree): string {
    match t
    case TNull => "null"
    case TTrue => "true"
    case TFalse => "false"
    case TNumber(n) => NumeralText(n)
    case TString(ps) => QuotedText(ps)
    case TArray(space, elements) => "[" + (if elements.NoElements? then space + "]" else ElementsText(elements))
    case TObject(space, members) => "{" + (if members.NoMembers? then space + "}" else MembersText(members))
  }

  /** The elements and the closing bracket. */
  function ElementsText(es: Elements): string {
    match es
    case NoElements => "]"
    case Element(before, value, after, rest) =>
      before + (TreeText(value) + (after + (if rest.NoElements? then "]" else "," + ElementsText(rest))))
  }

  function MembersText(ms: Members): string {
    match ms
    case NoMembers => "}"
    case Member(before, key, beforeColon, afterColon, value, after, rest) =>
      before + (QuotedText(key) + (beforeColon + (":" + (afterColon + (TreeText(value) + (after +
        (if rest.NoMembers? then "}" else "," + MembersText(rest))))))))
  }

  // ---- well-formed trees

  predicate IsSpaces(s: string) {
    forall i :: 0 <= i < |s| ==> s[i] == ' ' || s[i] == '\t' || s[i] == '\n' || s[i] == '\r'
  }

  predicate IsQuad(s: string) {
    |s| == 4 && HexQuad(s).Ok?
  }

  function QuadValue(s: string): (n: nat)
    requires IsQuad(s)
    ensures n < 0x10000
  {
    HexBound(s, 4, 0, 0x10000);
    HexQuad(s).value.0
  }

  /** Any character but a quote, a backslash or a control character may stand for itself. A
      high surrogate must be followed by a low one. */
  predicate GoodPiece(p: Piece) {
    match p
    case Plain(c) => c != '"' && c != '\\' && c >= ' '
    case Short(c) => ShortEscape(c).Some?
    case Unicode(hex) => IsQuad(hex) && !(0xd800 <= QuadValue(hex) <= 0xdbff)
    case Pair(high, low) =>
      IsQuad(high) && IsQuad(low) && 0xd800 <= QuadValue(high) <= 0xdbff && 0xdc00 <= QuadValue(low) <= 0xdfff
  }

  predicate GoodPieces(ps: seq<Piece>) {
    forall i :: 0 <= i < |ps| ==> GoodPiece(ps[i])
  }

  predicate SomeDigits(s: string) {
    s != [] && AllDigits(s)
  }

  predicate GoodExponent(e: Exponent) {
    (e.letter == 'e' || e.letter == 'E') && (e.sign == [] || e.sign == "+" || e.sign == "-") && SomeDigits(e.digits)
  }

  predicate GoodNumeral(n: Numeral) {
    && SomeDigits(n.whole) && (n.whole[0] == '0' ==> |n.whole| == 1)
    && (n.fraction.Some? ==> SomeDigits(n.fraction.value))
    && (n.exponent.Some? ==> GoodExponent(n.exponent.value))
  }

  predicate GoodTree(t: Tree, representable: string -> bool) {
    match t
    case TNull => true
    case TTrue => true
    case TFalse => true
    case TNumber(n) => GoodNumeral(n) && representable(NumeralText(n))
    case TString(ps) => GoodPieces(ps)
    case TArray(space, elements) => IsSpaces(space) && GoodElements(elements, representable)
    case TObject(space, members) => IsSpaces(space) && GoodMembers(members, {}, representable)
  }

  predicate GoodElements(es: Elements, representable: string -> bool) {
    match es
    case NoElements => true
    case Element(before, value, after, rest) =>
      IsSpaces(before) && GoodTree(value, representable) && IsSpaces(after) && GoodElements(rest, representable)
  }

  /** The keys, after decoding, differ from one another and from those in seen. */
  predicate GoodMembers(ms: Members, seen: set<string>, representable: string -> bool) {
    match ms
    case NoMembers => true
    case Member(before, key, beforeColon, afterColon, value, after, rest) =>
      && IsSpaces(before) && GoodPieces(key) && IsSpaces(beforeColon) && IsSpaces(afterColon) && IsSpaces(after)
      && GoodTree(value, representable)
      && PiecesValue(key) !in seen
      && GoodMembers(rest, seen + {PiecesValue(key)}, representable)
  }

  // ---- the value of a tree

  function PieceValue(p: Piece): string
    requires GoodPiece(p)
  {
    match p
    case Plain(c) => [c]
    case Short(c) => [ShortEscape(c).value]
    case Unicode(hex) => Utf8(QuadValue(hex))
    case Pair(high, low) => Utf8(0x10000 + (QuadValue(high) - 0xd800) * 0x400 + (QuadValue(low) - 0xdc00))
  }

  function PiecesValue(ps: seq<Piece>): string
    requires GoodPieces(ps)
  {
    if ps == [] then [] else PieceValue(ps[0]) + PiecesValue(ps[1..])
  }

  function TreeValue(t: Tree, representable: string -> bool): Value
    requires GoodTree(t, representable)
  {
    match t
    case TNull => Null
    case TTrue => Bool(true)
    case TFalse => Bool(false)
    case TNumber(n) => Number(NumeralText(n))
    case TString(ps) => Str(PiecesValue(ps))
    case TArray(_, elements) => Array(ElementValues(elements, representable))
    case TObject(_, members) => Object(MemberValues(members, {}, representable))
  }

  function ElementValues(es: Elements, representable: string -> bool): seq<Value>
    requires GoodElements(es, representable)
  {
    match es
    case NoElements => []
    case Element(_, value, _, rest) => [TreeValue(value, representable)] + ElementValues(rest, representable)
  }

  function MemberValues(ms: Members, seen: set<string>, representable: string -> bool): (m: map<string, Value>)
    requires GoodMembers(ms, seen, representable)
    ensures m.Keys !! seen
    decreases ms
  {
    match ms
    case NoMembers => map[]
    case Member(_, key, _, _, value, _, rest) =>
      var k := PiecesValue(key);
      map[k := TreeValue(value, representable)] + MemberValues(rest, seen + {k}, representable)
  }

  // ---- every well-formed text is read

  lemma {:induction false} SkipSpaces(w: string, s: string)
    requires IsSpaces(w) && (s == [] || !IsSpace(s[0]))
    ensures SkipSpace(w + s) == s
  {
    if w == [] {
      assert w + s == s;
    } else {
      assert (w + s)[1..] == w[1..] + s;
      SkipSpaces(w[1..], s);
    }
  }

  lemma {:induction false} HexPrefix(hex: string, s: string, n: nat, acc: nat)
    requires |hex| == n
    ensures HexDigits(hex, n, acc).Ok? ==> HexDigits(hex + s, n, acc) == Ok((HexDigits(hex, n, acc).value.0, s))
  {
    if n == 0 {
      assert hex + s == s;
    } else {
      assert (hex + s)[1..] == hex[1..] + s;
      if HexValue(hex[0]).Some? {
        HexPrefix(hex[1..], s, n - 1, acc * 16 + HexValue(hex[0]).value);
      }
    }
  }

  lemma QuadPrefix(hex: string, s: string)
    requires IsQuad(hex)
    ensures HexQuad(hex + s) == Ok((QuadValue(hex), s))
  {
    HexPrefix(hex, s, 4, 0);
  }

  /** An escape is read as a whole, and reading goes on after it. */
  lemma CharsEscape(e: string, s: string, acc: string, value: string)
    requires Escape(e + s) == Ok((value, s))
    ensures Chars("\\" + e + s, acc) == Chars(s, acc + value)
  {
    hide Escape;
    var text := "\\" + e + s;
    assert text[1..] == e + s && text[0] == '\\';
    CharsAfterBackslash(text, acc);
  }

  lemma CharsAfterBackslash(text: string, acc: string)
    requires text != [] && text[0] == '\\' && Escape(text[1..]).Ok?
    ensures Chars(text, acc) == Chars(Escape(text[1..]).value.1, acc + Escape(text[1..]).value.0)
  {
    hide Escape;
  }

  lemma ShortRead(c: char, s: string)
    requires ShortEscape(c).Some?
    ensures Escape([c] + s) == Ok(([ShortEscape(c).value], s))
  {
    hide Utf8, CodePoint, HexQuad;
    assert ([c] + s)[1..] == s;
    assert c != 'u';
  }

  lemma UnicodeRead(hex: string, s: string)
    requires GoodPiece(Unicode(hex))
    ensures Escape("u" + hex + s) == Ok((Utf8(QuadValue(hex)), s))
  {
    hide Utf8, HexQuad, HexDigits, IsQuad;
    assert ("u" + hex + s)[1..] == hex + s;
    QuadPrefix(hex, s);
  }

  lemma PairRead(high: string, low: string, s: string)
    requires GoodPiece(Pair(high, low))
    ensures Escape("u" + high + "\\u" + low + s) == Ok((PieceValue(Pair(high, low)), s))
  {
    hide Utf8, HexQuad, HexDigits, IsQuad;
    hide QuadValue;
    var t := "\\u" + low + s;
    var text := "u" + high + "\\u" + low + s;
    assert text[0] == 'u' && text[1..] == high + t;
    QuadPrefix(high, t);
    assert |t| >= 2 && t[0] == '\\' && t[1] == 'u' && t[2..] == low + s;
    QuadPrefix(low, s);
  }

  lemma PieceRead(p: Piece, s: string, acc: string)
    requires GoodPiece(p)
    ensures Chars(PieceText(p) + s, acc) == Chars(s, acc + PieceValue(p))
  {
    hide Escape, Utf8, HexQuad, IsQuad, ShortEscape, QuadValue;
    match p
    case Plain(c) => assert ([c] + s)[1..] == s;
    case Short(c) =>
      ShortRead(c, s);
      assert ['\\', c] + s == "\\" + [c] + s;
      CharsEscape([c], s, acc, PieceValue(p));
    case Unicode(hex) =>
      UnicodeRead(hex, s);
      assert "\\u" + hex + s == "\\" + ("u" + hex) + s;
      CharsEscape("u" + hex, s, acc, PieceValue(p));
    case Pair(high, low) =>
      PairRead(high, low, s);
      assert "\\u" + high + "\\u" + low + s == "\\" + ("u" + high + "\\u" + low) + s;
      CharsEscape("u" + high + "\\u" + low, s, acc, PieceValue(p));
  }

  lemma CharsClose(s: string, acc: string)
    ensures Chars("\"" + s, acc) == Ok((acc, s))
  {
    hide Escape;
    assert ("\"" + s)[1..] == s;
  }

  lemma {:induction false} PiecesRead(ps: seq<Piece>, s: string, acc: string)
    requires GoodPieces(ps)
    ensures Chars(PiecesText(ps) + ("\"" + s), acc) == Ok((acc + PiecesValue(ps), s))
  {
    hide Chars, GoodPiece, PieceText, PieceValue;
    var close := "\"" + s;
    if ps == [] {
      assert PiecesText(ps) + close == close;
      CharsClose(s, acc);
      assert acc + [] == acc;
    } else {
      PieceRead(ps[0], PiecesText(ps[1..]) + close, acc);
      assert PiecesText(ps) + close == PieceText(ps[0]) + (PiecesText(ps[1..]) + close);
      PiecesRead(ps[1..], s, acc + PieceValue(ps[0]));
      assert acc + PieceValue(ps[0]) + PiecesValue(ps[1..]) == acc + PiecesValue(ps);
    }
  }

  lemma StringRead(ps: seq<Piece>, s: string)
    requires GoodPieces(ps)
    ensures ParseString(QuotedText(ps) + s) == Ok((PiecesValue(ps), s))
  {
    hide Chars, GoodPieces, PiecesText, PiecesValue;
    PiecesRead(ps, s, []);
    assert (QuotedText(ps) + s)[1..] == PiecesText(ps) + ("\"" + s);
    assert [] + PiecesValue(ps) == PiecesValue(ps);
  }

  /** What may follow a number without becoming part of it. */
  predicate EndsNumber(s: string) {
    s == [] || (!IsDigit(s[0]) && s[0] != '.' && s[0] != 'e' && s[0] != 'E')
  }

  lemma WholeRead(pre: string, w: string, rest: string)
    requires SomeDigits(w) && (w[0] == '0' ==> |w| == 1) && (rest == [] || !IsDigit(rest[0]))
    ensures WholeEnd(pre + (w + rest), |pre|) == Ok(|pre| + |w|)
  {
    var s := pre + (w + rest);
    assert s[|pre|..] == w + rest;
    assert s[|pre|] == w[0];
    DigitSpanOf(w, rest);
  }

  lemma FractionAt(s: string, i: nat, d: string, rest: string)
    requires i <= |s| && s[i..] == "." + (d + rest) && SomeDigits(d) && (rest == [] || !IsDigit(rest[0]))
    ensures FractionEnd(s, i) == Ok(i + 1 + |d|)
  {
    hide DigitSpan;
    assert s[i] == s[i..][0] && s[i + 1] == s[i..][1];
    assert s[i + 1..] == s[i..][1..] && s[i..][1..] == d + rest;
    DigitSpanOf(d, rest);
  }

  lemma NoFraction(pre: string, rest: string)
    requires rest == [] || rest[0] != '.'
    ensures FractionEnd(pre + rest, |pre|) == Ok(|pre|)
  {
    hide DigitSpan;
    assert rest != [] ==> (pre + rest)[|pre|] == rest[0];
  }

  lemma FractionRead(pre: string, f: Option<string>, rest: string)
    requires f.Some? ==> SomeDigits(f.value)
    requires rest == [] || (!IsDigit(rest[0]) && rest[0] != '.')
    ensures FractionEnd(pre + (FractionText(f) + rest), |pre|) == Ok(|pre| + |FractionText(f)|)
  {
    hide FractionEnd, DigitSpan;
    var s := pre + (FractionText(f) + rest);
    if f.Some? {
      assert s[|pre|..] == FractionText(f) + rest;
      assert "." + f.value + rest == "." + (f.value + rest);
      FractionAt(s, |pre|, f.value, rest);
    } else {
      assert FractionText(f) + rest == rest;
      NoFraction(pre, rest);
    }
  }

  lemma ExponentDigits(pre: string, e: Exponent, rest: string)
    requires GoodExponent(e) && (rest == [] || !IsDigit(rest[0]))
    ensures var s := pre + (ExponentText(Some(e)) + rest);
            var j := |pre| + 1 + |e.sign|;
            && s[|pre|] == e.letter
            && s[|pre| + 1] == (if e.sign == [] then e.digits[0] else e.sign[0])
            && Digit(s, j) && j <= |s| && DigitSpan(s[j..]) == |e.digits|
  {
    var s := pre + (ExponentText(Some(e)) + rest);
    var j := |pre| + 1 + |e.sign|;
    var head := pre + [e.letter] + e.sign;
    assert s == head + (e.digits + rest);
    assert |head| == j;
    assert s[j..] == e.digits + rest;
    DigitSpanOf(e.digits, rest);
    assert head[|pre|] == e.letter;
    assert e.sign != [] ==> head[|pre| + 1] == e.sign[0];
  }

  lemma ExponentRead(pre: string, e: Option<Exponent>, rest: string)
    requires e.Some? ==> GoodExponent(e.value)
    requires EndsNumber(rest)
    ensures ExponentEnd(pre + (ExponentText(e) + rest), |pre|) == Ok(|pre| + |ExponentText(e)|)
  {
    hide DigitSpan;
    if e.Some? {
      ExponentDigits(pre, e.value, rest);
      assert |ExponentText(e)| == 1 + |e.value.sign| + |e.value.digits|;
    } else {
      assert ExponentText(e) + rest == rest;
    }
  }

  /** What follows the whole part, and what follows the fraction. */
  lemma TailStart(n: Numeral, rest: string)
    requires GoodNumeral(n) && EndsNumber(rest)
    ensures var u := ExponentText(n.exponent) + rest;
            u == [] || (!IsDigit(u[0]) && u[0] != '.')
    ensures var u := FractionText(n.fraction) + (ExponentText(n.exponent) + rest);
            u == [] || !IsDigit(u[0])
  {
  }

  lemma NumeralRead(n: Numeral, rest: string)
    requires GoodNumeral(n) && EndsNumber(rest)
    ensures NumberEnd(NumeralText(n) + rest) == Ok(|NumeralText(n)|)
  {
    hide WholeEnd, FractionEnd, ExponentEnd, FractionText, ExponentText, GoodExponent, DigitSpan, EndsNumber;
    var sign := if n.negative then "-" else [];
    var f, e := FractionText(n.fraction), ExponentText(n.exponent);
    var s := NumeralText(n) + rest;
    TailStart(n, rest);
    WholeRead(sign, n.whole, f + (e + rest));
    FractionRead(sign + n.whole, n.fraction, e + rest);
    ExponentRead(sign + n.whole + f, n.exponent, rest);
    assert s == sign + (n.whole + (f + (e + rest)));
    assert s == (sign + n.whole) + (f + (e + rest));
    assert s == (sign + n.whole + f) + (e + rest);
    assert s[|sign|] == n.whole[0];
  }

  // ---- values

  lemma NumberRead(n: Numeral, s: string, representable: string -> bool)
    requires GoodNumeral(n) && representable(NumeralText(n)) && EndsNumber(s)
    ensures ParseNumber(NumeralText(n) + s, representable) == Ok((Number(NumeralText(n)), s))
  {
    hide NumberEnd, NumeralText, GoodNumeral;
    NumeralRead(n, s);
    assert (NumeralText(n) + s)[..|NumeralText(n)|] == NumeralText(n);
  }

  lemma LiteralRead(word: string, v: Value, s: string)
    requires word != []
    ensures Literal(word + s, word, v) == Ok((v, s))
  {
  }

  /** The first byte of a value says what it is. */
  lemma TreeStart(t: Tree, representable: string -> bool)
    requires GoodTree(t, representable)
    ensures var text := TreeText(t);
            && text != [] && !IsSpace(text[0])
            && (text[0] == 'n' <==> t.TNull?) && (text[0] == 't' <==> t.TTrue?) && (text[0] == 'f' <==> t.TFalse?)
            && (text[0] == '"' <==> t.TString?) && (text[0] == '[' <==> t.TArray?) && (text[0] == '{' <==> t.TObject?)
            && (t.TNumber? ==> text[0] == '-' || IsDigit(text[0]))
            && text[0] != ']' && text[0] != '}'
  {
    hide GoodElements, GoodMembers, ElementsText, MembersText, PiecesText, GoodPieces;
  }

  ghost predicate Reads(t: Tree, s: string, representable: string -> bool)
    requires GoodTree(t, representable)
  {
    ParseValue(TreeText(t) + s, representable) == Ok((TreeValue(t, representable), s))
  }

  lemma SpaceThen(w: string, t: Tree, s: string, representable: string -> bool)
    requires IsSpaces(w) && GoodTree(t, representable)
    ensures SkipSpace(w + (TreeText(t) + s)) == TreeText(t) + s
    ensures SkipSpace(TreeText(t) + s) == TreeText(t) + s
  {
    hide TreeText;
    TreeStart(t, representable);
    SkipSpaces(w, TreeText(t) + s);
    SkipSpaces([], TreeText(t) + s);
    assert [] + (TreeText(t) + s) == TreeText(t) + s;
  }

  lemma TreeUnspaced(t: Tree, s: string, representable: string -> bool)
    requires GoodTree(t, representable)
    ensures SkipSpace(TreeText(t) + s) == TreeText(t) + s
  {
    hide TreeText, SkipSpace, GoodTree;
    SpaceThen([], t, s, representable);
  }

  /** Only what follows the leading spaces matters. */
  lemma ValueSkips(s: string, t: string, representable: string -> bool)
    requires SkipSpace(s) == SkipSpace(t)
    ensures ParseValue(s, representable) == ParseValue(t, representable)
  {
    hide SkipSpace, ParseNumber, Literal, ParseString, ParseItems, ParseMembers;
  }

  /** After a value inside an array or object: spaces, then a comma or a closing bracket. */
  lemma EndsAfterValue(after: string, s: string)
    requires IsSpaces(after) && s != [] && (s[0] == ',' || s[0] == ']' || s[0] == '}')
    ensures EndsNumber(after + s) && SkipSpace(after + s) == s
  {
    SkipSpaces(after, s);
    assert after != [] ==> (after + s)[0] == after[0];
  }

  function ElementsTail(rest: Elements): string {
    if rest.NoElements? then "]" else "," + ElementsText(rest)
  }

  function MembersTail(rest: Members): string {
    if rest.NoMembers? then "}" else "," + MembersText(rest)
  }

  /** What reading one element comes to, given what its parts are read as. */
  lemma ItemsUnfold(s: string, acc: seq<Value>, v: Value, after: string, representable: string -> bool)
    requires ParseValue(s, representable) == Ok((v, after))
    ensures var u := SkipSpace(after);
            && (Starts(u, ']') ==> ParseItems(s, acc, representable) == Ok((Array(acc + [v]), u[1..])))
            && (Starts(u, ',') ==> ParseItems(s, acc, representable) == ParseItems(SkipSpace(u[1..]), acc + [v], representable))
  {
    hide ParseValue, SkipSpace;
  }

  lemma ElementText(es: Elements, s: string)
    requires es.Element?
    ensures ElementsText(es) + s == es.before + (TreeText(es.value) + (es.after + (ElementsTail(es.rest) + s)))
  {
    hide TreeText;
  }

  lemma BodyText(open: string, body: string, s: string)
    requires |open| == 1
    ensures open + body + s != [] && (open + body + s)[0] == open[0] && (open + body + s)[1..] == body + s
  {
  }

  lemma TailStarts(rest: Elements, s: string)
    ensures var tail := ElementsTail(rest) + s;
            Starts(tail, if rest.NoElements? then ']' else ',') && tail[1..] == if rest.NoElements? then s else ElementsText(rest) + s
  {
    hide ElementsText;
    BodyText(",", ElementsText(rest), s);
    BodyText("]", "", s);
    assert "]" + "" == "]" && "" + s == s;
  }

  /** One element, up to its comma or bracket. */
  lemma ElementStep(es: Elements, acc: seq<Value>, s: string, representable: string -> bool)
    requires es.Element? && GoodElements(es, representable)
    requires Reads(es.value, es.after + (ElementsTail(es.rest) + s), representable)
    ensures var items := acc + [TreeValue(es.value, representable)];
            var rest := ElementsTail(es.rest) + s;
            ParseItems(SkipSpace(ElementsText(es) + s), acc, representable) ==
            if es.rest.NoElements? then Ok((Array(items), s)) else ParseItems(SkipSpace(rest[1..]), items, representable)
  {
    hide ParseValue, ParseItems, TreeValue, TreeText, GoodTree, SkipSpace, IsSpaces, ElementsText, ElementsTail;
    var tail := ElementsTail(es.rest) + s;
    TailStarts(es.rest, s);
    ElementText(es, s);
    SpaceThen(es.before, es.value, es.after + tail, representable);
    EndsAfterValue(es.after, tail);
    ItemsUnfold(TreeText(es.value) + (es.after + tail), acc, TreeValue(es.value, representable), es.after + tail, representable);
  }

  lemma ElementsStart(es: Elements, s: string, representable: string -> bool)
    requires es.Element? && GoodElements(es, representable)
    ensures var t := SkipSpace(ElementsText(es) + s); t != [] && t[0] != ']'
  {
    hide TreeText, GoodTree, IsSpaces, SkipSpace, ElementsText, ElementsTail;
    var tail := ElementsTail(es.rest) + s;
    ElementText(es, s);
    SpaceThen(es.before, es.value, es.after + tail, representable);
    TreeStart(es.value, representable);
  }

  lemma ElementFacts(es: Elements, s: string, representable: string -> bool)
    requires es.Element? && GoodElements(es, representable)
    ensures GoodTree(es.value, representable) && GoodElements(es.rest, representable)
    ensures EndsNumber(es.after + (ElementsTail(es.rest) + s))
    ensures (ElementsTail(es.rest) + s)[1..] == if es.rest.NoElements? then s else ElementsText(es.rest) + s
  {
    hide TreeText, GoodTree, SkipSpace, IsSpaces, EndsNumber, ElementsText, ElementsTail;
    TailStarts(es.rest, s);
    EndsAfterValue(es.after, ElementsTail(es.rest) + s);
  }

  lemma ElementValuesNext(es: Elements, acc: seq<Value>, representable: string -> bool)
    requires es.Element? && GoodElements(es, representable)
    ensures var items := acc + [TreeValue(es.value, representable)];
            acc + ElementValues(es, representable) == if es.rest.NoElements? then items else items + ElementValues(es.rest, representable)
  {
    hide TreeValue, GoodTree, IsSpaces;
  }

  lemma {:induction false} ElementsRead(es: Elements, acc: seq<Value>, s: string, representable: string -> bool)
    requires es.Element? && GoodElements(es, representable)
    ensures ParseItems(SkipSpace(ElementsText(es) + s), acc, representable)
            == Ok((Array(acc + ElementValues(es, representable)), s))
    decreases es, 0
  {
    hide ParseItems, TreeValue, GoodTree, GoodElements, SkipSpace, IsSpaces, Reads, ElementsText, ElementsTail, EndsNumber;
    var tail := ElementsTail(es.rest) + s;
    ElementFacts(es, s, representable);
    ElementValuesNext(es, acc, representable);
    TreeRead(es.value, es.after + tail, representable);
    ElementStep(es, acc, s, representable);
    if es.rest.Element? {
      ElementsRead(es.rest, acc + [TreeValue(es.value, representable)], s, representable);
    }
  }

  lemma QuotedStart(key: seq<Piece>, w: string, s: string)
    requires IsSpaces(w)
    ensures SkipSpace(w + (QuotedText(key) + s)) == QuotedText(key) + s && Starts(QuotedText(key) + s, '"')
  {
    SkipSpaces(w, QuotedText(key) + s);
  }

  /** One member, up to its comma or brace. */
  lemma MembersUnfold(s: string, acc: map<string, Value>, key: string, afterKey: string, afterColon: string, v: Value, after: string,
                      u: string, representable: string -> bool)
    requires Starts(s, '"') && ParseString(s) == Ok((key, afterKey)) && key !in acc
    requires SkipSpace(afterKey) == ":" + afterColon
    requires ParseValue(SkipSpace(afterColon), representable) == Ok((v, after)) && u == SkipSpace(after) && u != []
    ensures u[0] == '}' ==> ParseMembers(s, acc, representable) == Ok((Object(acc[key := v]), u[1..]))
    ensures u[0] == ',' ==> ParseMembers(s, acc, representable) == ParseMembers(SkipSpace(u[1..]), acc[key := v], representable)
  {
    hide ParseValue, ParseString, SkipSpace;
    assert (":" + afterColon)[1..] == afterColon;
  }

  lemma MemberTailStarts(rest: Members, s: string)
    ensures var tail := MembersTail(rest) + s;
            Starts(tail, if rest.NoMembers? then '}' else ',') && tail[1..] == if rest.NoMembers? then s else MembersText(rest) + s
  {
    hide MembersText;
    BodyText(",", MembersText(rest), s);
    BodyText("}", "", s);
    assert "}" + "" == "}" && "" + s == s;
  }

  lemma MemberText(ms: Members, s: string)
    requires ms.Member?
    ensures MembersText(ms) + s == ms.before + (QuotedText(ms.key) + (ms.beforeColon +
      (":" + (ms.afterColon + (TreeText(ms.value) + (ms.after + (MembersTail(ms.rest) + s)))))))
  {
    hide TreeText, QuotedText;
  }

  lemma MemberStep(ms: Members, acc: map<string, Value>, s: string, representable: string -> bool)
    requires ms.Member? && GoodMembers(ms, acc.Keys, representable)
    requires Reads(ms.value, ms.after + (MembersTail(ms.rest) + s), representable)
    ensures var fields := acc[PiecesValue(ms.key) := TreeValue(ms.value, representable)];
            var rest := MembersTail(ms.rest) + s;
            ParseMembers(SkipSpace(MembersText(ms) + s), acc, representable) ==
            if ms.rest.NoMembers? then Ok((Object(fields), s)) else ParseMembers(SkipSpace(rest[1..]), fields, representable)
  {
    hide ParseValue, ParseString, ParseMembers, TreeValue, TreeText, GoodTree, GoodPieces, SkipSpace, IsSpaces, QuotedText, PiecesValue;
    hide MembersText, MembersTail;
    MemberTailStarts(ms.rest, s);
    var tail := MembersTail(ms.rest) + s;
    var value := TreeText(ms.value) + (ms.after + tail);
    var colon := ":" + (ms.afterColon + value);
    MemberText(ms, s);
    QuotedStart(ms.key, ms.before, ms.beforeColon + colon);
    StringRead(ms.key, ms.beforeColon + colon);
    SkipSpaces(ms.beforeColon, colon);
    assert colon[1..] == ms.afterColon + value;
    SpaceThen(ms.afterColon, ms.value, ms.after + tail, representable);
    EndsAfterValue(ms.after, tail);
    MembersUnfold(QuotedText(ms.key) + (ms.beforeColon + colon), acc, PiecesValue(ms.key), ms.beforeColon + colon,
                  ms.afterColon + value, TreeValue(ms.value, representable), ms.after + tail, tail, representable);
  }

  lemma MembersStart(ms: Members, s: string, representable: string -> bool)
    requires ms.Member? && IsSpaces(ms.before)
    ensures var t := SkipSpace(MembersText(ms) + s); t != [] && t[0] != '}'
  {
    hide TreeText, IsSpaces, SkipSpace, QuotedText;
    var more := ms.beforeColon + (":" + (ms.afterColon + (TreeText(ms.value) + (ms.after + (MembersTail(ms.rest) + s)))));
    assert MembersText(ms) + s == ms.before + (QuotedText(ms.key) + more);
    QuotedStart(ms.key, ms.before, more);
  }

  lemma MemberFacts(ms: Members, acc: map<string, Value>, s: string, representable: string -> bool)
    requires ms.Member? && GoodMembers(ms, acc.Keys, representable)
    ensures GoodTree(ms.value, representable) && GoodPieces(ms.key)
    ensures EndsNumber(ms.after + (MembersTail(ms.rest) + s))
    ensures (MembersTail(ms.rest) + s)[1..] == if ms.rest.NoMembers? then s else MembersText(ms.rest) + s
    ensures var fields := acc[PiecesValue(ms.key) := TreeValue(ms.value, representable)];
            && GoodMembers(ms.rest, fields.Keys, representable)
            && acc + MemberValues(ms, acc.Keys, representable) == fields + MemberValues(ms.rest, fields.Keys, representable)
  {
    hide TreeValue, TreeText, GoodTree, GoodPieces, PiecesValue, SkipSpace, IsSpaces, EndsNumber, MembersText, MembersTail;
    MemberTailStarts(ms.rest, s);
    EndsAfterValue(ms.after, MembersTail(ms.rest) + s);
    var fields := acc[PiecesValue(ms.key) := TreeValue(ms.value, representable)];
    assert fields.Keys == acc.Keys + {PiecesValue(ms.key)};
  }

  lemma {:induction false} MembersRead(ms: Members, acc: map<string, Value>, s: string, representable: string -> bool)
    requires ms.Member? && GoodMembers(ms, acc.Keys, representable)
    ensures ParseMembers(SkipSpace(MembersText(ms) + s), acc, representable)
            == Ok((Object(acc + MemberValues(ms, acc.Keys, representable)), s))
    decreases ms, 0
  {
    hide ParseMembers, TreeValue, GoodTree, GoodPieces, GoodMembers, PiecesValue, SkipSpace, IsSpaces, Reads, MembersText, MembersTail, EndsNumber;
    var tail := MembersTail(ms.rest) + s;
    MemberFacts(ms, acc, s, representable);
    TreeRead(ms.value, ms.after + tail, representable);
    MemberStep(ms, acc, s, representable);
    var fields := acc[PiecesValue(ms.key) := TreeValue(ms.value, representable)];
    if ms.rest.Member? {
      MembersRead(ms.rest, fields, s, representable);
    } else {
      assert fields + map[] == fields;
    }
  }

  /** A well-formed value is read as its meaning, and nothing more is consumed. */
  lemma {:induction false} TreeRead(t: Tree, s: string, representable: string -> bool)
    requires GoodTree(t, representable) && EndsNumber(s)
    ensures Reads(t, s, representable)
    decreases t, 0
  {
    hide Literal, ParseNumber, ParseString, ParseItems, ParseMembers, SkipSpace, IsSpaces, EndsNumber,
         ElementsText, MembersText, QuotedText, NumeralText, GoodElements, GoodMembers, GoodNumeral, GoodPieces,
         ElementValues, MemberValues, PiecesValue;
    var text := TreeText(t) + s;
    TreeStart(t, representable);
    TreeUnspaced(t, s, representable);
    match t
    case TNull => LiteralRead("null", Null, s);
    case TTrue => LiteralRead("true", Bool(true), s);
    case TFalse => LiteralRead("false", Bool(false), s);
    case TNumber(n) => NumberRead(n, s, representable);
    case TString(ps) => StringRead(ps, s);
    case TArray(space, elements) => ArrayRead(space, elements, s, representable);
    case TObject(space, members) => ObjectRead(space, members, s, representable);
  }

  lemma OpenBracket(s: string, representable: string -> bool)
    requires s != [] && s[0] == '[' && SkipSpace(s) == s
    ensures var t := SkipSpace(s[1..]);
            ParseValue(s, representable) == if Starts(t, ']') then Ok((Array([]), t[1..])) else ParseItems(t, [], representable)
  {
    hide Literal, ParseNumber, ParseString, ParseItems, ParseMembers, SkipSpace;
  }

  lemma OpenBrace(s: string, representable: string -> bool)
    requires s != [] && s[0] == '{' && SkipSpace(s) == s
    ensures var t := SkipSpace(s[1..]);
            ParseValue(s, representable) == if Starts(t, '}') then Ok((Object(map[]), t[1..])) else ParseMembers(t, map[], representable)
  {
    hide Literal, ParseNumber, ParseString, ParseItems, ParseMembers, SkipSpace;
  }

  lemma ArrayParts(space: string, elements: Elements, s: string, representable: string -> bool)
    requires GoodTree(TArray(space, elements), representable)
    ensures IsSpaces(space) && GoodElements(elements, representable)
    ensures TreeValue(TArray(space, elements), representable) == Array(ElementValues(elements, representable))
    ensures elements.NoElements? ==> ElementValues(elements, representable) == []
    ensures var text := TreeText(TArray(space, elements)) + s;
            text != [] && text[0] == '[' && text[1..] == if elements.NoElements? then space + ("]" + s) else ElementsText(elements) + s
  {
    hide ElementsText, IsSpaces;
    BodyText("[", if elements.NoElements? then space + "]" else ElementsText(elements), s);
    assert space + "]" + s == space + ("]" + s);
  }

  lemma ObjectParts(space: string, members: Members, s: string, representable: string -> bool)
    requires GoodTree(TObject(space, members), representable)
    ensures IsSpaces(space) && GoodMembers(members, {}, representable)
    ensures TreeValue(TObject(space, members), representable) == Object(MemberValues(members, {}, representable))
    ensures members.NoMembers? ==> MemberValues(members, {}, representable) == map[]
    ensures var text := TreeText(TObject(space, members)) + s;
            text != [] && text[0] == '{' && text[1..] == if members.NoMembers? then space + ("}" + s) else MembersText(members) + s
  {
    hide MembersText, IsSpaces;
    BodyText("{", if members.NoMembers? then space + "}" else MembersText(members), s);
    assert space + "}" + s == space + ("}" + s);
  }

  lemma {:induction false} ArrayRead(space: string, elements: Elements, s: string, representable: string -> bool)
    requires GoodTree(TArray(space, elements), representable)
    ensures Reads(TArray(space, elements), s, representable)
    decreases elements, 1
  {
    hide ParseValue, ParseItems, SkipSpace, ElementsText, GoodElements, ElementValues, TreeText, TreeValue, GoodTree, IsSpaces;
    TreeUnspaced(TArray(space, elements), s, representable);
    ArrayParts(space, elements, s, representable);
    OpenBracket(TreeText(TArray(space, elements)) + s, representable);
    if elements.NoElements? {
      SkipSpaces(space, "]" + s);
      assert ("]" + s)[1..] == s;
    } else {
      ElementsStart(elements, s, representable);
      ElementsRead(elements, [], s, representable);
      assert [] + ElementValues(elements, representable) == ElementValues(elements, representable);
    }
  }

  lemma {:induction false} ObjectRead(space: string, members: Members, s: string, representable: string -> bool)
    requires GoodTree(TObject(space, members), representable)
    ensures Reads(TObject(space, members), s, representable)
    decreases members, 1
  {
    hide ParseValue, ParseMembers, SkipSpace, MembersText, GoodMembers, MemberValues, TreeText, TreeValue, GoodTree, IsSpaces;
    TreeUnspaced(TObject(space, members), s, representable);
    ObjectParts(space, members, s, representable);
    OpenBrace(TreeText(TObject(space, members)) + s, representable);
    if members.NoMembers? {
      SkipSpaces(space, "}" + s);
      assert ("}" + s)[1..] == s;
    } else {
      MembersStartGood(members, s, representable);
      var none: map<string, Value> := map[];
      assert none.Keys == {};
      MembersRead(members, none, s, representable);
      assert none + MemberValues(members, {}, representable) == MemberValues(members, {}, representable);
    }
  }

  lemma MembersStartGood(ms: Members, s: string, representable: string -> bool)
    requires ms.Member? && GoodMembers(ms, {}, representable)
    ensures var t := SkipSpace(MembersText(ms) + s); t != [] && t[0] != '}'
  {
    hide SkipSpace, MembersText;
    MembersStart(ms, s, representable);
  }

  // ---- documents

  /** s is a tree with spaces around it. */
  ghost predicate IsText(s: string, before: string, t: Tree, after: string, representable: string -> bool) {
    IsSpaces(before) && GoodTree(t, representable) && IsSpaces(after) && s == before + (TreeText(t) + after)
  }

  /** Every text of the grammar is accepted, with the value its tree denotes. */
  lemma DocumentRead(s: string, before: string, t: Tree, after: string, representable: string -> bool)
    requires IsText(s, before, t, after, representable)
    ensures ParseDocument(s, representable) == Ok(TreeValue(t, representable))
  {
    hide ParseValue, TreeText, TreeValue, GoodTree, IsSpaces;
    SpaceThen(before, t, after, representable);
    SpacesEndNumber(after);
    TreeRead(t, after, representable);
    SkipSpaces(after, []);
    assert after + [] == after;
  }

  lemma SpacesEndNumber(w: string)
    requires IsSpaces(w)
    ensures EndsNumber(w)
  {
  }
}
