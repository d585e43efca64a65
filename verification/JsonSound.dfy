/** Whatever the reader accepts is a text of the grammar. */
module JsonSound {
  import opened Wrappers
  import opened Text
  import opened Json
  import opened JsonGrammar

  lemma HeadTail(s: string)
    requires s != []
    ensures s == [s[0]] + s[1..]
  {
  }

  lemma Reassociate(a: string, b: string, c: string)
    ensures a + b + c == a + (b + c)
  {
  }

  lemma SkipHead(s: string)
    ensures s != [] && IsSpace(s[0]) ==> SkipSpace(s) == SkipSpace(s[1..])
    ensures s == [] || !IsSpace(s[0]) ==> SkipSpace(s) == s
  {
  }

  lemma {:induction false} SpaceSplit(s: string) returns (w: string)
    ensures IsSpaces(w) && s == w + SkipSpace(s)
  {
    hide SkipSpace;
    SkipHead(s);
    if s == [] || !IsSpace(s[0]) {
      w := [];
    } else {
      var v := SpaceSplit(s[1..]);
      w := [s[0]] + v;
      HeadTail(s);
      Reassociate([s[0]], v, SkipSpace(s[1..]));
    }
  }

  lemma {:induction false} HexTake(s: string, n: nat, acc: nat)
    requires n <= |s| && HexDigits(s, n, acc).Ok?
    ensures HexDigits(s[..n], n, acc) == Ok((HexDigits(s, n, acc).value.0, []))
  {
    if n > 0 {
      assert s[..n][1..] == s[1..][..n - 1];
      HexTake(s[1..], n - 1, acc * 16 + HexValue(s[0]).value);
    }
  }

  lemma QuadSound(s: string)
    requires HexQuad(s).Ok?
    ensures IsQuad(s[..4]) && QuadValue(s[..4]) == HexQuad(s).value.0 && s == s[..4] + HexQuad(s).value.1
  {
    HexTake(s, 4, 0);
  }

  lemma PairSplit(s: string, high: string, q: string, low: string, rest: string)
    requires s == "u" + (high + q) && q == "\\u" + (low + rest)
    ensures "\\" + s == PieceText(Pair(high, low)) + rest
  {
    assert "\\" + s == "\\u" + high + "\\u" + low + rest;
  }

  lemma UnicodeSplit(s: string, hex: string, rest: string)
    requires s == "u" + (hex + rest)
    ensures "\\" + s == PieceText(Unicode(hex)) + rest
  {
    assert "\\" + s == "\\u" + hex + rest;
  }

  /** What an escape that starts with u comes to. */
  lemma UnicodeCases(s: string)
    requires Escape(s).Ok? && s[0] == 'u'
    ensures HexQuad(s[1..]).Ok?
    ensures var quad := HexQuad(s[1..]).value;
            quad.0 < 0x10000 && CodePoint(quad.0, quad.1).Ok? &&
            Escape(s).value == (Utf8(CodePoint(quad.0, quad.1).value.0), CodePoint(quad.0, quad.1).value.1)
  {
    hide HexDigits, CodePoint, Utf8, ShortEscape;
    if HexQuad(s[1..]).Ok? { HexBound(s[1..], 4, 0, 0x10000); }
  }

  lemma PairCases(first: nat, q: string)
    requires 0xd800 <= first <= 0xdbff && CodePoint(first, q).Ok?
    ensures |q| >= 2 && q == "\\u" + q[2..] && HexQuad(q[2..]).Ok?
    ensures var low := HexQuad(q[2..]).value;
            0xdc00 <= low.0 <= 0xdfff
            && CodePoint(first, q).value == (0x10000 + (first - 0xd800) * 0x400 + (low.0 - 0xdc00), low.1)
  {
    hide HexQuad;
    assert q == q[..2] + q[2..];
  }

  lemma UnicodeSound(s: string) returns (p: Piece)
    requires Escape(s).Ok? && s[0] == 'u'
    ensures GoodPiece(p) && PieceValue(p) == Escape(s).value.0 && "\\" + s == PieceText(p) + Escape(s).value.1
  {
    hide Escape, HexQuad, IsQuad, Utf8, QuadValue, ShortEscape, PieceText, CodePoint;
    UnicodeCases(s);
    QuadSound(s[1..]);
    var hex := s[1..][..4];
    var quad := HexQuad(s[1..]).value;
    HeadTail(s);
    if 0xd800 <= quad.0 <= 0xdbff {
      PairCases(quad.0, quad.1);
      QuadSound(quad.1[2..]);
      var low := quad.1[2..][..4];
      p := Pair(hex, low);
      PairSplit(s, hex, quad.1, low, HexQuad(quad.1[2..]).value.1);
    } else {
      p := Unicode(hex);
      assert CodePoint(quad.0, quad.1) == Ok((quad.0, quad.1)) by { SinglePoint(quad.0, quad.1); }
      UnicodeSplit(s, hex, quad.1);
    }
  }

  lemma SinglePoint(first: nat, q: string)
    requires first < 0x10000 && !(0xd800 <= first <= 0xdbff)
    ensures CodePoint(first, q) == Ok((first, q))
  {
  }

  lemma EscapeSound(s: string) returns (p: Piece)
    requires Escape(s).Ok?
    ensures GoodPiece(p) && PieceValue(p) == Escape(s).value.0 && "\\" + s == PieceText(p) + Escape(s).value.1
  {
    hide HexQuad, CodePoint, Utf8, IsQuad, QuadValue;
    if s[0] == 'u' {
      p := UnicodeSound(s);
    } else {
      p := Short(s[0]);
      assert "\\" + s == ['\\', s[0]] + s[1..];
    }
  }

  lemma {:induction false} CharsSound(s: string, acc: string) returns (ps: seq<Piece>)
    requires Chars(s, acc).Ok?
    ensures GoodPieces(ps) && Chars(s, acc).value.0 == acc + PiecesValue(ps)
    ensures s == PiecesText(ps) + ("\"" + Chars(s, acc).value.1)
    decreases |s|
  {
    hide Escape, GoodPiece, PieceText, PieceValue;
    var rest := Chars(s, acc).value.1;
    if s[0] == '"' {
      ps := [];
      assert s == "\"" + s[1..];
      assert PiecesText(ps) + ("\"" + rest) == "\"" + rest;
      assert acc + [] == acc;
    } else {
      var p: Piece, next: string;
      if s[0] != '\\' {
        p, next := Plain(s[0]), s[1..];
        PlainFacts(s[0]);
        assert s == [s[0]] + s[1..];
      } else {
        p := EscapeSound(s[1..]);
        next := Escape(s[1..]).value.1;
        assert s == "\\" + s[1..];
      }
      var more := CharsSound(next, acc + PieceValue(p));
      ps := [p] + more;
      assert ps[1..] == more;
      assert s == PieceText(p) + next;
      assert PiecesText(ps) + ("\"" + rest) == PieceText(p) + (PiecesText(more) + ("\"" + rest));
      assert acc + PieceValue(p) + PiecesValue(more) == acc + PiecesValue(ps);
    }
  }

  lemma PlainFacts(c: char)
    requires c != '"' && c != '\\' && c >= ' '
    ensures GoodPiece(Plain(c)) && PieceText(Plain(c)) == [c] && PieceValue(Plain(c)) == [c]
  {
  }

  lemma StringSound(s: string) returns (ps: seq<Piece>)
    requires ParseString(s).Ok?
    ensures GoodPieces(ps) && ParseString(s).value.0 == PiecesValue(ps) && s == QuotedText(ps) + ParseString(s).value.1
  {
    hide Chars, PiecesText, PiecesValue, GoodPieces;
    ps := CharsSound(s[1..], []);
    var rest := ParseString(s).value.1;
    assert s == "\"" + s[1..];
    assert "\"" + (PiecesText(ps) + ("\"" + rest)) == QuotedText(ps) + rest;
    assert [] + PiecesValue(ps) == PiecesValue(ps);
  }

  // ---- numbers

  lemma SpanDigits(s: string, i: nat)
    requires i < |s| && IsDigit(s[i])
    ensures SomeDigits(s[i..i + DigitSpan(s[i..])])
  {
    var n := DigitSpan(s[i..]);
    assert s[i..i + n] == s[i..][..n];
    assert s[i..][0] == s[i];
  }

  lemma WholeSound(s: string, i: nat)
    requires i <= |s| && WholeEnd(s, i).Ok?
    ensures var w := s[i..WholeEnd(s, i).value]; SomeDigits(w) && (w[0] == '0' ==> |w| == 1)
  {
    if i < |s| && s[i] == '0' {
      assert s[i..i + 1] == "0";
    } else {
      SpanDigits(s, i);
    }
  }

  lemma FractionSound(s: string, i: nat) returns (f: Option<string>)
    requires i <= |s| && FractionEnd(s, i).Ok?
    ensures (f.Some? ==> SomeDigits(f.value)) && s[i..FractionEnd(s, i).value] == FractionText(f)
  {
    if i < |s| && s[i] == '.' {
      SpanDigits(s, i + 1);
      f := Some(s[i + 1..FractionEnd(s, i).value]);
      assert s[i..FractionEnd(s, i).value] == "." + f.value;
    } else {
      f := None;
    }
  }

  lemma ExponentSound(s: string, i: nat) returns (e: Option<Exponent>)
    requires i <= |s| && ExponentEnd(s, i).Ok?
    ensures (e.Some? ==> GoodExponent(e.value)) && s[i..ExponentEnd(s, i).value] == ExponentText(e)
  {
    if i < |s| && (s[i] == 'e' || s[i] == 'E') {
      var signed := i + 1 < |s| && (s[i + 1] == '+' || s[i + 1] == '-');
      var j := if signed then i + 2 else i + 1;
      var k := ExponentEnd(s, i).value;
      SpanDigits(s, j);
      e := Some(Exponent(s[i], s[i + 1..j], s[j..k]));
      assert signed ==> s[i + 1..j] == [s[i + 1]];
      assert s[i..k] == [s[i]] + s[i + 1..j] + s[j..k];
    } else {
      e := None;
    }
  }

  lemma NumeralSound(s: string) returns (n: Numeral)
    requires NumberEnd(s).Ok?
    ensures GoodNumeral(n) && s[..NumberEnd(s).value] == NumeralText(n)
  {
    hide WholeEnd, FractionEnd, ExponentEnd, GoodExponent, FractionText, ExponentText, SomeDigits;
    var negative := Starts(s, '-');
    var i := if negative then 1 else 0;
    var j := WholeEnd(s, i).value;
    var k := FractionEnd(s, j).value;
    var m := ExponentEnd(s, k).value;
    WholeSound(s, i);
    var f := FractionSound(s, j);
    var e := ExponentSound(s, k);
    n := Numeral(negative, s[i..j], f, e);
    if negative {
      assert s[..i] == "-";
    } else {
      assert s[..i] == [];
    }
    FourSlices(s, i, j, k, m);
  }

  lemma FourSlices(s: string, i: nat, j: nat, k: nat, m: nat)
    requires i <= j <= k <= m <= |s|
    ensures s[..m] == s[..i] + (s[i..j] + (s[j..k] + s[k..m]))
  {
  }

  // ---- values

  /** The tree accounts for the input up to rest, and denotes v. */
  ghost predicate Spells(s: string, t: Tree, v: Value, rest: string, representable: string -> bool) {
    GoodTree(t, representable) && s == TreeText(t) + rest && v == TreeValue(t, representable)
  }

  lemma WordSound(s: string, word: string, t: Tree, v: Value, representable: string -> bool)
    requires word != [] && Literal(s, word, v).Ok? && GoodTree(t, representable)
    requires TreeText(t) == word && TreeValue(t, representable) == v
    ensures Literal(s, word, v).value.0 == v
    ensures Spells(s, t, v, Literal(s, word, v).value.1, representable)
  {
    hide GoodTree, TreeText, TreeValue;
  }

  lemma NumberSound(s: string, representable: string -> bool) returns (t: Tree)
    requires ParseNumber(s, representable).Ok?
    ensures var r := ParseNumber(s, representable).value; Spells(s, t, r.0, r.1, representable)
  {
    hide NumberEnd, NumeralText, GoodNumeral;
    var n := NumeralSound(s);
    t := TNumber(n);
    assert s == s[..NumberEnd(s).value] + s[NumberEnd(s).value..];
  }

  lemma TextSound(s: string, representable: string -> bool) returns (t: Tree)
    requires ParseString(s).Ok?
    ensures var r := ParseString(s).value; Spells(s, t, Str(r.0), r.1, representable)
  {
    hide ParseString, QuotedText, GoodPieces, PiecesValue;
    var ps := StringSound(s);
    t := TString(ps);
  }

  /** How the first byte decides what is read. */
  lemma ValueCases(s: string, representable: string -> bool)
    requires SkipSpace(s) == s && ParseValue(s, representable).Ok?
    ensures s != []
    ensures var r := ParseValue(s, representable);
            match s[0]
            case 'n' => r == Literal(s, "null", Null)
            case 't' => r == Literal(s, "true", Bool(true))
            case 'f' => r == Literal(s, "false", Bool(false))
            case '"' => ParseString(s).Ok? && r == Ok((Str(ParseString(s).value.0), ParseString(s).value.1))
            case '[' => true
            case '{' => true
            case _ => r == ParseNumber(s, representable)
  {
    hide Literal, ParseNumber, ParseString, ParseItems, ParseMembers, SkipSpace;
  }

  lemma {:induction false} UnspacedSound(s: string, representable: string -> bool) returns (t: Tree)
    requires SkipSpace(s) == s && ParseValue(s, representable).Ok?
    ensures var r := ParseValue(s, representable).value; Spells(s, t, r.0, r.1, representable)
    decreases |s|, 2
  {
    hide Literal, ParseValue, ParseNumber, ParseString, SkipSpace, Spells;
    ValueCases(s, representable);
    match s[0] {
      case 'n' => t := TNull; WordSound(s, "null", t, Null, representable);
      case 't' => t := TTrue; WordSound(s, "true", t, Bool(true), representable);
      case 'f' => t := TFalse; WordSound(s, "false", t, Bool(false), representable);
      case '"' => t := TextSound(s, representable);
      case '[' => t := ArraySound(s, representable);
      case '{' => t := ObjectSound(s, representable);
      case _ => t := NumberSound(s, representable);
    }
  }

  lemma {:induction false} ValueSound(s: string, representable: string -> bool) returns (w: string, t: Tree)
    requires ParseValue(s, representable).Ok?
    ensures IsSpaces(w) && s == w + SkipSpace(s)
    ensures var r := ParseValue(s, representable).value; Spells(SkipSpace(s), t, r.0, r.1, representable)
    decreases |s|, 3
  {
    hide ParseValue, SkipSpace, IsSpaces, Spells;
    w := SpaceSplit(s);
    SpacesSkipped(s);
    ValueSkips(s, SkipSpace(s), representable);
    t := UnspacedSound(SkipSpace(s), representable);
  }

  lemma SpacesSkipped(s: string)
    ensures |SkipSpace(s)| <= |s|
    ensures SkipSpace(SkipSpace(s)) == SkipSpace(s)
  {
  }

  ghost predicate SpellsElements(s: string, es: Elements, acc: seq<Value>, r: Parsed<Value>, representable: string -> bool) {
    r.Ok? && es.Element? && GoodElements(es, representable) && s == ElementsText(es) + r.value.1
    && r.value.0 == Array(acc + ElementValues(es, representable))
  }

  /** One element in front of those already accounted for. */
  lemma ElementsCons(w: string, t: Tree, a: string, more: Elements, acc: seq<Value>, s: string, u: string,
                     r: Parsed<Value>, representable: string -> bool)
    requires IsSpaces(w) && IsSpaces(a) && GoodTree(t, representable) && r.Ok?
    requires s == w + (TreeText(t) + (a + u)) && u != []
    requires more.NoElements? ==> u == "]" + r.value.1 && r.value.0 == Array(acc + [TreeValue(t, representable)])
    requires more.Element? ==> u[0] == ',' && SpellsElements(u[1..], more, acc + [TreeValue(t, representable)], r, representable)
    ensures SpellsElements(s, Element(w, t, a, more), acc, r, representable)
  {
    hide TreeText, TreeValue, GoodTree, IsSpaces, ElementsText, ElementsTail, ElementValues;
    var es := Element(w, t, a, more);
    TailIs(more, u, r.value.1);
    ElementText(es, r.value.1);
    ElementValuesNext(es, acc, representable);
    NoElementValues(representable);
  }

  lemma NoElementValues(representable: string -> bool)
    ensures ElementValues(NoElements, representable) == []
  {
  }

  lemma TailIs(more: Elements, u: string, rest: string)
    requires u != [] && (more.NoElements? ==> u == "]" + rest)
    requires more.Element? ==> u[0] == ',' && u[1..] == ElementsText(more) + rest
    ensures u == ElementsTail(more) + rest
  {
    hide ElementsText;
    HeadTail(u);
    if more.Element? { Reassociate(",", ElementsText(more), rest); }
  }

  /** The steps of reading one element. */
  lemma ItemCases(s: string, acc: seq<Value>, representable: string -> bool)
    requires ParseItems(s, acc, representable).Ok?
    ensures ParseValue(s, representable).Ok?
    ensures var u := SkipSpace(ParseValue(s, representable).value.1); Starts(u, ']') || Starts(u, ',')
  {
    hide ParseValue, SkipSpace;
  }

  lemma {:induction false} ItemsSound(s: string, acc: seq<Value>, representable: string -> bool) returns (es: Elements)
    requires ParseItems(SkipSpace(s), acc, representable).Ok?
    ensures SpellsElements(s, es, acc, ParseItems(SkipSpace(s), acc, representable), representable)
    decreases |s|, 4
  {
    hide ParseItems, ParseValue, SkipSpace, IsSpaces, TreeText, TreeValue, GoodTree, SpellsElements;
    ItemCases(SkipSpace(s), acc, representable);
    SpacesSkipped(s);
    ValueSkips(s, SkipSpace(s), representable);
    var w, t := ValueSound(s, representable);
    var item := ParseValue(s, representable).value;
    var a := SpaceSplit(item.1);
    var u := SkipSpace(item.1);
    var items := acc + [item.0];
    assert s == w + (TreeText(t) + (a + u));
    SpacesSkipped(item.1);
    var r := ParseItems(SkipSpace(s), acc, representable);
    ItemsUnfold(SkipSpace(s), acc, item.0, item.1, representable);
    HeadTail(u);
    if Starts(u, ']') {
      es := Element(w, t, a, NoElements);
      ElementsCons(w, t, a, NoElements, acc, s, u, r, representable);
    } else {
      var more := ItemsSound(u[1..], items, representable);
      es := Element(w, t, a, more);
      ElementsCons(w, t, a, more, acc, s, u, r, representable) by { SpellsElement(u[1..], more, items, r, representable); }
    }
  }

  lemma SpellsElement(s: string, es: Elements, acc: seq<Value>, r: Parsed<Value>, representable: string -> bool)
    requires SpellsElements(s, es, acc, r, representable)
    ensures es.Element?
  {
  }

  lemma {:induction false} ArraySound(s: string, representable: string -> bool) returns (t: Tree)
    requires s != [] && s[0] == '[' && SkipSpace(s) == s && ParseValue(s, representable).Ok?
    ensures var r := ParseValue(s, representable).value; Spells(s, t, r.0, r.1, representable)
    decreases |s|, 1
  {
    hide ParseValue, ParseItems, SkipSpace;
    OpenBracket(s, representable);
    var w := SpaceSplit(s[1..]);
    var u := SkipSpace(s[1..]);
    var rest := ParseValue(s, representable).value.1;
    assert s == "[" + s[1..];
    if Starts(u, ']') {
      t := TArray(w, NoElements);
      assert u == "]" + u[1..];
      ArrayParts(w, NoElements, rest, representable);
      assert s == TreeText(t) + rest;
    } else {
      var es := ItemsSound(s[1..], [], representable);
      t := TArray([], es);
      assert s == TreeText(t) + rest;
      assert [] + ElementValues(es, representable) == ElementValues(es, representable);
    }
  }

  // ---- objects

  ghost predicate SpellsMembers(s: string, ms: Members, acc: map<string, Value>, r: Parsed<Value>, representable: string -> bool) {
    r.Ok? && ms.Member? && GoodMembers(ms, acc.Keys, representable) && s == MembersText(ms) + r.value.1
    && r.value.0 == Object(acc + MemberValues(ms, acc.Keys, representable))
  }

  lemma SpellsMember(s: string, ms: Members, acc: map<string, Value>, r: Parsed<Value>, representable: string -> bool)
    requires SpellsMembers(s, ms, acc, r, representable)
    ensures ms.Member?
  {
  }

  /** The member built from its parts. */
  lemma MembersCons(m: Members, acc: map<string, Value>, s: string, u: string, r: Parsed<Value>, representable: string -> bool)
    requires m.Member? && IsSpaces(m.before) && GoodPieces(m.key) && IsSpaces(m.beforeColon) && IsSpaces(m.afterColon)
    requires GoodTree(m.value, representable) && IsSpaces(m.after) && r.Ok? && u != []
    requires PiecesValue(m.key) !in acc
    requires s == m.before + (QuotedText(m.key) + (m.beforeColon + (":" + (m.afterColon + (TreeText(m.value) + (m.after + u))))))
    requires var fields := acc[PiecesValue(m.key) := TreeValue(m.value, representable)];
             && (m.rest.NoMembers? ==> u == "}" + r.value.1 && r.value.0 == Object(fields))
             && (m.rest.Member? ==> u[0] == ',' && SpellsMembers(u[1..], m.rest, fields, r, representable))
    ensures SpellsMembers(s, m, acc, r, representable)
  {
    hide TreeText, TreeValue, GoodTree, IsSpaces, QuotedText, PiecesValue, GoodPieces, MembersText, MembersTail, MemberValues;
    MemberTailIs(m.rest, u, r.value.1);
    MemberText(m, r.value.1);
    var fields := acc[PiecesValue(m.key) := TreeValue(m.value, representable)];
    assert fields.Keys == acc.Keys + {PiecesValue(m.key)};
    MemberFacts(m, acc, r.value.1, representable);
    NoMemberValues(fields, representable);
  }

  lemma NoMemberValues(fields: map<string, Value>, representable: string -> bool)
    ensures fields + MemberValues(NoMembers, fields.Keys, representable) == fields
  {
  }

  lemma MemberTailIs(more: Members, u: string, rest: string)
    requires u != [] && (more.NoMembers? ==> u == "}" + rest)
    requires more.Member? ==> u[0] == ',' && u[1..] == MembersText(more) + rest
    ensures u == MembersTail(more) + rest
  {
    hide MembersText;
    HeadTail(u);
    if more.Member? { Reassociate(",", MembersText(more), rest); }
  }

  /** The steps of reading one member. */
  lemma MemberCases(s: string, acc: map<string, Value>, representable: string -> bool)
    requires ParseMembers(s, acc, representable).Ok?
    ensures ParseString(s).Ok?
    ensures var key := ParseString(s).value;
            var t := SkipSpace(key.1);
            && Starts(t, ':') && ParseValue(SkipSpace(t[1..]), representable).Ok? && key.0 !in acc
            && ParseMembers(s, acc, representable) ==
                 AfterMember(ParseValue(SkipSpace(t[1..]), representable).value, key.0, acc, representable)
  {
    hide ParseValue, ParseString, SkipSpace;
  }

  function AfterMember(item: (Value, string), key: string, acc: map<string, Value>, representable: string -> bool): Parsed<Value> {
    var fields, u := acc[key := item.0], SkipSpace(item.1);
    if Starts(u, '}') then Ok((Object(fields), u[1..]))
    else if !Starts(u, ',') then Fail(Expected(','), u)
    else ParseMembers(SkipSpace(u[1..]), fields, representable)
  }

  /** The parts of one member that was read, and what follows it. */
  datatype Read = Read(before: string, key: seq<Piece>, beforeColon: string, afterColon: string, value: Tree, after: string, u: string)

  /** s starts with the member. */
  ghost predicate ReadAs(s: string, m: Read, representable: string -> bool) {
    && IsSpaces(m.before) && GoodPieces(m.key) && IsSpaces(m.beforeColon) && IsSpaces(m.afterColon)
    && GoodTree(m.value, representable) && IsSpaces(m.after)
    && s == m.before + (QuotedText(m.key) + (m.beforeColon + (":" + (m.afterColon + (TreeText(m.value) + (m.after + m.u))))))
  }

  lemma {:induction false} MemberSound(s: string, acc: map<string, Value>, representable: string -> bool) returns (m: Read)
    requires ParseMembers(SkipSpace(s), acc, representable).Ok?
    ensures ReadAs(s, m, representable) && PiecesValue(m.key) !in acc && |m.u| < |s|
    ensures ParseMembers(SkipSpace(s), acc, representable) ==
      AfterMember((TreeValue(m.value, representable), m.after + m.u), PiecesValue(m.key), acc, representable)
    ensures m.u == SkipSpace(m.after + m.u)
    decreases |s|, 4
  {
    hide ParseMembers, ParseValue, ParseString, SkipSpace, IsSpaces, TreeText, TreeValue, GoodTree, QuotedText, PiecesValue, GoodPieces;
    hide AfterMember, IsSpace;
    MemberCases(SkipSpace(s), acc, representable);
    SpacesSkipped(s);
    var before := SpaceSplit(s);
    var key := StringSound(SkipSpace(s));
    var afterKey := ParseString(SkipSpace(s)).value.1;
    var beforeColon := SpaceSplit(afterKey);
    var t := SkipSpace(afterKey);
    HeadTail(t);
    SpacesSkipped(afterKey);
    SpacesSkipped(t[1..]);
    ValueSkips(t[1..], SkipSpace(t[1..]), representable);
    var afterColon, value := ValueSound(t[1..], representable);
    var item := ParseValue(t[1..], representable).value;
    var after := SpaceSplit(item.1);
    SpacesSkipped(item.1);
    m := Read(before, key, beforeColon, afterColon, value, after, SkipSpace(item.1));
  }

  lemma {:induction false} MembersSound(s: string, acc: map<string, Value>, representable: string -> bool) returns (ms: Members)
    requires ParseMembers(SkipSpace(s), acc, representable).Ok?
    ensures SpellsMembers(s, ms, acc, ParseMembers(SkipSpace(s), acc, representable), representable)
    decreases |s|, 5
  {
    hide ParseMembers, SkipSpace, IsSpaces, TreeText, TreeValue, GoodTree, SpellsMembers, QuotedText, PiecesValue, GoodPieces;
    var r := ParseMembers(SkipSpace(s), acc, representable);
    var m := MemberSound(s, acc, representable);
    HeadTail(m.u);
    if Starts(m.u, '}') {
      ms := Member(m.before, m.key, m.beforeColon, m.afterColon, m.value, m.after, NoMembers);
      MembersCons(ms, acc, s, m.u, r, representable);
    } else {
      var fields := acc[PiecesValue(m.key) := TreeValue(m.value, representable)];
      var more := MembersSound(m.u[1..], fields, representable);
      SpellsMember(m.u[1..], more, fields, r, representable);
      ms := Member(m.before, m.key, m.beforeColon, m.afterColon, m.value, m.after, more);
      MembersCons(ms, acc, s, m.u, r, representable);
    }
  }

  lemma {:induction false} ObjectSound(s: string, representable: string -> bool) returns (t: Tree)
    requires s != [] && s[0] == '{' && SkipSpace(s) == s && ParseValue(s, representable).Ok?
    ensures var r := ParseValue(s, representable).value; Spells(s, t, r.0, r.1, representable)
    decreases |s|, 1
  {
    hide ParseValue, ParseMembers, SkipSpace, MembersText;
    OpenBrace(s, representable);
    var w := SpaceSplit(s[1..]);
    var u := SkipSpace(s[1..]);
    var rest := ParseValue(s, representable).value.1;
    assert s == "{" + s[1..];
    var none: map<string, Value> := map[];
    assert none.Keys == {};
    if Starts(u, '}') {
      t := TObject(w, NoMembers);
      assert u == "}" + u[1..];
      ObjectParts(w, NoMembers, rest, representable);
      assert s == TreeText(t) + rest;
    } else {
      var ms := MembersSound(s[1..], none, representable);
      t := TObject([], ms);
      assert s == TreeText(t) + rest;
      assert none + MemberValues(ms, {}, representable) == MemberValues(ms, {}, representable);
    }
  }

  // ---- documents

  /** What the reader accepts is a text of the grammar with distinct keys, and the value is
      the one its tree denotes. */
  lemma DocumentSound(s: string, representable: string -> bool) returns (before: string, t: Tree, after: string)
    requires ParseDocument(s, representable).Ok?
    ensures IsText(s, before, t, after, representable)
    ensures ParseDocument(s, representable) == Ok(TreeValue(t, representable))
  {
    hide ParseValue, SkipSpace, TreeText, TreeValue, GoodTree, IsSpaces;
    SpacesSkipped(s);
    ValueSkips(s, SkipSpace(s), representable);
    before, t := ValueSound(s, representable);
    after := SpaceSplit(ParseValue(s, representable).value.1);
  }

  ghost predicate InGrammar(s: string, v: Value, representable: string -> bool) {
    exists before, t, after :: IsText(s, before, t, after, representable) && TreeValue(t, representable) == v
  }

  /** The reader decides the grammar: it returns v exactly for the texts that denote v. */
  lemma ParseIffGrammar(s: string, v: Value, representable: string -> bool)
    ensures ParseDocument(s, representable) == Ok(v) <==> InGrammar(s, v, representable)
  {
    hide ParseDocument, TreeValue, GoodTree;
    if ParseDocument(s, representable) == Ok(v) {
      var before, t, after := DocumentSound(s, representable);
    }
    if InGrammar(s, v, representable) {
      var before, t, after :| IsText(s, before, t, after, representable) && TreeValue(t, representable) == v;
      DocumentRead(s, before, t, after, representable);
    }
  }
}
