/** Writing strings, and the encoding of escaped code points. */
module JsonText {
  import opened Wrappers
  import opened Text
  import opened Json
  import opened JsonGrammar

  const HEX := "0123456789abcdef"

  /** How one byte is written inside a quoted string. */
  function EscapeByte(c: char): string {
    match c
    case '"' => "\\\""
    case '\\' => "\\\\"
    case '\n' => "\\n"
    case '\r' => "\\r"
    case '\t' => "\\t"
    case _ =>
      if c as int == 8 then "\\b"
      else if c as int == 12 then "\\f"
      else if c < ' ' then "\\u00" + [HEX[c as int / 16], HEX[c as int % 16]]
      else [c]
  }

  function Escaped(s: string): string {
    if s == [] then [] else Escaped(s[..|s| - 1]) + EscapeByte(s[|s| - 1])
  }

  function Quoted(s: string): string {
    "\"" + Escaped(s) + "\""
  }

  /** Writes byte after byte to the output. */
  method EscapeString(input: string) returns (output: string)
    ensures output == Escaped(input)
  {
    output := [];
    for i := 0 to |input|
      invariant output == Escaped(input[..i])
    {
      assert input[..i + 1][..i] == input[..i];
      output := output + EscapeByte(input[i]);
    }
    assert input[..|input|] == input;
  }

  // ---- reading back what was written

  function BytePiece(c: char): Piece {
    match c
    case '"' => Short('"')
    case '\\' => Short('\\')
    case '\n' => Short('n')
    case '\r' => Short('r')
    case '\t' => Short('t')
    case _ =>
      if c as int == 8 then Short('b')
      else if c as int == 12 then Short('f')
      else if c < ' ' then Unicode("00" + [HEX[c as int / 16], HEX[c as int % 16]])
      else Plain(c)
  }

  lemma ControlQuad(n: nat)
    requires n < 32
    ensures IsQuad("00" + [HEX[n / 16], HEX[n % 16]]) && QuadValue("00" + [HEX[n / 16], HEX[n % 16]]) == n
  {
    var q := "00" + [HEX[n / 16], HEX[n % 16]];
    assert HexValue(q[2]) == Some(n / 16) && HexValue(q[3]) == Some(n % 16);
    assert HexDigits(q[3..], 1, n / 16) == Ok((n, [])) by {
      assert q[3..][1..] == [];
      assert HexDigits([], 0, n) == Ok((n, []));
    }
    assert q[2..][1..] == q[3..] && q[1..][1..] == q[2..];
    assert HexDigits(q[2..], 2, 0) == HexDigits(q[3..], 1, n / 16);
    assert HexDigits(q[1..], 3, 0) == HexDigits(q[2..], 2, 0);
    assert HexDigits(q, 4, 0) == HexDigits(q[1..], 3, 0);
  }

  lemma BytePieceSpec(c: char)
    ensures GoodPiece(BytePiece(c)) && PieceText(BytePiece(c)) == EscapeByte(c) && PieceValue(BytePiece(c)) == [c]
  {
    if c < ' ' {
      ControlQuad(c as int);
      hide IsQuad, QuadValue, HexQuad, HexDigits;
    } else {
      hide IsQuad, QuadValue, HexQuad, HexDigits, Utf8;
    }
  }

  function BytePieces(s: string): seq<Piece> {
    seq(|s|, i requires 0 <= i < |s| => BytePiece(s[i]))
  }

  lemma {:induction false} PiecesAppend(ps: seq<Piece>, p: Piece)
    requires GoodPieces(ps) && GoodPiece(p)
    ensures GoodPieces(ps + [p])
    ensures PiecesText(ps + [p]) == PiecesText(ps) + PieceText(p)
    ensures PiecesValue(ps + [p]) == PiecesValue(ps) + PieceValue(p)
  {
    hide GoodPiece, PieceText, PieceValue;
    if ps == [] {
      assert [] + [p] == [p];
      assert PiecesText([p]) == PieceText(p) + PiecesText([]);
      assert PiecesValue([p]) == PieceValue(p) + PiecesValue([]);
    } else {
      PiecesAppend(ps[1..], p);
      assert (ps + [p])[1..] == ps[1..] + [p];
    }
  }

  /** The written form of a string is a well-formed sequence of pieces that denotes it. */
  lemma {:induction false} EscapedSpec(s: string)
    ensures GoodPieces(BytePieces(s)) && PiecesText(BytePieces(s)) == Escaped(s) && PiecesValue(BytePieces(s)) == s
  {
    hide GoodPiece, PieceText, PieceValue, BytePiece, EscapeByte;
    if s != [] {
      var init, last := s[..|s| - 1], s[|s| - 1];
      EscapedSpec(init);
      BytePieceSpec(last);
      PiecesAppend(BytePieces(init), BytePiece(last));
      assert BytePieces(s) == BytePieces(init) + [BytePiece(last)];
    }
  }

  /** Reading a written string gives back the string, whatever bytes it holds. */
  lemma EscapeRoundTrip(s: string, representable: string -> bool)
    ensures ParseDocument(Quoted(s), representable) == Ok(Str(s))
  {
    hide GoodPieces, PiecesText, PiecesValue, BytePieces, Escaped, ParseDocument;
    EscapedSpec(s);
    var t := TString(BytePieces(s));
    assert Quoted(s) == [] + (TreeText(t) + []);
    assert IsText(Quoted(s), [], t, [], representable);
    DocumentRead(Quoted(s), [], t, [], representable);
  }

  // ---- code points

  predicate IsScalar(cp: nat) {
    cp < 0xd800 || 0xe000 <= cp < 0x110000
  }

  predicate Continues(s: string, i: nat) {
    i < |s| && 0x80 <= s[i] as int < 0xc0
  }

  function Tail(s: string, i: nat): nat
    requires Continues(s, i)
  {
    s[i] as int - 0x80
  }

  /** Decodes the first code point of a UTF-8 string as section 3 of RFC 3629 defines it:
      only shortest forms, no surrogates, nothing above 0x10ffff. */
  function Utf8Decode(s: string): Option<(nat, string)> {
    if s == [] then None
    else
      var b := s[0] as int;
      if b < 0x80 then Some((b, s[1..]))
      else if 0xc0 <= b < 0xe0 && Continues(s, 1) then
        var cp := (b - 0xc0) * 0x40 + Tail(s, 1);
        if cp >= 0x80 then Some((cp, s[2..])) else None
      else if 0xe0 <= b < 0xf0 && Continues(s, 1) && Continues(s, 2) then
        var cp := (b - 0xe0) * 0x1000 + Tail(s, 1) * 0x40 + Tail(s, 2);
        if cp >= 0x800 && IsScalar(cp) then Some((cp, s[3..])) else None
      else if 0xf0 <= b < 0xf8 && Continues(s, 1) && Continues(s, 2) && Continues(s, 3) then
        var cp := (b - 0xf0) * 0x40000 + Tail(s, 1) * 0x1000 + Tail(s, 2) * 0x40 + Tail(s, 3);
        if 0x10000 <= cp && IsScalar(cp) then Some((cp, s[4..])) else None
      else None
  }

  lemma Utf8Short(cp: nat, rest: string)
    requires IsScalar(cp) && cp <= 0xffff
    ensures Utf8Decode(Utf8(cp) + rest) == Some((cp, rest))
  {
    var s := Utf8(cp) + rest;
    if cp <= 0x7f {
      assert s[1..] == rest;
    } else if cp <= 0x7ff {
      assert s[2..] == rest;
    } else {
      assert s[3..] == rest;
      assert cp == cp / 0x1000 * 0x1000 + cp / 0x40 % 0x40 * 0x40 + cp % 0x40;
    }
  }

  lemma Utf8Long(cp: nat, rest: string)
    requires IsScalar(cp) && cp > 0xffff
    ensures Utf8Decode(Utf8(cp) + rest) == Some((cp, rest))
  {
    var s := Utf8(cp) + rest;
    var b0, b1, b2, b3 := cp / 0x40000, cp / 0x1000 % 0x40, cp / 0x40 % 0x40, cp % 0x40;
    SixBitGroups(cp);
    assert s[4..] == rest;
    assert s[0] as int == 0xf0 + b0 && s[1] as int == 0x80 + b1 && s[2] as int == 0x80 + b2 && s[3] as int == 0x80 + b3;
    DecodeLong(s, b0, b1, b2, b3);
  }

  lemma SixBitGroups(cp: nat)
    requires cp < 0x110000
    ensures cp / 0x40000 < 8
    ensures cp == cp / 0x40000 * 0x40000 + cp / 0x1000 % 0x40 * 0x1000 + cp / 0x40 % 0x40 * 0x40 + cp % 0x40
  {
    var q := cp / 0x40;
    var r := q / 0x40;
    assert r == cp / 0x1000 && r / 0x40 == cp / 0x40000;
    assert cp == q * 0x40 + cp % 0x40 && q == r * 0x40 + q % 0x40 && r == r / 0x40 * 0x40 + r % 0x40;
  }

  lemma DecodeLong(s: string, b0: nat, b1: nat, b2: nat, b3: nat)
    requires |s| >= 4 && b0 < 8 && b1 < 0x40 && b2 < 0x40 && b3 < 0x40
    requires s[0] as int == 0xf0 + b0 && s[1] as int == 0x80 + b1 && s[2] as int == 0x80 + b2 && s[3] as int == 0x80 + b3
    ensures var cp := b0 * 0x40000 + b1 * 0x1000 + b2 * 0x40 + b3;
            0x10000 <= cp && IsScalar(cp) ==> Utf8Decode(s) == Some((cp, s[4..]))
  {
  }

  /** Every Unicode scalar value is written in its UTF-8 encoding. */
  lemma Utf8RoundTrip(cp: nat, rest: string)
    requires IsScalar(cp)
    ensures Utf8Decode(Utf8(cp) + rest) == Some((cp, rest))
  {
    if cp <= 0xffff {
      Utf8Short(cp, rest);
    } else {
      Utf8Long(cp, rest);
    }
  }

  /** The two UTF-16 code units of a scalar value above 0xffff. */
  function HighUnit(cp: nat): nat
    requires 0x10000 <= cp < 0x110000
  {
    0xd800 + (cp - 0x10000) / 0x400
  }

  function LowUnit(cp: nat): nat
    requires 0x10000 <= cp < 0x110000
  {
    0xdc00 + (cp - 0x10000) % 0x400
  }

  /** An escape for any scalar value is read as the UTF-8 encoding of that value, whether it is
      spelled with one quad or with a surrogate pair. */
  lemma EscapeDenotesScalar(cp: nat, p: Piece)
    requires IsScalar(cp)
    requires p.Unicode? || p.Pair?
    requires p.Unicode? ==> IsQuad(p.hex) && QuadValue(p.hex) == cp
    requires p.Pair? ==> 0x10000 <= cp && IsQuad(p.high) && IsQuad(p.low) && QuadValue(p.high) == HighUnit(cp) && QuadValue(p.low) == LowUnit(cp)
    ensures GoodPiece(p) && PieceValue(p) == Utf8(cp) && Utf8Decode(PieceValue(p)) == Some((cp, []))
  {
    hide IsQuad, QuadValue, Utf8, Utf8Decode;
    Utf8RoundTrip(cp, []);
    assert Utf8(cp) + [] == Utf8(cp);
  }
}
