/** The JSON reader, as functions from the remaining input to a value and what is left. */
module Json {
  import opened Wrappers
  import opened Text

  /** A number keeps the token it was written with. */
  datatype Value =
    | Null
    | Bool(truth: bool)
    | Number(token: string)
    | Str(text: string)
    | Array(items: seq<Value>)
    | Object(fields: map<string, Value>)

  datatype Reason =
    | ExpectedValue | InvalidValue | InvalidLiteral | Expected(c: char) | TrailingContent
    | IncompleteUnicode | InvalidUnicode | MissingLowSurrogate | InvalidLowSurrogate
    | ControlCharacter | IncompleteEscape | InvalidEscape | UnterminatedString
    | IncompleteNumber | InvalidNumber | InvalidFraction | InvalidExponent | NotRepresentable
    | ExpectedKey | DuplicateKey

  /** Why parsing stopped, and how many bytes were then left. */
  datatype Failure = Failure(reason: Reason, left: nat)

  type Parsed<T> = Result<(T, string), Failure>

  function Fail<T>(reason: Reason, rest: string): Parsed<T> {
    Err(Failure(reason, |rest|))
  }

  // ---- spaces and punctuation

  predicate IsSpace(c: char) {
    c == ' ' || c == '\t' || c == '\n' || c == '\r'
  }

  function SkipSpace(s: string): (r: string)
    ensures |r| <= |s| && s[|s| - |r|..] == r
    ensures r != [] ==> !IsSpace(r[0])
  {
    if s != [] && IsSpace(s[0]) then SkipSpace(s[1..]) else s
  }

  predicate Starts(s: string, c: char) {
    s != [] && s[0] == c
  }

  // ---- strings

  function HexValue(c: char): Option<nat> {
    if '0' <= c <= '9' then Some(c as int - '0' as int)
    else if 'a' <= c <= 'f' then Some(c as int - 'a' as int + 10)
    else if 'A' <= c <= 'F' then Some(c as int - 'A' as int + 10)
    else None
  }

  function HexDigits(s: string, n: nat, acc: nat): (r: Parsed<nat>)
    requires n <= |s|
    ensures r.Ok? ==> |r.value.1| == |s| - n && s[n..] == r.value.1
  {
    if n == 0 then Ok((acc, s))
    else match HexValue(s[0])
      case Some(d) => HexDigits(s[1..], n - 1, acc * 16 + d)
      case None => Fail(InvalidUnicode, s[1..])
  }

  function HexQuad(s: string): (r: Parsed<nat>)
    ensures r.Ok? ==> |s| >= 4 && s[4..] == r.value.1
  {
    if |s| < 4 then Fail(IncompleteUnicode, s) else HexDigits(s, 4, 0)
  }

  function Byte(n: nat): char
    requires n < 256
  {
    n as char
  }

  function Utf8(cp: nat): string
    requires cp < 0x110000
  {
    if cp <= 0x7f then [Byte(cp)]
    else if cp <= 0x7ff then [Byte(0xc0 + cp / 0x40), Byte(0x80 + cp % 0x40)]
    else if cp <= 0xffff then
      [Byte(0xe0 + cp / 0x1000), Byte(0x80 + cp / 0x40 % 0x40), Byte(0x80 + cp % 0x40)]
    else
      [Byte(0xf0 + cp / 0x40000), Byte(0x80 + cp / 0x1000 % 0x40), Byte(0x80 + cp / 0x40 % 0x40), Byte(0x80 + cp % 0x40)]
  }

  lemma {:induction false} HexBound(s: string, n: nat, acc: nat, limit: nat)
    requires n <= |s| && HexDigits(s, n, acc).Ok? && n <= 4
    requires (n == 0 ==> acc < limit) && (n == 1 ==> acc * 16 + 15 < limit) && (n == 2 ==> acc * 256 + 255 < limit)
    requires (n == 3 ==> acc * 4096 + 4095 < limit) && (n == 4 ==> acc * 65536 + 65535 < limit)
    ensures HexDigits(s, n, acc).value.0 < limit
  {
    if n > 0 {
      HexBound(s[1..], n - 1, acc * 16 + HexValue(s[0]).value, limit);
    }
  }

  /** The code point of an escape whose first quad has been read. */
  function CodePoint(first: nat, s: string): (r: Parsed<nat>)
    requires first < 0x10000
    ensures r.Ok? ==> r.value.0 < 0x110000 && |r.value.1| <= |s|
  {
    if 0xd800 <= first <= 0xdbff then
      if |s| < 2 || s[0] != '\\' || s[1] != 'u' then Fail(MissingLowSurrogate, s)
      else
        var low :- HexQuad(s[2..]);
        if low.0 < 0xdc00 || low.0 > 0xdfff then Fail(InvalidLowSurrogate, low.1)
        else Ok((0x10000 + (first - 0xd800) * 0x400 + (low.0 - 0xdc00), low.1))
    else Ok((first, s))
  }

  function ShortEscape(c: char): Option<char> {
    match c
    case '"' => Some('"') case '\\' => Some('\\') case '/' => Some('/')
    case 'b' => Some(8 as char) case 'f' => Some(12 as char)
    case 'n' => Some('\n') case 'r' => Some('\r') case 't' => Some('\t')
    case _ => None
  }

  /** What follows a backslash. */
  function Escape(s: string): (r: Parsed<string>)
    ensures r.Ok? ==> |r.value.1| < |s|
  {
    if s == [] then Fail(IncompleteEscape, s)
    else if s[0] == 'u' then
      var quad :- HexQuad(s[1..]);
      HexBound(s[1..], 4, 0, 0x10000);
      var cp :- CodePoint(quad.0, quad.1);
      Ok((Utf8(cp.0), cp.1))
    else match ShortEscape(s[0])
      case Some(c) => Ok(([c], s[1..]))
      case None => Fail(InvalidEscape, s[1..])
  }

  /** The characters up to the closing quote. */
  function Chars(s: string, acc: string): (r: Parsed<string>)
    ensures r.Ok? ==> |r.value.1| < |s|
    decreases |s|
  {
    if s == [] then Fail(UnterminatedString, s)
    else if s[0] == '"' then Ok((acc, s[1..]))
    else if s[0] < ' ' then Fail(ControlCharacter, s[1..])
    else if s[0] != '\\' then Chars(s[1..], acc + [s[0]])
    else
      var e :- Escape(s[1..]);
      Chars(e.1, acc + e.0)
  }

  function ParseString(s: string): (r: Parsed<string>)
    ensures r.Ok? ==> |r.value.1| < |s|
  {
    if !Starts(s, '"') then Fail(Expected('"'), s) else Chars(s[1..], [])
  }

  // ---- numbers

  function Digit(s: string, i: nat): bool {
    i < |s| && IsDigit(s[i])
  }

  function WholeEnd(s: string, i: nat): (r: Result<nat, Failure>)
    requires i <= |s|
    ensures r.Ok? ==> i < r.value <= |s|
  {
    if i < |s| && s[i] == '0' then Ok(i + 1)
    else if !Digit(s, i) then Err(Failure(InvalidNumber, |s| - i))
    else Ok(i + DigitSpan(s[i..]))
  }

  function FractionEnd(s: string, i: nat): (r: Result<nat, Failure>)
    requires i <= |s|
    ensures r.Ok? ==> i <= r.value <= |s|
  {
    if i < |s| && s[i] == '.' then
      if !Digit(s, i + 1) then Err(Failure(InvalidFraction, |s| - i - 1)) else Ok(i + 1 + DigitSpan(s[i + 1..]))
    else Ok(i)
  }

  function ExponentEnd(s: string, i: nat): (r: Result<nat, Failure>)
    requires i <= |s|
    ensures r.Ok? ==> i <= r.value <= |s|
  {
    if i < |s| && (s[i] == 'e' || s[i] == 'E') then
      var j := if i + 1 < |s| && (s[i + 1] == '+' || s[i + 1] == '-') then i + 2 else i + 1;
      if !Digit(s, j) then Err(Failure(InvalidExponent, |s| - j)) else Ok(j + DigitSpan(s[j..]))
    else Ok(i)
  }

  /** The length of the number token at the start of the input. */
  function NumberEnd(s: string): (r: Result<nat, Failure>)
    ensures r.Ok? ==> 0 < r.value <= |s|
  {
    var i := if Starts(s, '-') then 1 else 0;
    if i == 1 && |s| == 1 then Err(Failure(IncompleteNumber, 0))
    else
      var j :- WholeEnd(s, i);
      var k :- FractionEnd(s, j);
      ExponentEnd(s, k)
  }

  function ParseNumber(s: string, representable: string -> bool): (r: Parsed<Value>)
    ensures r.Ok? ==> |r.value.1| < |s|
  {
    var n :- NumberEnd(s);
    if representable(s[..n]) then Ok((Number(s[..n]), s[n..])) else Fail(NotRepresentable, s[n..])
  }

  // ---- values

  function Literal(s: string, word: string, v: Value): (r: Parsed<Value>)
    requires word != []
    ensures r.Ok? ==> |r.value.1| < |s|
  {
    if word <= s then Ok((v, s[|word|..])) else Fail(InvalidLiteral, s)
  }

  function ParseValue(s: string, representable: string -> bool): (r: Parsed<Value>)
    ensures r.Ok? ==> |r.value.1| < |s|
    decreases |s|, 2
  {
    var s := SkipSpace(s);
    if s == [] then Fail(ExpectedValue, s)
    else match s[0]
      case 'n' => Literal(s, "null", Null)
      case 't' => Literal(s, "true", Bool(true))
      case 'f' => Literal(s, "false", Bool(false))
      case '"' =>
        var str :- ParseString(s);
        Ok((Str(str.0), str.1))
      case '[' =>
        var t := SkipSpace(s[1..]);
        if Starts(t, ']') then Ok((Array([]), t[1..])) else ParseItems(t, [], representable)
      case '{' =>
        var t := SkipSpace(s[1..]);
        if Starts(t, '}') then Ok((Object(map[]), t[1..])) else ParseMembers(t, map[], representable)
      case c => if c == '-' || IsDigit(c) then ParseNumber(s, representable) else Fail(InvalidValue, s)
  }

  /** The rest of an array after its opening bracket or a comma. */
  function ParseItems(s: string, acc: seq<Value>, representable: string -> bool): (r: Parsed<Value>)
    ensures r.Ok? ==> |r.value.1| < |s|
    decreases |s|, 3
  {
    var item :- ParseValue(s, representable);
    var items, t := acc + [item.0], SkipSpace(item.1);
    if Starts(t, ']') then Ok((Array(items), t[1..]))
    else if !Starts(t, ',') then Fail(Expected(','), t)
    else ParseItems(SkipSpace(t[1..]), items, representable)
  }

  /** The key of a member, its colon and the spaces around that. */
  function MemberKey(s: string): (r: Parsed<string>)
    ensures r.Ok? ==> |r.value.1| < |s|
  {
    if !Starts(s, '"') then Fail(ExpectedKey, s)
    else
      var key :- ParseString(s);
      var t := SkipSpace(key.1);
      if !Starts(t, ':') then Fail(Expected(':'), t) else Ok((key.0, SkipSpace(t[1..])))
  }

  /** The rest of an object after its opening brace or a comma. */
  function ParseMembers(s: string, acc: map<string, Value>, representable: string -> bool): (r: Parsed<Value>)
    ensures r.Ok? ==> |r.value.1| < |s|
    decreases |s|, 3
  {
    var key :- MemberKey(s);
    var item :- ParseValue(key.1, representable);
    if key.0 in acc then Fail(DuplicateKey, item.1)
    else
      var fields, u := acc[key.0 := item.0], SkipSpace(item.1);
      if Starts(u, '}') then Ok((Object(fields), u[1..]))
      else if !Starts(u, ',') then Fail(Expected(','), u)
      else ParseMembers(SkipSpace(u[1..]), fields, representable)
  }

  function ParseDocument(s: string, representable: string -> bool): Result<Value, Failure> {
    var v :- ParseValue(SkipSpace(s), representable);
    if SkipSpace(v.1) != [] then Err(Failure(TrailingContent, |SkipSpace(v.1)|)) else Ok(v.0)
  }
}
