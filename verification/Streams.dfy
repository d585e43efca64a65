/** Text made of blank-separated tokens, and the stream extractions that read it back:
    words, quoted strings with backslash escapes, and integers. */
module Streams {
  import opened Wrappers
  import opened Text

  // ---- writing

  datatype Separator = Blank | Line

  function SeparatorChar(s: Separator): char {
    if s.Blank? then ' ' else '\n'
  }

  /** What has been put on a stream: tokens in order, each followed by one separator, and
      then whatever else is there. */
  datatype Output =
    | End(tail: string)
    | Word(word: string, sep: Separator, rest: Output)
    | Quoted(content: string, sep: Separator, rest: Output)
    | Number(value: nat, sep: Separator, rest: Output)

  /** The characters after the opening quote; a quote or a backslash is escaped. */
  function QuoteBody(s: string): string {
    if s == [] then ['"']
    else (if s[0] == '"' || s[0] == '\\' then ['\\', s[0]] else [s[0]]) + QuoteBody(s[1..])
  }

  function Render(t: Output): string {
    match t
    case End(tail) => tail
    case Word(w, sep, rest) => w + ([SeparatorChar(sep)] + Render(rest))
    case Quoted(s, sep, rest) => ['"'] + (QuoteBody(s) + ([SeparatorChar(sep)] + Render(rest)))
    case Number(n, sep, rest) => Decimal(n) + ([SeparatorChar(sep)] + Render(rest))
  }

  function WriteAll<T>(list: seq<T>, write: (T, Output) -> Output, rest: Output): Output {
    if list == [] then rest else write(list[0], WriteAll(list[1..], write, rest))
  }

  // ---- reading: each extraction gives the value and the input left, or fails

  type Reading<T> = Option<(T, string)>

  predicate IsSpace(c: char) {
    c == ' ' || '\t' <= c <= '\r'
  }

  function SkipSpace(s: string): (r: string)
    ensures r != [] ==> !IsSpace(r[0])
    ensures |r| <= |s|
  {
    if s != [] && IsSpace(s[0]) then SkipSpace(s[1..]) else s
  }

  /** A text is skipped as a whole exactly when it holds only spaces and the characters from tab to
      carriage return. */
  lemma {:induction false} BlankIff(s: string)
    ensures SkipSpace(s) == [] <==> forall i :: 0 <= i < |s| ==> s[i] == ' ' || '\t' <= s[i] <= '\r'
  {
    if s != [] && IsSpace(s[0]) {
      BlankIff(s[1..]);
      assert forall i :: 0 <= i < |s[1..]| ==> s[1..][i] == s[i + 1];
    }
  }

  function WordSpan(s: string): (n: nat)
    ensures n <= |s|
  {
    if s == [] || IsSpace(s[0]) then 0 else 1 + WordSpan(s[1..])
  }

  function ReadWord(input: string): Reading<string> {
    var s := SkipSpace(input);
    var n := WordSpan(s);
    if n == 0 then None else Some((s[..n], s[n..]))
  }

  function Unquote(s: string): Reading<string> {
    if s == [] then None
    else if s[0] == '"' then Some(([], s[1..]))
    else if s[0] == '\\' then
      if |s| == 1 then None else Prepend(s[1], Unquote(s[2..]))
    else Prepend(s[0], Unquote(s[1..]))
  }

  function Prepend(c: char, r: Reading<string>): Reading<string> {
    match r
    case Some((s, rest)) => Some(([c] + s, rest))
    case None => None
  }

  /** A string that does not start with a quote is read as a word. */
  function ReadQuoted(input: string): Reading<string> {
    var s := SkipSpace(input);
    if s == [] then None
    else if s[0] == '"' then Unquote(s[1..])
    else ReadWord(s)
  }

  const TWO_31 := 0x8000_0000
  const TWO_64 := 0x1_0000_0000_0000_0000

  /** Sign and magnitude of a decimal numeral. */
  function ReadNumeral(input: string): Reading<(bool, nat)> {
    var s := SkipSpace(input);
    var signed := s != [] && (s[0] == '-' || s[0] == '+');
    var digits := if signed then s[1..] else s;
    var n := DigitSpan(digits);
    if n == 0 then None else Some(((signed && s[0] == '-', Numeral(digits[..n])), digits[n..]))
  }

  /** An unsigned 64-bit value; a negative numeral wraps. */
  function ReadSize(input: string): Reading<nat> {
    match ReadNumeral(input)
    case Some(((negative, n), rest)) =>
      if n >= TWO_64 then None
      else Some((if negative && n > 0 then TWO_64 - n else n, rest))
    case None => None
  }

  function ReadInt(input: string): Reading<int> {
    match ReadNumeral(input)
    case Some(((negative, n), rest)) =>
      var v: int := if negative then 0 - n else n as int;
      if -TWO_31 <= v < TWO_31 then Some((v, rest)) else None
    case None => None
  }

  function ReadBool(input: string): Reading<bool> {
    match ReadNumeral(input)
    case Some(((negative, n), rest)) =>
      if n == 0 || (n == 1 && !negative) then Some((n == 1, rest)) else None
    case None => None
  }

  /** n values, one after the other. */
  function ReadMany<T>(n: nat, read: string -> Reading<T>, input: string): (r: Reading<seq<T>>)
    ensures r.Some? ==> |r.value.0| == n
  {
    if n == 0 then Some(([], input))
    else
      match ReadMany(n - 1, read, input)
      case Some((list, rest)) =>
        (match read(rest)
         case Some((x, rest')) => Some((list + [x], rest'))
         case None => None)
      case None => None
  }

  lemma {:induction false} ReadManyStops<T>(m: nat, n: nat, read: string -> Reading<T>, input: string)
    requires m <= n
    ensures ReadMany(m, read, input).None? ==> ReadMany(n, read, input).None?
    ensures ReadMany(n, read, input).Some? ==>
      && ReadMany(m, read, input).Some?
      && ReadMany(m, read, input).value.0 == ReadMany(n, read, input).value.0[..m]
  {
    if m < n {
      ReadManyStops(m, n - 1, read, input);
    }
  }

  // ---- reading back

  /** The input is what the writer put, up to leading blanks. */
  predicate At(input: string, t: Output) {
    SkipSpace(input) == SkipSpace(Render(t))
  }

  ghost predicate Takes<T(!new)>(r: Reading<T>, x: T, rest: Output) {
    r.Some? && r.value.0 == x && At(r.value.1, rest)
  }

  lemma AfterSeparator(sep: Separator, rest: Output)
    ensures At([SeparatorChar(sep)] + Render(rest), rest)
  {
    assert ([SeparatorChar(sep)] + Render(rest))[1..] == Render(rest);
  }

  lemma {:induction false} UnquoteBody(s: string, more: string)
    ensures Unquote(QuoteBody(s) + more) == Some((s, more))
  {
    var text := QuoteBody(s) + more;
    if s == [] {
      assert text[1..] == more;
    } else {
      UnquoteBody(s[1..], more);
      var tail := QuoteBody(s[1..]) + more;
      if s[0] == '"' || s[0] == '\\' {
        assert text == ['\\', s[0]] + tail && text[2..] == tail;
      } else {
        assert text == [s[0]] + tail && text[1..] == tail;
      }
      assert s == [s[0]] + s[1..];
    }
  }

  /** Quoting undoes for every string: quotes, backslashes and blanks included. */
  lemma QuotedBack(input: string, s: string, sep: Separator, rest: Output)
    requires At(input, Quoted(s, sep, rest))
    ensures Takes(ReadQuoted(input), s, rest)
  {
    var more := [SeparatorChar(sep)] + Render(rest);
    UnquoteBody(s, more);
    AfterSeparator(sep, rest);
    assert Render(Quoted(s, sep, rest))[1..] == QuoteBody(s) + more;
  }

  lemma {:induction false} WordSpanOf(w: string, more: string)
    requires (forall i :: 0 <= i < |w| ==> !IsSpace(w[i])) && more != [] && IsSpace(more[0])
    ensures WordSpan(w + more) == |w|
  {
    if w == [] {
      assert w + more == more;
    } else {
      assert (w + more)[1..] == w[1..] + more;
      WordSpanOf(w[1..], more);
    }
  }

  lemma WordBack(input: string, w: string, sep: Separator, rest: Output)
    requires w != [] && (forall i :: 0 <= i < |w| ==> !IsSpace(w[i])) && At(input, Word(w, sep, rest))
    ensures Takes(ReadWord(input), w, rest)
  {
    var more := [SeparatorChar(sep)] + Render(rest);
    WordSpanOf(w, more);
    AfterSeparator(sep, rest);
    assert (w + more)[..|w|] == w && (w + more)[|w|..] == more;
  }

  lemma NumeralBack(input: string, n: nat, sep: Separator, rest: Output)
    requires At(input, Number(n, sep, rest))
    ensures Takes(ReadNumeral(input), (false, n), rest)
  {
    var d, more := Decimal(n), [SeparatorChar(sep)] + Render(rest);
    DigitSpanOf(d, more);
    NumeralOfDecimal(n);
    AfterSeparator(sep, rest);
    assert (d + more)[..|d|] == d && (d + more)[|d|..] == more;
  }

  lemma SizeBack(input: string, n: nat, sep: Separator, rest: Output)
    requires n < TWO_64 && At(input, Number(n, sep, rest))
    ensures Takes(ReadSize(input), n, rest)
  {
    hide At;
    NumeralBack(input, n, sep, rest);
  }

  lemma IntBack(input: string, n: nat, sep: Separator, rest: Output)
    requires n < TWO_31 && At(input, Number(n, sep, rest))
    ensures Takes(ReadInt(input), n, rest)
  {
    hide At;
    NumeralBack(input, n, sep, rest);
  }

  lemma BoolBack(input: string, b: bool, sep: Separator, rest: Output)
    requires At(input, Number(Bit(b), sep, rest))
    ensures Takes(ReadBool(input), b, rest)
  {
    hide At;
    NumeralBack(input, Bit(b), sep, rest);
  }

  function Bit(b: bool): nat {
    if b then 1 else 0
  }

  /** Reading x back works wherever it was written. */
  ghost predicate Inverse<T(!new)>(write: (T, Output) -> Output, read: string -> Reading<T>, x: T) {
    forall input, rest :: At(input, write(x, rest)) ==> Takes(read(input), x, rest)
  }

  lemma {:induction false} WriteAllLast<T>(list: seq<T>, x: T, write: (T, Output) -> Output, rest: Output)
    ensures WriteAll(list + [x], write, rest) == WriteAll(list, write, write(x, rest))
  {
    if list == [] {
      assert list + [x] == [x] && [x][1..] == [];
    } else {
      assert (list + [x])[1..] == list[1..] + [x];
      WriteAllLast(list[1..], x, write, rest);
    }
  }

  lemma {:induction false} ManyBack<T(!new)>(list: seq<T>, write: (T, Output) -> Output, read: string -> Reading<T>,
                                             input: string, rest: Output)
    requires (forall x :: x in list ==> Inverse(write, read, x)) && At(input, WriteAll(list, write, rest))
    ensures Takes(ReadMany(|list|, read, input), list, rest)
  {
    hide At;
    if list != [] {
      var init, last := list[..|list| - 1], list[|list| - 1];
      assert list == init + [last];
      WriteAllLast(init, last, write, rest);
      ManyBack(init, write, read, input, write(last, rest));
      assert Inverse(write, read, last);
    }
  }

  /** Reading x fails wherever it was written. */
  ghost predicate Stuck<T(!new)>(write: (T, Output) -> Output, read: string -> Reading<T>, x: T) {
    forall input, rest :: At(input, write(x, rest)) ==> read(input).None?
  }

  lemma {:induction false} ManyStuck<T(!new)>(list: seq<T>, write: (T, Output) -> Output, read: string -> Reading<T>,
                                              input: string, rest: Output)
    requires (forall x :: x in list ==> Inverse(write, read, x) || Stuck(write, read, x)) && At(input, WriteAll(list, write, rest))
    requires exists x :: x in list && Stuck(write, read, x)
    ensures ReadMany(|list|, read, input).None?
  {
    hide At;
    var init, last := list[..|list| - 1], list[|list| - 1];
    assert list == init + [last];
    WriteAllLast(init, last, write, rest);
    if exists x :: x in init && Stuck(write, read, x) {
      ManyStuck(init, write, read, input, write(last, rest));
    } else {
      ManyBack(init, write, read, input, write(last, rest));
      assert Stuck(write, read, last);
    }
  }
}
