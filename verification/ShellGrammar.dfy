/** What quotes and escapes in a command line mean. */
module ShellGrammar {
  import opened Wrappers
  import opened Shell

  /** Between double quotes a backslash takes the next character as it is. */
  datatype Inner = Itself(c: char) | Slashed(c: char)

  datatype Piece =
    | Bare(c: char)
    | Escaped(c: char)
    | SingleQuoted(text: string)
    | DoubleQuoted(inner: seq<Inner>)

  datatype Token = Space(c: char) | Part(piece: Piece)

  /** What may be left open at the end of a line. */
  datatype Open = Nothing | OpenEscape | OpenSingle(text: string) | OpenDouble(inner: seq<Inner>, slash: bool)

  predicate GoodInner(i: Inner) {
    i.Itself? ==> i.c != '"' && i.c != '\\'
  }

  predicate GoodInners(inner: seq<Inner>) {
    forall k :: 0 <= k < |inner| ==> GoodInner(inner[k])
  }

  predicate NoQuote(text: string) {
    forall k :: 0 <= k < |text| ==> text[k] != '\''
  }

  predicate GoodToken(t: Token) {
    match t
    case Space(c) => IsBlank(c)
    case Part(Bare(c)) => !IsBlank(c) && c != '\\' && c != '\'' && c != '"'
    case Part(Escaped(_)) => true
    case Part(SingleQuoted(text)) => NoQuote(text)
    case Part(DoubleQuoted(inner)) => GoodInners(inner)
  }

  predicate GoodTokens(ts: seq<Token>) {
    forall k :: 0 <= k < |ts| ==> GoodToken(ts[k])
  }

  predicate GoodOpen(o: Open) {
    match o
    case OpenSingle(text) => NoQuote(text)
    case OpenDouble(inner, _) => GoodInners(inner)
    case _ => true
  }

  // ---- how it is written

  function OneText(i: Inner): string {
    if i.Itself? then [i.c] else ['\\', i.c]
  }

  function InnerText(inner: seq<Inner>): string {
    if inner == [] then [] else InnerText(inner[..|inner| - 1]) + OneText(inner[|inner| - 1])
  }

  function PieceText(p: Piece): string {
    match p
    case Bare(c) => [c]
    case Escaped(c) => ['\\', c]
    case SingleQuoted(text) => "'" + text + "'"
    case DoubleQuoted(inner) => "\"" + InnerText(inner) + "\""
  }

  function TokenText(t: Token): string {
    match t
    case Space(c) => [c]
    case Part(p) => PieceText(p)
  }

  function TokensText(ts: seq<Token>): string {
    if ts == [] then [] else TokensText(ts[..|ts| - 1]) + TokenText(ts[|ts| - 1])
  }

  function OpenText(o: Open): string {
    match o
    case Nothing => []
    case OpenEscape => "\\"
    case OpenSingle(text) => "'" + text
    case OpenDouble(inner, slash) => "\"" + InnerText(inner) + if slash then "\\" else []
  }

  // ---- what it means

  function InnerValue(inner: seq<Inner>): string {
    seq(|inner|, k requires 0 <= k < |inner| => inner[k].c)
  }

  function PieceValue(p: Piece): string {
    match p
    case Bare(c) => [c]
    case Escaped(c) => [c]
    case SingleQuoted(text) => text
    case DoubleQuoted(inner) => InnerValue(inner)
  }

  /** The pieces that stand together after the last space make a word, if there are any. */
  function LastWord(ts: seq<Token>): Option<string> {
    if ts == [] || ts[|ts| - 1].Space? then None
    else
      var before := LastWord(ts[..|ts| - 1]);
      Some((if before.Some? then before.value else []) + PieceValue(ts[|ts| - 1].piece))
  }

  /** The words that a space has ended. */
  function EndedWords(ts: seq<Token>): seq<string> {
    if ts == [] then []
    else
      var init := ts[..|ts| - 1];
      if ts[|ts| - 1].Space? && LastWord(init).Some? then EndedWords(init) + [LastWord(init).value] else EndedWords(init)
  }

  function Words(ts: seq<Token>): seq<string> {
    EndedWords(ts) + if LastWord(ts).Some? then [LastWord(ts).value] else []
  }

  // ---- splitting follows the meaning

  lemma {:induction false} SingleScanned(s: Scan, text: string)
    requires s.quote == Single && !s.escaped && s.started && NoQuote(text)
    ensures Scanned(s, text) == s.(token := s.token + text)
  {
    if text == [] {
      assert s.token + text == s.token;
    } else {
      var init, c := text[..|text| - 1], text[|text| - 1];
      SingleScanned(s, init);
      assert s.token + init + [c] == s.token + text;
    }
  }

  lemma SlashedScanned(s: Scan, c: char)
    requires s.quote != Single && !s.escaped
    ensures Scanned(s, ['\\', c]) == Push(s, c)
  {
    ScanOne(s, '\\');
    ScannedJoin(s, ['\\'], [c]);
    ScanOne(Step(s, '\\'), c);
    assert ['\\'] + [c] == ['\\', c];
  }

  lemma {:induction false} DoubleScanned(s: Scan, inner: seq<Inner>)
    requires s.quote == Double && !s.escaped && s.started && GoodInners(inner)
    ensures Scanned(s, InnerText(inner)) == s.(token := s.token + InnerValue(inner))
  {
    hide Scanned;
    if inner == [] {
      NothingScanned(s);
      assert s.token + InnerValue(inner) == s.token;
    } else {
      var init, last := inner[..|inner| - 1], inner[|inner| - 1];
      DoubleScanned(s, init);
      var t := s.(token := s.token + InnerValue(init));
      assert GoodInner(inner[|inner| - 1]);
      assert InnerValue(inner) == InnerValue(init) + [last.c];
      assert s.token + InnerValue(init) + [last.c] == s.token + InnerValue(inner);
      ScannedJoin(s, InnerText(init), if last.Itself? then [last.c] else ['\\', last.c]);
      if last.Itself? { ScanOne(t, last.c); } else { SlashedScanned(t, last.c); }
    }
  }

  lemma NothingScanned(s: Scan)
    ensures Scanned(s, []) == s
  {
  }

  lemma PieceScanned(s: Scan, p: Piece)
    requires s.quote == Unquoted && !s.escaped && GoodToken(Part(p))
    ensures Scanned(s, PieceText(p)) == s.(token := s.token + PieceValue(p), started := true)
  {
    hide Scanned;
    match p
    case Bare(c) => ScanOne(s, c);
    case Escaped(c) => SlashedScanned(s, c);
    case SingleQuoted(text) =>
      ScanOne(s, '\'');
      var open := s.(quote := Single, started := true);
      SingleScanned(open, text);
      ScannedJoin(s, "'", text);
      ScannedJoin(s, "'" + text, "'");
      ScanOne(open.(token := open.token + text), '\'');
    case DoubleQuoted(inner) =>
      ScanOne(s, '"');
      var open := s.(quote := Double, started := true);
      DoubleScanned(open, inner);
      ScannedJoin(s, "\"", InnerText(inner));
      ScannedJoin(s, "\"" + InnerText(inner), "\"");
      ScanOne(open.(token := open.token + InnerValue(inner)), '"');
  }

  function Reached(ts: seq<Token>): Scan {
    var word := LastWord(ts);
    Scan(Unquoted, false, word.Some?, if word.Some? then word.value else [], EndedWords(ts))
  }

  lemma {:induction false} TokensScanned(ts: seq<Token>)
    requires GoodTokens(ts)
    ensures Scanned(START, TokensText(ts)) == Reached(ts)
  {
    hide Scanned, PieceText, PieceValue, GoodToken;
    if ts == [] {
      NothingScanned(START);
    } else {
      var init, last := ts[..|ts| - 1], ts[|ts| - 1];
      TokensScanned(init);
      assert GoodToken(last);
      ScannedJoin(START, TokensText(init), TokenText(last));
      TokenScanned(init, last);
      assert ts == init + [last];
    }
  }

  lemma TokenScanned(init: seq<Token>, last: Token)
    requires GoodToken(last)
    ensures Scanned(Reached(init), TokenText(last)) == Reached(init + [last])
  {
    hide Scanned, PieceText, PieceValue;
    assert (init + [last])[..|init|] == init;
    match last
    case Space(c) => ScanOne(Reached(init), c);
    case Part(p) => PieceScanned(Reached(init), p);
  }

  lemma OpenScanned(s: Scan, o: Open)
    requires s.quote == Unquoted && !s.escaped && GoodOpen(o)
    ensures var t := Scanned(s, OpenText(o)); (t.escaped || t.quote != Unquoted <==> !o.Nothing?) && (o.Nothing? ==> t == s)
  {
    hide Scanned;
    match o
    case Nothing => NothingScanned(s);
    case OpenEscape => ScanOne(s, '\\');
    case OpenSingle(text) =>
      ScanOne(s, '\'');
      SingleScanned(s.(quote := Single, started := true), text);
      ScannedJoin(s, "'", text);
    case OpenDouble(inner, slash) =>
      ScanOne(s, '"');
      var open := s.(quote := Double, started := true);
      DoubleScanned(open, inner);
      ScannedJoin(s, "\"", InnerText(inner));
      if slash {
        ScannedJoin(s, "\"" + InnerText(inner), "\\");
        ScanOne(open.(token := open.token + InnerValue(inner)), '\\');
      } else {
        assert "\"" + InnerText(inner) + [] == "\"" + InnerText(inner);
      }
  }

  /** A line is split into the words it spells, unless a quote or an escape is left open. */
  lemma SpelledSplit(ts: seq<Token>, o: Open)
    requires GoodTokens(ts) && GoodOpen(o)
    ensures Split(TokensText(ts) + OpenText(o)) == if o.Nothing? then Ok(Words(ts)) else Err(Unterminated)
  {
    hide Scanned, OpenText, TokensText, LastWord, EndedWords;
    TokensScanned(ts);
    ScannedJoin(START, TokensText(ts), OpenText(o));
    OpenScanned(Reached(ts), o);
    assert EndedWords(ts) + [] == EndedWords(ts);
  }

  // ---- every line is spelled in this way

  lemma {:induction false} FindQuote(text: string) returns (n: nat)
    ensures n <= |text| && NoQuote(text[..n]) && (n < |text| ==> text[n] == '\'')
  {
    if text == [] || text[0] == '\'' {
      n := 0;
    } else {
      var m := FindQuote(text[1..]);
      n := m + 1;
      assert text[..n] == [text[0]] + text[1..][..m];
    }
  }

  lemma {:induction false} InnerTextCons(i: Inner, inner: seq<Inner>)
    ensures InnerText([i] + inner) == OneText(i) + InnerText(inner)
  {
    hide OneText;
    if inner == [] {
      assert [i] + inner == [i] && [i][..0] == [];
      assert OneText(i) + [] == OneText(i) == [] + OneText(i);
    } else {
      var init, last := inner[..|inner| - 1], inner[|inner| - 1];
      InnerTextCons(i, init);
      assert ([i] + inner)[..|inner|] == [i] + init && ([i] + inner)[|inner|] == last;
      Associative(OneText(i), InnerText(init), OneText(last));
    }
  }

  lemma Associative(a: string, b: string, c: string)
    ensures a + b + c == a + (b + c)
  {
  }

  /** One character, or two after a backslash. */
  lemma FirstInner(text: string) returns (i: Inner, k: nat)
    requires text != [] && text[0] != '"' && (text[0] == '\\' ==> |text| > 1)
    ensures 0 < k <= |text| && GoodInner(i) && text == OneText(i) + text[k..]
  {
    if text[0] == '\\' {
      i, k := Slashed(text[1]), 2;
      assert text == ['\\', text[1]] + text[2..];
    } else {
      i, k := Itself(text[0]), 1;
    }
  }

  /** Up to the closing quote, or to the end of the text. */
  lemma {:induction false} SpellInner(text: string) returns (inner: seq<Inner>, slash: bool, closed: bool, rest: string)
    ensures GoodInners(inner) && |rest| <= |text| && !(slash && closed)
    ensures text == InnerText(inner) + (if closed then "\"" + rest else if slash then "\\" else [])
    decreases |text|
  {
    hide OneText, GoodInner;
    inner, slash, closed, rest := [], false, false, [];
    if text == [] {
    } else if text[0] == '"' {
      closed, rest := true, text[1..];
      assert text == [text[0]] + text[1..];
    } else if text[0] == '\\' && |text| == 1 {
      slash := true;
    } else {
      var first, k := FirstInner(text);
      inner, slash, closed, rest := SpellInner(text[k..]);
      InnerTextCons(first, inner);
      Associative(OneText(first), InnerText(inner), if closed then "\"" + rest else if slash then "\\" else []);
      inner := [first] + inner;
    }
  }

  lemma {:induction false} TokensTextCons(t: Token, ts: seq<Token>)
    ensures TokensText([t] + ts) == TokenText(t) + TokensText(ts)
  {
    hide TokenText;
    if ts == [] {
      assert [t] + ts == [t] && [t][..0] == [];
      assert TokenText(t) + [] == TokenText(t) == [] + TokenText(t);
    } else {
      TokensTextCons(t, ts[..|ts| - 1]);
      assert ([t] + ts)[..|ts|] == [t] + ts[..|ts| - 1];
      assert TokenText(t) + TokensText(ts[..|ts| - 1]) + TokenText(ts[|ts| - 1]) == TokenText(t) + TokensText(ts);
    }
  }

  /** A first token, or a piece that is left open. */
  lemma SpellFirst(text: string) returns (t: Option<Token>, o: Open, rest: string)
    requires text != []
    ensures t.Some? ==> GoodToken(t.value) && text == TokenText(t.value) + rest && |rest| < |text|
    ensures t.None? ==> GoodOpen(o) && !o.Nothing? && text == OpenText(o)
  {
    var c := text[0];
    o, rest := Nothing, text[1..];
    assert text == [c] + text[1..];
    if c == '\\' {
      if |text| == 1 {
        t, o := None, OpenEscape;
      } else {
        t, rest := Some(Part(Escaped(text[1]))), text[2..];
        assert text == ['\\', text[1]] + text[2..];
      }
    } else if c == '\'' {
      var n := FindQuote(text[1..]);
      if n < |text[1..]| {
        t, rest := Some(Part(SingleQuoted(text[1..][..n]))), text[1..][n + 1..];
        assert text[1..] == text[1..][..n] + ("'" + rest);
        assert text == "'" + text[1..][..n] + "'" + rest;
      } else {
        t, o := None, OpenSingle(text[1..]);
        assert text[1..][..n] == text[1..];
      }
    } else if c == '"' {
      var inner, slash, closed, after := SpellInner(text[1..]);
      if closed {
        t, rest := Some(Part(DoubleQuoted(inner))), after;
        assert text == "\"" + (InnerText(inner) + ("\"" + after));
        assert text == "\"" + InnerText(inner) + "\"" + after;
      } else {
        t, o := None, OpenDouble(inner, slash);
        assert text == "\"" + (InnerText(inner) + if slash then "\\" else []);
      }
    } else if IsBlank(c) {
      t := Some(Space(c));
    } else {
      t := Some(Part(Bare(c)));
    }
  }

  lemma {:induction false} Spelling(text: string) returns (ts: seq<Token>, o: Open)
    ensures GoodTokens(ts) && GoodOpen(o) && text == TokensText(ts) + OpenText(o)
    decreases |text|
  {
    hide GoodToken, GoodOpen, TokenText, OpenText;
    ts, o := [], Nothing;
    if text == [] {
      NothingOpen();
    } else {
      var t, open, rest := SpellFirst(text);
      if t.None? {
        o := open;
        assert text == [] + OpenText(o);
      } else {
        ts, o := Spelling(rest);
        TokensTextCons(t.value, ts);
        Associative(TokenText(t.value), TokensText(ts), OpenText(o));
        ts := [t.value] + ts;
      }
    }
  }

  lemma NothingOpen()
    ensures GoodOpen(Nothing) && OpenText(Nothing) == []
  {
  }

  /** The text ends inside a quote or after a backslash. */
  ghost predicate EndsOpen(text: string) {
    exists ts, o :: GoodTokens(ts) && GoodOpen(o) && !o.Nothing? && text == TokensText(ts) + OpenText(o)
  }

  ghost predicate Spells(text: string, words: seq<string>) {
    exists ts :: GoodTokens(ts) && text == TokensText(ts) && words == Words(ts)
  }

  /** Splitting fails exactly for the texts that end inside a quote or an escape, and otherwise
      gives exactly the words that are spelled. */
  lemma SplitIff(text: string, words: seq<string>)
    ensures Split(text).Err? <==> EndsOpen(text)
    ensures Split(text) == Ok(words) <==> Spells(text, words)
  {
    hide Split, GoodTokens, GoodOpen, TokensText, Words;
    var ts, o := Spelling(text);
    SpelledSplit(ts, o);
    if o.Nothing? { assert text == TokensText(ts) + [] == TokensText(ts); }
    if EndsOpen(text) {
      var us, p :| GoodTokens(us) && GoodOpen(p) && !p.Nothing? && text == TokensText(us) + OpenText(p);
      SpelledSplit(us, p);
    }
    if Spells(text, words) {
      var us :| GoodTokens(us) && text == TokensText(us) && words == Words(us);
      NothingOpen();
      SpelledSplit(us, Nothing);
      assert TokensText(us) + [] == TokensText(us);
    }
  }
}
