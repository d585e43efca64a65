/** Splitting the output of the compiler into JSON documents by counting brackets. */
module JsonDocuments {
  import opened Wrappers
  import opened Text
  import opened Json
  import opened JsonGrammar

  datatype Fault = UnexpectedClosing | ContentBetween | Incomplete

  /** pending is the document being read, from its opening bracket. */
  datatype Scan = Scan(depth: nat, inString: bool, escaped: bool, pending: string, documents: seq<string>)

  const START := Scan(0, false, false, [], [])

  predicate Blank(c: char) {
    c == ' ' || '\t' <= c <= '\r'
  }

  function Grow(s: Scan, text: string): Scan {
    if s.depth > 0 then s.(pending := s.pending + text) else s
  }

  /** After a closing bracket has been added. */
  function Close(s: Scan): Scan
    requires s.depth > 0
  {
    if s.depth == 1 then s.(depth := 0, pending := [], documents := s.documents + [s.pending]) else s.(depth := s.depth - 1)
  }

  function Step(s: Scan, c: char): Result<Scan, Fault> {
    if s.inString then
      Ok(Grow(s, [c]).(escaped := !s.escaped && c == '\\', inString := s.escaped || c != '"'))
    else if c == '"' then Ok(Grow(s, [c]).(inString := true))
    else if c == '{' || c == '[' then Ok(Grow(s.(depth := s.depth + 1), [c]))
    else if c == '}' || c == ']' then
      if s.depth == 0 then Err(UnexpectedClosing) else Ok(Close(Grow(s, [c])))
    else if s.depth == 0 && !Blank(c) then Err(ContentBetween)
    else Ok(Grow(s, [c]))
  }

  function Scanned(s: Scan, text: string): Result<Scan, Fault> {
    if text == [] then Ok(s)
    else
      var t :- Scanned(s, text[..|text| - 1]);
      Step(t, text[|text| - 1])
  }

  function Split(text: string): Result<seq<string>, Fault> {
    var s :- Scanned(START, text);
    if s.depth != 0 || s.inString then Err(Incomplete) else Ok(s.documents)
  }

  lemma {:induction false} ScanFails(s: Scan, text: string, n: nat)
    requires n <= |text| && Scanned(s, text[..n]).Err?
    ensures Scanned(s, text) == Scanned(s, text[..n])
  {
    hide Step;
    if n < |text| {
      assert text[..|text| - 1][..n] == text[..n];
      ScanFails(s, text[..|text| - 1], n);
    } else {
      assert text[..n] == text;
    }
  }

  /** The program: it remembers where the current document starts. */
  method SplitJsonDocuments(input: string) returns (r: Result<seq<string>, Fault>)
    ensures r == Split(input)
  {
    hide Scanned;
    NothingScanned();
    var documents: seq<string> := [];
    var start: nat, depth: nat, inString, escaped := 0, 0, false, false;
    for index := 0 to |input|
      invariant start <= index
      invariant Scanned(START, input[..index]) ==
        Ok(Scan(depth, inString, escaped, if depth == 0 then [] else input[start..index], documents))
    {
      ScanNext(input, index);
      assert depth > 0 ==> input[start..index + 1] == input[start..index] + [input[index]];
      var c := input[index];
      assert input[index..index + 1] == [c] && [] + [c] == [c];
      if inString {
        if escaped {
          escaped := false;
        } else if c == '\\' {
          escaped := true;
        } else if c == '"' {
          inString := false;
        }
        continue;
      }
      NotEscaped(input[..index]);
      if c == '"' {
        inString := true;
      } else if c == '{' || c == '[' {
        if depth == 0 { start := index; }
        depth := depth + 1;
      } else if c == '}' || c == ']' {
        if depth == 0 {
          ScanFails(START, input, index + 1);
          return Err(UnexpectedClosing);
        }
        depth := depth - 1;
        if depth == 0 { documents := documents + [input[start..index + 1]]; }
      } else if depth == 0 && !Blank(c) {
        ScanFails(START, input, index + 1);
        return Err(ContentBetween);
      }
    }
    assert input[..|input|] == input;
    if depth != 0 || inString { return Err(Incomplete); }
    r := Ok(documents);
  }

  lemma NothingScanned()
    ensures forall text: string :: text == [] ==> Scanned(START, text) == Ok(START)
  {
  }

  lemma ScanNext(input: string, index: nat)
    requires index < |input| && Scanned(START, input[..index]).Ok?
    ensures Scanned(START, input[..index + 1]) == Step(Scanned(START, input[..index]).value, input[index])
  {
    hide Step;
    assert input[..index + 1][..index] == input[..index];
  }

  lemma {:induction false} NotEscaped(text: string)
    ensures var r := Scanned(START, text); r.Ok? ==> (r.value.escaped ==> r.value.inString)
  {
    if text != [] { NotEscaped(text[..|text| - 1]); }
  }

  // ---- texts of the grammar

  lemma {:induction false} ScanJoin(s: Scan, a: string, b: string)
    requires Scanned(s, a).Ok?
    ensures Scanned(s, a + b) == Scanned(Scanned(s, a).value, b)
  {
    hide Step;
    if b == [] {
      assert a + b == a;
    } else {
      assert (a + b)[..|a + b| - 1] == a + b[..|b| - 1];
      ScanJoin(s, a, b[..|b| - 1]);
    }
  }

  lemma ScanOne(s: Scan, c: char)
    ensures Scanned(s, [c]) == Step(s, c)
  {
    assert [c][..0] == [];
  }

  predicate Inside(s: Scan) {
    s.depth > 0 && !s.inString && !s.escaped
  }

  predicate InText(s: Scan) {
    s.inString && !s.escaped
  }

  /** Reading the text inside a document adds it to the document and changes nothing else. */
  ghost predicate Passes(text: string) {
    forall s :: Inside(s) ==> Scanned(s, text) == Ok(Grow(s, text))
  }

  /** The same between the quotes of a string; outside all documents the text is dropped. */
  ghost predicate PassesQuoted(text: string) {
    forall s :: InText(s) ==> Scanned(s, text) == Ok(Grow(s, text))
  }

  /** Reading the text adds it and closes one bracket. */
  ghost predicate Closes(text: string) {
    forall s :: Inside(s) ==> Scanned(s, text) == Ok(Close(Grow(s, text)))
  }

  lemma GrowJoin(s: Scan, a: string, b: string)
    ensures Grow(Grow(s, a), b) == Grow(s, a + b)
  {
    assert s.pending + a + b == s.pending + (a + b);
  }

  lemma QuotedJoin(a: string, b: string)
    requires PassesQuoted(a) && PassesQuoted(b)
    ensures PassesQuoted(a + b)
  {
    forall s | InText(s) ensures Scanned(s, a + b) == Ok(Grow(s, a + b)) {
      ScanJoin(s, a, b);
      GrowJoin(s, a, b);
      assert InText(Grow(s, a));
    }
  }

  lemma ClosesAfter(a: string, b: string)
    requires Passes(a) && Closes(b)
    ensures Closes(a + b)
  {
    forall s | Inside(s) ensures Scanned(s, a + b) == Ok(Close(Grow(s, a + b))) {
      ScanJoin(s, a, b);
      GrowJoin(s, a, b);
      assert Inside(Grow(s, a));
    }
  }

  predicate Quiet(c: char) {
    c != '"' && c != '{' && c != '[' && c != '}' && c != ']'
  }

  predicate QuietText(text: string) {
    forall i :: 0 <= i < |text| ==> Quiet(text[i])
  }

  lemma {:induction false} QuietPasses(text: string)
    requires QuietText(text)
    ensures Passes(text)
  {
    forall s | Inside(s) ensures Scanned(s, text) == Ok(Grow(s, text)) {
      if text == [] {
        assert s.pending + text == s.pending;
      } else {
        var init, c := text[..|text| - 1], text[|text| - 1];
        QuietPasses(init);
        assert Inside(Grow(s, init));
        assert init + [c] == text;
        GrowJoin(s, init, [c]);
      }
    }
  }

  lemma BracketCloses(c: char)
    requires c == ']' || c == '}'
    ensures Closes([c])
  {
    forall s | Inside(s) ensures Scanned(s, [c]) == Ok(Close(Grow(s, [c]))) { ScanOne(s, c); }
  }

  /** An opening bracket and a body that closes it. */
  lemma Bracketed(c: char, body: string)
    requires (c == '[' || c == '{') && Closes(body)
    ensures Passes([c] + body)
    ensures forall s: Scan :: s.depth == 0 && !s.inString && !s.escaped && s.pending == [] ==>
      Scanned(s, [c] + body) == Ok(s.(documents := s.documents + [[c] + body]))
  {
    forall s | Inside(s) ensures Scanned(s, [c] + body) == Ok(Grow(s, [c] + body)) {
      ScanOne(s, c);
      ScanJoin(s, [c], body);
      GrowJoin(s, [c], body);
      assert Inside(Step(s, c).value);
    }
    forall s: Scan | s.depth == 0 && !s.inString && !s.escaped && s.pending == []
      ensures Scanned(s, [c] + body) == Ok(s.(documents := s.documents + [[c] + body]))
    {
      ScanOne(s, c);
      ScanJoin(s, [c], body);
      var t := Step(s, c).value;
      assert t.pending == [c] && Inside(t);
    }
  }

  // ---- strings

  lemma PlainQuoted(c: char)
    requires c != '"' && c != '\\'
    ensures PassesQuoted([c])
  {
    forall s | InText(s) ensures Scanned(s, [c]) == Ok(Grow(s, [c])) { ScanOne(s, c); }
  }

  lemma EscapeQuoted(c: char)
    ensures PassesQuoted(['\\', c])
  {
    forall s | InText(s) ensures Scanned(s, ['\\', c]) == Ok(Grow(s, ['\\', c])) {
      assert ['\\', c] == ['\\'] + [c];
      ScanOne(s, '\\');
      ScanJoin(s, ['\\'], [c]);
      ScanOne(Step(s, '\\').value, c);
      assert s.pending + ['\\'] + [c] == s.pending + ['\\', c];
    }
  }

  lemma EmptyQuoted()
    ensures PassesQuoted([])
  {
    forall s | InText(s) ensures Scanned(s, []) == Ok(Grow(s, [])) { assert s.pending + [] == s.pending; }
  }

  lemma {:induction false} HexQuoted(hex: string, n: nat, acc: nat)
    requires |hex| == n && HexDigits(hex, n, acc).Ok?
    ensures PassesQuoted(hex)
  {
    if n == 0 {
      EmptyQuoted();
      assert hex == [];
    } else {
      HexQuoted(hex[1..], n - 1, acc * 16 + HexValue(hex[0]).value);
      PlainQuoted(hex[0]);
      QuotedJoin([hex[0]], hex[1..]);
      assert hex == [hex[0]] + hex[1..];
    }
  }

  lemma PieceQuoted(p: Piece)
    requires GoodPiece(p)
    ensures PassesQuoted(PieceText(p))
  {
    hide PassesQuoted, HexDigits;
    match p
    case Plain(c) => PlainQuoted(c);
    case Short(c) => EscapeQuoted(c);
    case Unicode(hex) =>
      EscapeQuoted('u');
      HexQuoted(hex, 4, 0);
      QuotedJoin(['\\', 'u'], hex);
    case Pair(high, low) =>
      EscapeQuoted('u');
      HexQuoted(high, 4, 0);
      HexQuoted(low, 4, 0);
      QuotedJoin(['\\', 'u'], high);
      QuotedJoin(['\\', 'u'] + high, ['\\', 'u']);
      QuotedJoin(['\\', 'u'] + high + ['\\', 'u'], low);
  }

  lemma {:induction false} PiecesQuoted(ps: seq<Piece>)
    requires GoodPieces(ps)
    ensures PassesQuoted(PiecesText(ps))
  {
    hide PassesQuoted, GoodPiece, PieceText;
    if ps == [] {
      EmptyQuoted();
    } else {
      PieceQuoted(ps[0]);
      PiecesQuoted(ps[1..]);
      QuotedJoin(PieceText(ps[0]), PiecesText(ps[1..]));
    }
  }

  lemma QuotesAround(s: Scan, body: string)
    requires !s.inString && !s.escaped && PassesQuoted(body)
    ensures Scanned(s, "\"" + (body + "\"")) == Ok(Grow(s, "\"" + (body + "\"")))
  {
    hide Scanned;
    var open := Grow(s, "\"").(inString := true);
    ScanOne(s, '"');
    ScanJoin(s, "\"", body + "\"");
    assert InText(open);
    ScanJoin(open, body, "\"");
    ScanOne(Grow(open, body), '"');
    assert s.pending + "\"" + body + "\"" == s.pending + ("\"" + (body + "\""));
  }

  lemma StringPasses(ps: seq<Piece>)
    requires GoodPieces(ps)
    ensures Passes(QuotedText(ps))
  {
    hide GoodPieces, PiecesText, PassesQuoted, Scanned;
    PiecesQuoted(ps);
    forall s | Inside(s) ensures Scanned(s, QuotedText(ps)) == Ok(Grow(s, QuotedText(ps))) {
      QuotesAround(s, PiecesText(ps));
    }
  }

  // ---- trees

  lemma SpacesPass(w: string)
    requires IsSpaces(w)
    ensures Passes(w)
  {
    QuietPasses(w);
  }

  lemma NumeralPasses(n: Numeral)
    requires GoodNumeral(n)
    ensures Passes(NumeralText(n))
  {
    hide Passes;
    assert QuietText(FractionText(n.fraction)) && QuietText(ExponentText(n.exponent));
    QuietPasses(NumeralText(n));
  }

  lemma CommaPasses()
    ensures Passes(",") && Passes(":")
  {
    QuietPasses(",");
    QuietPasses(":");
  }

  /** The body of a container, with its closing bracket. */
  function Body(t: Tree): string
    requires t.TArray? || t.TObject?
  {
    match t
    case TArray(space, elements) => if elements.NoElements? then space + "]" else ElementsText(elements)
    case TObject(space, members) => if members.NoMembers? then space + "}" else MembersText(members)
  }

  lemma {:induction false} TreePasses(t: Tree, representable: string -> bool)
    requires GoodTree(t, representable)
    ensures Passes(TreeText(t))
    ensures t.TArray? || t.TObject? ==> Closes(Body(t))
    decreases t, 0
  {
    hide Passes, Closes, GoodPieces, GoodNumeral, IsSpaces;
    match t
    case TNull => QuietPasses("null");
    case TTrue => QuietPasses("true");
    case TFalse => QuietPasses("false");
    case TNumber(n) => NumeralPasses(n);
    case TString(ps) => StringPasses(ps);
    case TArray(space, elements) =>
      if elements.NoElements? {
        SpacesPass(space);
        BracketCloses(']');
        ClosesAfter(space, "]");
      } else {
        ElementsClose(elements, representable);
      }
      Bracketed('[', Body(t));
    case TObject(space, members) =>
      if members.NoMembers? {
        SpacesPass(space);
        BracketCloses('}');
        ClosesAfter(space, "}");
      } else {
        MembersClose(members, {}, representable);
      }
      Bracketed('{', Body(t));
  }

  lemma {:induction false} ElementsClose(es: Elements, representable: string -> bool)
    requires es.Element? && GoodElements(es, representable)
    ensures Closes(ElementsText(es))
    decreases es, 1
  {
    hide Passes, Closes, IsSpaces, TreeText, GoodTree;
    SpacesPass(es.before);
    SpacesPass(es.after);
    TreePasses(es.value, representable);
    var tail := if es.rest.NoElements? then "]" else "," + ElementsText(es.rest);
    if es.rest.NoElements? {
      BracketCloses(']');
    } else {
      ElementsClose(es.rest, representable);
      CommaPasses();
      ClosesAfter(",", ElementsText(es.rest));
    }
    ClosesAfter(es.after, tail);
    ClosesAfter(TreeText(es.value), es.after + tail);
    ClosesAfter(es.before, TreeText(es.value) + (es.after + tail));
  }

  lemma {:induction false} MembersClose(ms: Members, seen: set<string>, representable: string -> bool)
    requires ms.Member? && GoodMembers(ms, seen, representable)
    ensures Closes(MembersText(ms))
    decreases ms, 1
  {
    hide Passes, Closes, IsSpaces, TreeText, GoodTree, GoodPieces, QuotedText;
    SpacesPass(ms.before);
    SpacesPass(ms.beforeColon);
    SpacesPass(ms.afterColon);
    SpacesPass(ms.after);
    StringPasses(ms.key);
    TreePasses(ms.value, representable);
    CommaPasses();
    var tail := if ms.rest.NoMembers? then "}" else "," + MembersText(ms.rest);
    if ms.rest.NoMembers? {
      BracketCloses('}');
    } else {
      MembersClose(ms.rest, seen + {PiecesValue(ms.key)}, representable);
      ClosesAfter(",", MembersText(ms.rest));
    }
    ClosesAfter(ms.after, tail);
    ClosesAfter(TreeText(ms.value), ms.after + tail);
    var fromValue := TreeText(ms.value) + (ms.after + tail);
    ClosesAfter(ms.afterColon, fromValue);
    ClosesAfter(":", ms.afterColon + fromValue);
    ClosesAfter(ms.beforeColon, ":" + (ms.afterColon + fromValue));
    ClosesAfter(QuotedText(ms.key), ms.beforeColon + (":" + (ms.afterColon + fromValue)));
    ClosesAfter(ms.before, QuotedText(ms.key) + (ms.beforeColon + (":" + (ms.afterColon + fromValue))));
  }

  // ---- several documents

  /** A document with the blanks before it. */
  datatype Printed = Printed(before: string, tree: Tree)

  ghost predicate GoodPrinted(p: Printed, representable: string -> bool) {
    IsSpaces(p.before) && GoodTree(p.tree, representable)
  }

  function PrintAll(ps: seq<Printed>): string {
    if ps == [] then [] else PrintAll(ps[..|ps| - 1]) + (ps[|ps| - 1].before + TreeText(ps[|ps| - 1].tree))
  }

  predicate IsContainer(t: Tree) {
    t.TArray? || t.TObject?
  }

  /** The texts of the arrays and objects. */
  function ContainerTexts(ps: seq<Printed>): seq<string> {
    if ps == [] then []
    else ContainerTexts(ps[..|ps| - 1]) + if IsContainer(ps[|ps| - 1].tree) then [TreeText(ps[|ps| - 1].tree)] else []
  }

  predicate IsScalar(t: Tree) {
    t.TNull? || t.TTrue? || t.TFalse? || t.TNumber?
  }

  predicate Between(s: Scan) {
    s.depth == 0 && !s.inString && !s.escaped && s.pending == []
  }

  lemma {:induction false} BlanksBetween(s: Scan, w: string)
    requires IsSpaces(w) && Between(s)
    ensures Scanned(s, w) == Ok(s)
  {
    if w != [] { BlanksBetween(s, w[..|w| - 1]); }
  }

  lemma ContainerText(t: Tree)
    requires IsContainer(t)
    ensures TreeText(t) == (if t.TArray? then ['['] else ['{']) + Body(t)
  {
  }

  lemma ContainerBetween(s: Scan, t: Tree, representable: string -> bool)
    requires Between(s) && GoodTree(t, representable) && IsContainer(t)
    ensures Scanned(s, TreeText(t)) == Ok(s.(documents := s.documents + [TreeText(t)]))
  {
    hide Scanned, GoodTree, TreeText, Closes, Passes, Body;
    TreePasses(t, representable);
    ContainerText(t);
    Bracketed(if t.TArray? then '[' else '{', Body(t));
  }

  lemma StringBetween(s: Scan, ps: seq<Piece>)
    requires Between(s) && GoodPieces(ps)
    ensures Scanned(s, QuotedText(ps)) == Ok(s)
  {
    hide Scanned, GoodPieces, PiecesText, PassesQuoted;
    PiecesQuoted(ps);
    QuotesAround(s, PiecesText(ps));
  }

  /** The first byte of a number or a literal name is refused between documents. */
  lemma ScalarBetween(s: Scan, t: Tree, representable: string -> bool)
    requires Between(s) && GoodTree(t, representable) && IsScalar(t)
    ensures Scanned(s, TreeText(t)) == Err(ContentBetween)
  {
    hide Scanned;
    var text := TreeText(t);
    assert text != [] && Quiet(text[0]) && !Blank(text[0]) by {
      if t.TNumber? && !t.numeral.negative { assert text[0] == t.numeral.whole[0]; }
    }
    ScanOne(s, text[0]);
    assert text[..1] == [text[0]];
    ScanFails(s, text, 1);
  }

  /** One more document with the blanks before it. */
  lemma PrintedBetween(s: Scan, p: Printed, representable: string -> bool)
    requires Between(s) && GoodPrinted(p, representable)
    ensures Scanned(s, p.before + TreeText(p.tree)) ==
      if IsScalar(p.tree) then Err(ContentBetween)
      else if IsContainer(p.tree) then Ok(s.(documents := s.documents + [TreeText(p.tree)]))
      else Ok(s)
  {
    hide Scanned, GoodTree, TreeText, IsSpaces, GoodPieces, QuotedText;
    BlanksBetween(s, p.before);
    ScanJoin(s, p.before, TreeText(p.tree));
    if IsScalar(p.tree) {
      ScalarBetween(s, p.tree, representable);
    } else if IsContainer(p.tree) {
      ContainerBetween(s, p.tree, representable);
    } else {
      TopString(p.tree, representable);
      StringBetween(s, p.tree.pieces);
    }
  }

  lemma TopString(t: Tree, representable: string -> bool)
    requires t.TString? && GoodTree(t, representable)
    ensures GoodPieces(t.pieces) && TreeText(t) == QuotedText(t.pieces)
  {
  }

  ghost predicate NoScalar(ps: seq<Printed>) {
    forall p :: p in ps ==> !IsScalar(p.tree)
  }

  lemma {:induction false} AllScanned(ps: seq<Printed>, representable: string -> bool)
    requires forall p :: p in ps ==> GoodPrinted(p, representable)
    ensures Scanned(START, PrintAll(ps)) ==
      if NoScalar(ps) then Ok(START.(documents := ContainerTexts(ps))) else Err(ContentBetween)
  {
    hide GoodPrinted, TreeText, Scanned, IsScalar, IsContainer;
    NothingScanned();
    if ps != [] {
      var init, last := ps[..|ps| - 1], ps[|ps| - 1];
      assert ps == init + [last] && last in ps;
      AllScanned(init, representable);
      var text := last.before + TreeText(last.tree);
      if NoScalar(init) {
        PrintedBetween(START.(documents := ContainerTexts(init)), last, representable);
        ScanJoin(START, PrintAll(init), text);
        ScalarOrContainer(last.tree);
        assert PrintAll(ps) == PrintAll(init) + text;
        assert NoScalar(ps) <==> !IsScalar(last.tree);
        assert ContainerTexts(init) + [] == ContainerTexts(init);
      } else {
        assert PrintAll(ps)[..|PrintAll(init)|] == PrintAll(init);
        ScanFails(START, PrintAll(ps), |PrintAll(init)|);
      }
    }
  }

  lemma ScalarOrContainer(t: Tree)
    ensures !(IsScalar(t) && IsContainer(t))
  {
  }

  /** Values of the grammar, written one after another with any blanks between them, are split
      without an error exactly when none of them is a number or a literal name; the documents are
      then the arrays and objects, and strings are dropped. */
  lemma SplitPrinted(ps: seq<Printed>, after: string, representable: string -> bool)
    requires (forall p :: p in ps ==> GoodPrinted(p, representable)) && IsSpaces(after)
    ensures Split(PrintAll(ps) + after) == if NoScalar(ps) then Ok(ContainerTexts(ps)) else Err(ContentBetween)
  {
    hide Scanned, GoodPrinted, TreeText, IsSpaces, IsScalar, IsContainer;
    AllScanned(ps, representable);
    if NoScalar(ps) {
      ScanJoin(START, PrintAll(ps), after);
      BlanksBetween(START.(documents := ContainerTexts(ps)), after);
    } else {
      var text := PrintAll(ps) + after;
      assert text[..|PrintAll(ps)|] == PrintAll(ps);
      ScanFails(START, text, |PrintAll(ps)|);
    }
  }

  function TextsOf(ps: seq<Printed>): seq<string> {
    seq(|ps|, i requires 0 <= i < |ps| => TreeText(ps[i].tree))
  }

  lemma {:induction false} FewerTexts(ps: seq<Printed>)
    ensures |ContainerTexts(ps)| <= |ps|
    ensures |ContainerTexts(ps)| == |ps| <==> forall p :: p in ps ==> IsContainer(p.tree)
    ensures |ContainerTexts(ps)| == |ps| ==> ContainerTexts(ps) == TextsOf(ps)
  {
    hide IsContainer, TreeText;
    if ps != [] {
      var init, last := ps[..|ps| - 1], ps[|ps| - 1];
      assert ps == init + [last] && last in ps;
      FewerTexts(init);
      assert TextsOf(ps) == TextsOf(init) + [TreeText(last.tree)];
    }
  }

  /** The split gives every value exactly when all of them are arrays and objects, and each is then
      parsed to the value it denotes. */
  lemma SplitGivesAllIff(ps: seq<Printed>, after: string, representable: string -> bool)
    requires (forall p :: p in ps ==> GoodPrinted(p, representable)) && IsSpaces(after)
    ensures Split(PrintAll(ps) + after) == Ok(TextsOf(ps)) <==> forall p :: p in ps ==> IsContainer(p.tree)
    ensures forall i :: 0 <= i < |ps| ==>
      GoodTree(ps[i].tree, representable) && ParseDocument(TextsOf(ps)[i], representable) == Ok(TreeValue(ps[i].tree, representable))
  {
    hide Split, GoodTree, TreeText, TreeValue, ParseDocument, IsSpaces, IsContainer, IsScalar;
    SplitPrinted(ps, after, representable);
    FewerTexts(ps);
    forall p: Printed ensures !(IsScalar(p.tree) && IsContainer(p.tree)) { ScalarOrContainer(p.tree); }
    forall i | 0 <= i < |ps|
      ensures GoodTree(ps[i].tree, representable) && ParseDocument(TextsOf(ps)[i], representable) == Ok(TreeValue(ps[i].tree, representable))
    {
      assert ps[i] in ps;
      ParsesAlone(ps[i].tree, representable);
    }
  }

  /** A string at the top level is dropped without an error; a number is an error. */
  lemma StringsAreDropped()
    ensures Split("\"a\"") == Ok([]) && Split("1") == Err(ContentBetween)
  {
    var text := "\"a\"";
    assert text[..2] == "\"a" && text[..2][..1] == "\"" && text[..1][..0] == [];
    assert Scanned(START, []) == Ok(START);
    ScanOne(START, '"');
    var open := START.(inString := true);
    assert Scanned(START, text[..2]) == Step(open, 'a');
    assert Scanned(START, text) == Step(open, '"');
    ScanOne(START, '1');
  }

  lemma ParsesAlone(t: Tree, representable: string -> bool)
    requires GoodTree(t, representable)
    ensures ParseDocument(TreeText(t), representable) == Ok(TreeValue(t, representable))
  {
    hide GoodTree, TreeText, TreeValue, ParseDocument;
    assert TreeText(t) == [] + (TreeText(t) + []);
    DocumentRead(TreeText(t), [], t, [], representable);
  }

  /** Before a document may stand exactly a space and the characters from tab to carriage return. */
  lemma BlanksBefore(c: char)
    ensures Split([c] + "[]") == Ok(["[]"]) <==> c == ' ' || '\t' <= c <= '\r'
  {
    var text := [c, '[', ']'];
    assert [c] + "[]" == text;
    assert text[..2] == [c, '['] && [c, '['][..1] == [c] && [c][..0] == [];
    assert Scanned(START, [c]) == Step(START, c);
    if Blank(c) {
      assert Step(START, c) == Ok(START);
      var t := START.(depth := 1, pending := "[");
      assert Step(START, '[') == Ok(t) by { assert [] + ['['] == "["; }
      assert Scanned(START, [c, '[']) == Ok(t);
      assert Scanned(START, text) == Step(t, ']');
      assert "[" + [']'] == "[]" && [] + ["[]"] == ["[]"];
    } else if c == '{' || c == '[' {
      var t := START.(depth := 1, pending := [c]);
      assert Step(START, c) == Ok(t) by { assert [] + [c] == [c]; }
      assert Scanned(START, [c, '[']) == Step(t, '[');
      assert Scanned(START, text).value.depth == 1;
    } else if c == '"' {
      var t := START.(inString := true);
      assert Scanned(START, [c]) == Ok(t);
      assert Step(t, '[') == Ok(t) && Step(t, ']') == Ok(t);
      assert Scanned(START, [c, '[']) == Ok(t);
      assert Scanned(START, text) == Ok(t);
    } else {
      assert Step(START, c).Err?;
      assert Scanned(START, [c, '[']).Err?;
      assert Scanned(START, text).Err?;
    }
  }
}
