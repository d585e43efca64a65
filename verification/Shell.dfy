/** Splitting a command line into arguments, with quotes and escapes. */
module Shell {
  import opened Wrappers

  datatype Quote = Unquoted | Single | Double

  datatype Scan = Scan(quote: Quote, escaped: bool, started: bool, token: string, result: seq<string>)

  const START := Scan(Unquoted, false, false, [], [])

  predicate IsBlank(c: char) {
    c == ' ' || c == '\t' || c == '\n' || c == '\r'
  }

  function Flushed(s: Scan): Scan {
    if s.started then s.(result := s.result + [s.token], token := [], started := false) else s
  }

  function Push(s: Scan, c: char): Scan {
    s.(token := s.token + [c], started := true)
  }

  /** What one character does. */
  function Step(s: Scan, c: char): Scan {
    if s.escaped then Push(s, c).(escaped := false)
    else match s.quote
      case Single => if c == '\'' then s.(quote := Unquoted, started := true) else Push(s, c)
      case Double =>
        if c == '"' then s.(quote := Unquoted, started := true)
        else if c == '\\' then s.(escaped := true, started := true)
        else Push(s, c)
      case Unquoted =>
        if c == '\\' then s.(escaped := true, started := true)
        else if c == '\'' then s.(quote := Single, started := true)
        else if c == '"' then s.(quote := Double, started := true)
        else if IsBlank(c) then Flushed(s)
        else Push(s, c)
  }

  function Scanned(s: Scan, text: string): Scan {
    if text == [] then s else Step(Scanned(s, text[..|text| - 1]), text[|text| - 1])
  }

  datatype Unterminated = Unterminated

  function Split(text: string): Result<seq<string>, Unterminated> {
    var s := Scanned(START, text);
    if s.escaped || s.quote != Unquoted then Err(Unterminated) else Ok(Flushed(s).result)
  }

  method SplitShellCommand(command: string) returns (r: Result<seq<string>, Unterminated>)
    ensures r == Split(command)
  {
    var quote, escaped, started, token := Unquoted, false, false, "";
    var result: seq<string> := [];
    for i := 0 to |command|
      invariant Scanned(START, command[..i]) == Scan(quote, escaped, started, token, result)
    {
      assert command[..i + 1][..i] == command[..i];
      var c := command[i];
      if escaped {
        token, started, escaped := token + [c], true, false;
        continue;
      }
      if quote == Single {
        if c == '\'' { quote := Unquoted; } else { token := token + [c]; }
        started := true;
        continue;
      }
      if quote == Double {
        if c == '"' {
          quote := Unquoted;
        } else if c == '\\' {
          escaped := true;
        } else {
          token := token + [c];
        }
        started := true;
        continue;
      }
      if c == '\\' {
        escaped, started := true, true;
      } else if c == '\'' {
        quote, started := Single, true;
      } else if c == '"' {
        quote, started := Double, true;
      } else if IsBlank(c) {
        if started { result, token, started := result + [token], "", false; }
      } else {
        token, started := token + [c], true;
      }
    }
    assert command[..|command|] == command;
    if escaped || quote != Unquoted { return Err(Unterminated); }
    if started { result := result + [token]; }
    r := Ok(result);
  }

  // ---- quoting is undone

  lemma {:induction false} ScannedJoin(s: Scan, a: string, b: string)
    ensures Scanned(s, a + b) == Scanned(Scanned(s, a), b)
  {
    if b == [] {
      assert a + b == a;
    } else {
      assert (a + b)[..|a + b| - 1] == a + b[..|b| - 1];
      ScannedJoin(s, a, b[..|b| - 1]);
    }
  }

  /** The argument between single quotes; a single quote leaves the quotes for a moment. */
  function QuoteInner(arg: string): string {
    if arg == [] then [] else QuoteInner(arg[..|arg| - 1]) + if arg[|arg| - 1] == '\'' then "'\\''" else [arg[|arg| - 1]]
  }

  function Quoted(arg: string): string {
    "'" + (QuoteInner(arg) + "'")
  }

  function Command(args: seq<string>): string {
    if args == [] then [] else Command(args[..|args| - 1]) + (Quoted(args[|args| - 1]) + " ")
  }

  lemma ScanOne(s: Scan, c: char)
    ensures Scanned(s, [c]) == Step(s, c)
  {
    assert [c][..0] == [];
  }

  lemma {:induction false} InnerScanned(s: Scan, arg: string)
    requires s.quote == Single && !s.escaped
    ensures Scanned(s, QuoteInner(arg)) == s.(token := s.token + arg, started := s.started || arg != [])
  {
    if arg == [] {
      assert s.token + arg == s.token;
    } else {
      var init, c := arg[..|arg| - 1], arg[|arg| - 1];
      InnerScanned(s, init);
      var t := Scanned(s, QuoteInner(init));
      assert s.token + init + [c] == s.token + arg;
      if c == '\'' {
        ScannedJoin(s, QuoteInner(init), "'\\''");
        EscapedQuote(t);
      } else {
        ScannedJoin(s, QuoteInner(init), [c]);
        ScanOne(t, c);
      }
    }
  }

  lemma EscapedQuote(t: Scan)
    requires t.quote == Single && !t.escaped
    ensures Scanned(t, "'\\''") == Push(t, '\'')
  {
    var q := "'\\''";
    assert q[..4] == q && q[..4][..3] == q[..3] && q[..3][..2] == q[..2] && q[..2][..1] == q[..1] && q[..1][..0] == [];
    assert Scanned(t, q[..1]) == Step(t, '\'');
    assert Scanned(t, q[..2]) == Step(Step(t, '\''), '\\');
    assert Scanned(t, q[..3]) == Step(Step(Step(t, '\''), '\\'), '\'');
  }

  lemma QuotedScanned(s: Scan, arg: string)
    requires s.quote == Unquoted && !s.escaped && !s.started && s.token == []
    ensures Scanned(s, Quoted(arg) + " ") == s.(result := s.result + [arg])
  {
    var open := s.(quote := Single, started := true);
    ScanOne(s, '\'');
    InnerScanned(open, arg);
    ScannedJoin(s, "'", QuoteInner(arg) + "'");
    ScannedJoin(open, QuoteInner(arg), "'");
    var inside := Scanned(open, QuoteInner(arg));
    ScanOne(inside, '\'');
    assert s.token + arg == arg;
    assert Scanned(s, Quoted(arg)) == s.(token := arg, started := true);
    ScannedJoin(s, Quoted(arg), " ");
    ScanOne(Scanned(s, Quoted(arg)), ' ');
  }

  lemma {:induction false} CommandScanned(args: seq<string>)
    ensures Scanned(START, Command(args)) == START.(result := args)
  {
    if args != [] {
      var init, last := args[..|args| - 1], args[|args| - 1];
      CommandScanned(init);
      ScannedJoin(START, Command(init), Quoted(last) + " ");
      QuotedScanned(START.(result := init), last);
      assert init + [last] == args;
    }
  }

  /** Any list of arguments, whatever they hold, can be written so that splitting gives it back. */
  lemma SplitCommand(args: seq<string>)
    ensures Split(Command(args)) == Ok(args)
  {
    CommandScanned(args);
  }

  /** Two letters are parted exactly by a space, a tab, a line feed or a carriage return. */
  lemma BlanksPart(c: char)
    ensures Split(['a', c, 'b']) == Ok(["a", "b"]) <==> c in {' ', '\t', '\n', '\r'}
  {
    var text := ['a', c, 'b'];
    var a := START.(token := ['a'], started := true);
    assert text[..2] == ['a', c] && ['a', c][..1] == ['a'] && ['a'][..0] == [] && [] + ['a'] == ['a'];
    assert Step(START, 'a') == a && Scanned(START, ['a']) == a;
    assert Scanned(START, ['a', c]) == Step(a, c);
    assert Scanned(START, text) == Step(Step(a, c), 'b');
    if IsBlank(c) {
      assert Step(a, c) == START.(result := [['a']]) by { assert [] + [['a']] == [['a']]; }
      var t := START.(result := [['a']], token := ['b'], started := true);
      assert Step(START.(result := [['a']]), 'b') == t by { assert [] + ['b'] == ['b']; }
      assert Scanned(START, text) == t && Flushed(t).result == [['a']] + [['b']];
      assert [['a']] + [['b']] == ["a", "b"];
    } else if c == '\'' || c == '"' {
      assert Split(text).Err?;
    } else {
      assert Step(Step(a, c), 'b').result == [];
      assert Split(text).Ok? && |Split(text).value| == 1;
    }
  }
}
