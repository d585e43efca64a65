/** The reader as it runs: one cursor that every routine advances. */
module JsonParser {
  import opened Wrappers
  import opened Text
  import opened Json
  import opened JsonGrammar

  class Parser {
    const input: string
    const representable: string -> bool
    var position: nat

    constructor (input: string, representable: string -> bool)
      ensures this.input == input && this.representable == representable && position == 0
    {
      this.input := input;
      this.representable := representable;
      position := 0;
    }

    function Rest(): string
      requires position <= |input|
      reads this
    {
      input[position..]
    }

    /** r is what the specification says, and the cursor stands where it left off. */
    ghost predicate Agrees<T>(r: Result<T, Failure>, spec: Parsed<T>)
      reads this
    {
      && position <= |input|
      && (r.Ok? ==> spec == Ok((r.value, Rest())))
      && (r.Err? ==> spec == Err(r.error))
    }

    method Fail<T>(reason: Reason) returns (r: Result<T, Failure>)
      requires position <= |input|
      ensures r == Err(Failure(reason, |Rest()|))
    {
      r := Err(Failure(reason, |input| - position));
    }

    method SkipSpaces()
      requires position <= |input|
      modifies this`position
      ensures old(position) <= position <= |input|
      ensures Rest() == SkipSpace(old(Rest()))
    {
      while position < |input| && IsSpace(input[position])
        invariant old(position) <= position <= |input|
        invariant SkipSpace(Rest()) == SkipSpace(old(Rest()))
      {
        assert Rest()[1..] == input[position + 1..];
        position := position + 1;
      }
    }

    method Consume(c: char) returns (found: bool)
      requires position <= |input|
      modifies this`position
      ensures found == Starts(old(Rest()), c)
      ensures position == if found then old(position) + 1 else old(position)
      ensures position <= |input|
      ensures found ==> Rest() == old(Rest())[1..]
    {
      found := position < |input| && input[position] == c;
      if found { position := position + 1; }
    }

    method ReadHexQuad() returns (r: Result<nat, Failure>)
      requires position <= |input|
      modifies this`position
      ensures old(position) <= position && Agrees(r, HexQuad(old(Rest())))
    {
      hide HexDigits;
      if position + 4 > |input| {
        r := Fail(IncompleteUnicode);
        return;
      }
      var valid, value := ReadHexDigits(4);
      if valid {
        r := Ok(value);
      } else {
        r := Fail(InvalidUnicode);
      }
    }

    method ReadHexDigits(n: nat) returns (valid: bool, result: nat)
      requires position + n <= |input|
      modifies this`position
      ensures old(position) <= position <= |input|
      ensures HexDigits(old(Rest()), n, 0) == if valid then Ok((result, Rest())) else Err(Failure(InvalidUnicode, |Rest()|))
    {
      hide HexDigits, HexValue;
      ghost var s := Rest();
      var begin := position;
      result := 0;
      for i := 0 to n
        invariant position == begin + i && HexDigits(s[i..], n - i, result) == HexDigits(s, n, 0)
      {
        var digit := HexValue(input[position]);
        HexStep(s[i..], n - i, result);
        assert s[i..][1..] == s[i + 1..];
        position := position + 1;
        assert Rest() == s[i + 1..];
        if digit.None? { return false, result; }
        result := result * 16 + digit.value;
      }
      HexEnd(s[n..], result);
      assert Rest() == s[n..];
      valid := true;
    }

    /** The code point of a \u escape, with its low surrogate where one is needed. */
    method ReadCodePoint(first: nat) returns (r: Result<nat, Failure>)
      requires position <= |input| && first < 0x10000
      modifies this`position
      ensures old(position) <= position && Agrees(r, CodePoint(first, old(Rest())))
    {
      hide HexQuad;
      if 0xd800 <= first <= 0xdbff {
        if position + 2 > |input| || input[position] != '\\' || input[position + 1] != 'u' {
          r := Fail(MissingLowSurrogate);
          return;
        }
        assert Rest()[2..] == input[position + 2..];
        position := position + 2;
        var low := ReadHexQuad();
        if low.Err? { return low; }
        if low.value < 0xdc00 || low.value > 0xdfff {
          r := Fail(InvalidLowSurrogate);
          return;
        }
        return Ok(0x10000 + (first - 0xd800) * 0x400 + (low.value - 0xdc00));
      }
      r := Ok(first);
    }

    method ReadEscape() returns (r: Result<string, Failure>)
      requires position <= |input|
      modifies this`position
      ensures old(position) <= position && Agrees(r, Escape(old(Rest())))
    {
      hide HexQuad, CodePoint, Utf8, ShortEscape;
      if position >= |input| {
        r := Fail(IncompleteEscape);
        return;
      }
      var escaped := input[position];
      assert Rest()[1..] == input[position + 1..];
      ghost var tail := Rest()[1..];
      position := position + 1;
      if escaped == 'u' {
        var quad := ReadHexQuad();
        if quad.Err? { return Err(quad.error); }
        HexQuadBound(tail);
        var cp := ReadCodePoint(quad.value);
        if cp.Err? { return Err(cp.error); }
        r := Ok(Utf8(cp.value));
      } else {
        match ShortEscape(escaped) {
          case Some(c) => r := Ok([c]);
          case None => r := Fail(InvalidEscape);
        }
      }
    }

    method ReadString() returns (r: Result<string, Failure>)
      requires position <= |input|
      modifies this`position
      ensures Agrees(r, ParseString(old(Rest())))
      ensures r.Ok? ==> old(position) < position
    {
      hide Escape;
      var quote := Consume('"');
      if !quote {
        r := Fail(Expected('"'));
        return;
      }
      var result: string := [];
      ghost var whole := Chars(Rest(), []);
      while position < |input|
        invariant old(position) < position <= |input|
        invariant Chars(Rest(), result) == whole
      {
        var c := input[position];
        assert Rest()[0] == c && Rest()[1..] == input[position + 1..];
        ghost var tail := Rest()[1..];
        position := position + 1;
        if c == '"' { return Ok(result); }
        if c < ' ' {
          r := Fail(ControlCharacter);
          return;
        }
        if c != '\\' {
          result := result + [c];
        } else {
          var piece := ReadEscape();
          if piece.Err? { return Err(piece.error); }
          result := result + piece.value;
        }
      }
      r := Fail(UnterminatedString);
    }

    // ---- numbers

    method SkipDigits()
      requires position <= |input|
      modifies this`position
      ensures position <= |input| && position == old(position) + DigitSpan(old(Rest()))
    {
      while position < |input| && IsDigit(input[position])
        invariant old(position) <= position <= |input|
        invariant position + DigitSpan(Rest()) == old(position) + DigitSpan(old(Rest()))
      {
        assert Rest()[1..] == input[position + 1..];
        position := position + 1;
      }
    }

    method ReadWhole(begin: nat) returns (r: Result<(), Failure>)
      requires begin <= position <= |input|
      modifies this`position
      ensures position <= |input|
      ensures r.Ok? ==> WholeEnd(input[begin..], old(position) - begin) == Ok(position - begin)
      ensures r.Err? ==> WholeEnd(input[begin..], old(position) - begin) == Err(r.error)
    {
      assert input[begin..][position - begin..] == Rest();
      assert position < |input| ==> input[begin..][position - begin] == input[position];
      var zero := Consume('0');
      if zero { return Ok(()); }
      if position >= |input| || !('1' <= input[position] <= '9') {
        r := Fail(InvalidNumber);
        return;
      }
      SkipDigits();
      r := Ok(());
    }

    method ReadFraction(begin: nat) returns (r: Result<(), Failure>)
      requires begin <= position <= |input|
      modifies this`position
      ensures position <= |input|
      ensures r.Ok? ==> FractionEnd(input[begin..], old(position) - begin) == Ok(position - begin)
      ensures r.Err? ==> FractionEnd(input[begin..], old(position) - begin) == Err(r.error)
    {
      var s := input[begin..];
      assert position < |input| ==> s[position - begin] == input[position];
      assert position + 1 < |input| ==> s[position + 1 - begin] == input[position + 1];
      var point := Consume('.');
      if point {
        assert s[position - begin..] == Rest();
        if position >= |input| || !IsDigit(input[position]) {
          r := Fail(InvalidFraction);
          return;
        }
        SkipDigits();
      }
      r := Ok(());
    }

    method ReadExponent(begin: nat) returns (r: Result<(), Failure>)
      requires begin <= position <= |input|
      modifies this`position
      ensures position <= |input|
      ensures r.Ok? ==> ExponentEnd(input[begin..], old(position) - begin) == Ok(position - begin)
      ensures r.Err? ==> ExponentEnd(input[begin..], old(position) - begin) == Err(r.error)
    {
      hide DigitSpan;
      ghost var s := input[begin..];
      SliceAt(input, begin, position);
      if position < |input| && (input[position] == 'e' || input[position] == 'E') {
        position := position + 1;
        SliceAt(input, begin, position);
        if position < |input| && (input[position] == '+' || input[position] == '-') {
          position := position + 1;
        }
        SliceAt(input, begin, position);
        if position >= |input| || !IsDigit(input[position]) {
          r := Fail(InvalidExponent);
          return;
        }
        SkipDigits();
      }
      r := Ok(());
    }

    method ReadNumber() returns (r: Result<Value, Failure>)
      requires position <= |input|
      modifies this`position
      ensures Agrees(r, ParseNumber(old(Rest()), representable))
      ensures r.Ok? ==> old(position) < position
    {
      hide WholeEnd, FractionEnd, ExponentEnd;
      var begin := position;
      ghost var s := Rest();
      var minus := Consume('-');
      if minus && position >= |input| {
        r := Fail(IncompleteNumber);
        return;
      }
      var whole := ReadWhole(begin);
      if whole.Err? { return Err(whole.error); }
      WholeProgress(s, if minus then 1 else 0);
      var fraction := ReadFraction(begin);
      if fraction.Err? { return Err(fraction.error); }
      FractionProgress(s, WholeEnd(s, if minus then 1 else 0).value);
      var exponent := ReadExponent(begin);
      if exponent.Err? { return Err(exponent.error); }
      assert NumberEnd(s) == Ok(position - begin);
      var token := input[begin..position];
      assert token == s[..position - begin] && Rest() == s[position - begin..];
      if !representable(token) {
        r := Fail(NotRepresentable);
        return;
      }
      r := Ok(Number(token));
    }

    // ---- values

    method ReadLiteral(word: string, v: Value) returns (r: Result<Value, Failure>)
      requires position <= |input| && word != []
      modifies this`position
      ensures Agrees(r, Literal(old(Rest()), word, v))
      ensures r.Ok? ==> old(position) < position
    {
      if !(word <= input[position..]) {
        r := Fail(InvalidLiteral);
        return;
      }
      assert Rest()[|word|..] == input[position + |word|..];
      position := position + |word|;
      r := Ok(v);
    }

    /** One of the three literal names, by its first letter. */
    method ReadWord() returns (r: Result<Value, Failure>)
      requires position < |input| && StartsWord(input[position]) && SkipSpace(Rest()) == Rest()
      modifies this`position
      ensures Agrees(r, ParseValue(old(Rest()), representable))
      ensures r.Ok? ==> old(position) < position
    {
      hide ParseItems, ParseMembers, SkipSpace, ParseString, ParseNumber, Literal;
      match input[position] {
        case 'n' => r := ReadLiteral("null", Null);
        case 't' => r := ReadLiteral("true", Bool(true));
        case _ => r := ReadLiteral("false", Bool(false));
      }
    }

    /** The elements of an array after its opening bracket. */
    method ReadItems() returns (r: Result<Value, Failure>)
      requires position <= |input|
      modifies this`position
      ensures Agrees(r, ParseItems(old(Rest()), [], representable))
      ensures r.Ok? ==> old(position) < position
      decreases |input| - position, 2
    {
      hide ParseValue, SkipSpace;
      ghost var whole := ParseItems(Rest(), [], representable);
      var result: seq<Value> := [];
      while true
        invariant old(position) <= position <= |input|
        invariant ParseItems(Rest(), result, representable) == whole
        decreases |input| - position
      {
        var item := ReadValue();
        if item.Err? { return Err(item.error); }
        result := result + [item.value];
        SkipSpaces();
        var close := Consume(']');
        if close { return Ok(Array(result)); }
        var comma := Consume(',');
        if !comma {
          r := Fail(Expected(','));
          return;
        }
        SkipSpaces();
      }
    }

    method ReadArray() returns (r: Result<Value, Failure>)
      requires position < |input| && input[position] == '[' && SkipSpace(Rest()) == Rest()
      modifies this`position
      ensures Agrees(r, ParseValue(old(Rest()), representable))
      ensures r.Ok? ==> old(position) < position
      decreases |input| - position, 0
    {
      hide ParseValue, ParseItems, SkipSpace;
      OpenBracket(Rest(), representable);
      var _ := Consume('[');
      SkipSpaces();
      var close := Consume(']');
      if close { return Ok(Array([])); }
      r := ReadItems();
    }

    /** The members of an object after its opening brace. */
    method ReadMembers() returns (r: Result<Value, Failure>)
      requires position <= |input|
      modifies this`position
      ensures Agrees(r, ParseMembers(old(Rest()), map[], representable))
      ensures r.Ok? ==> old(position) < position
      decreases |input| - position, 2
    {
      hide ParseValue, ParseString, SkipSpace;
      ghost var whole := ParseMembers(Rest(), map[], representable);
      var result: map<string, Value> := map[];
      while true
        invariant old(position) <= position <= |input|
        invariant ParseMembers(Rest(), result, representable) == whole
        decreases |input| - position
      {
        if position >= |input| || input[position] != '"' {
          r := Fail(ExpectedKey);
          return;
        }
        var key := ReadString();
        if key.Err? { return Err(key.error); }
        SkipSpaces();
        var colon := Consume(':');
        if !colon {
          r := Fail(Expected(':'));
          return;
        }
        SkipSpaces();
        var item := ReadValue();
        if item.Err? { return Err(item.error); }
        if key.value in result {
          r := Fail(DuplicateKey);
          return;
        }
        result := result[key.value := item.value];
        SkipSpaces();
        var close := Consume('}');
        if close { return Ok(Object(result)); }
        var comma := Consume(',');
        if !comma {
          r := Fail(Expected(','));
          return;
        }
        SkipSpaces();
      }
    }

    method ReadObject() returns (r: Result<Value, Failure>)
      requires position < |input| && input[position] == '{' && SkipSpace(Rest()) == Rest()
      modifies this`position
      ensures Agrees(r, ParseValue(old(Rest()), representable))
      ensures r.Ok? ==> old(position) < position
      decreases |input| - position, 0
    {
      hide ParseValue, ParseMembers, SkipSpace;
      OpenBrace(Rest(), representable);
      var _ := Consume('{');
      SkipSpaces();
      var close := Consume('}');
      if close { return Ok(Object(map[])); }
      r := ReadMembers();
    }

    /** A value that is a string. */
    method ReadText() returns (r: Result<Value, Failure>)
      requires position < |input| && input[position] == '"' && SkipSpace(Rest()) == Rest()
      modifies this`position
      ensures Agrees(r, ParseValue(old(Rest()), representable))
      ensures r.Ok? ==> old(position) < position
    {
      hide ParseValue, SkipSpace, ParseString;
      TextValue(Rest(), representable);
      var str := ReadString();
      r := if str.Ok? then Ok(Str(str.value)) else Err(str.error);
    }

    method ReadValue() returns (r: Result<Value, Failure>)
      requires position <= |input|
      modifies this`position
      ensures Agrees(r, ParseValue(old(Rest()), representable))
      ensures r.Ok? ==> old(position) < position
      decreases |input| - position, 1
    {
      hide ParseValue, SkipSpace, ParseNumber;
      ghost var s := Rest();
      SkipSpaces();
      SpaceSkipped(s);
      ValueAfterSkip(s, representable);
      if Rest() == [] || !StartsValue(Rest()[0]) { NoValue(Rest(), representable); }
      if position >= |input| {
        r := Fail(ExpectedValue);
        return;
      }
      match input[position] {
        case 'n' | 't' | 'f' => r := ReadWord();
        case '"' => r := ReadText();
        case '[' => r := ReadArray();
        case '{' => r := ReadObject();
        case c =>
          if c == '-' || '0' <= c <= '9' {
            NumberValue(Rest(), representable);
            r := ReadNumber();
          } else {
            r := Fail(InvalidValue);
          }
      }
    }

    /** Reads one value and nothing else. */
    method ReadDocument() returns (r: Result<Value, Failure>)
      requires position == 0
      modifies this`position
      ensures r == ParseDocument(input, representable)
    {
      hide ParseValue, SkipSpace;
      assert Rest() == input;
      SkipSpaces();
      r := ReadValue();
      if r.Ok? {
        SkipSpaces();
        if position != |input| { r := Fail(TrailingContent); }
      }
    }
  }

  lemma SpaceSkipped(s: string)
    ensures SkipSpace(SkipSpace(s)) == SkipSpace(s)
  {
  }

  lemma ValueAfterSkip(s: string, representable: string -> bool)
    ensures ParseValue(s, representable) == ParseValue(SkipSpace(s), representable)
  {
    hide SkipSpace, ParseNumber, Literal, ParseString, ParseItems, ParseMembers;
    SpaceSkipped(s);
  }

  predicate StartsWord(c: char) {
    c == 'n' || c == 't' || c == 'f'
  }

  predicate StartsValue(c: char) {
    StartsWord(c) || c == '"' || c == '[' || c == '{' || c == '-' || IsDigit(c)
  }

  lemma TextValue(s: string, representable: string -> bool)
    requires SkipSpace(s) == s && s != [] && s[0] == '"'
    ensures ParseString(s).Ok? ==>
              ParseValue(s, representable) == Ok((Str(ParseString(s).value.0), ParseString(s).value.1))
    ensures ParseString(s).Err? ==> ParseValue(s, representable) == Err(ParseString(s).error)
  {
    hide SkipSpace, ParseNumber, Literal, ParseString, ParseItems, ParseMembers;
  }

  lemma NumberValue(s: string, representable: string -> bool)
    requires SkipSpace(s) == s && s != [] && (s[0] == '-' || IsDigit(s[0]))
    ensures ParseValue(s, representable) == ParseNumber(s, representable)
  {
    hide SkipSpace, ParseNumber, Literal, ParseString, ParseItems, ParseMembers;
  }

  lemma NoValue(s: string, representable: string -> bool)
    requires SkipSpace(s) == s && (s == [] || !StartsValue(s[0]))
    ensures ParseValue(s, representable) == Json.Fail(if s == [] then ExpectedValue else InvalidValue, s)
  {
    hide SkipSpace, ParseNumber, Literal, ParseString, ParseItems, ParseMembers;
  }

  lemma HexStep(s: string, n: nat, acc: nat)
    requires 0 < n <= |s|
    ensures HexDigits(s, n, acc) == match HexValue(s[0]) case Some(d) => HexDigits(s[1..], n - 1, acc * 16 + d) case None => Json.Fail(InvalidUnicode, s[1..])
  {
  }

  lemma HexEnd(s: string, acc: nat)
    ensures HexDigits(s, 0, acc) == Ok((acc, s))
  {
  }

  lemma SliceAt(input: string, begin: nat, p: nat)
    requires begin <= p <= |input|
    ensures |input[begin..]| == |input| - begin && input[begin..][p - begin..] == input[p..]
    ensures p < |input| ==> input[begin..][p - begin] == input[p]
  {
  }

  lemma HexQuadBound(s: string)
    ensures HexQuad(s).Ok? ==> HexQuad(s).value.0 < 0x10000
  {
    if HexQuad(s).Ok? { HexBound(s, 4, 0, 0x10000); }
  }

  lemma WholeProgress(s: string, i: nat)
    requires i <= |s|
    ensures WholeEnd(s, i).Ok? ==> i < WholeEnd(s, i).value <= |s|
  {
  }

  lemma FractionProgress(s: string, i: nat)
    requires i <= |s|
    ensures FractionEnd(s, i).Ok? ==> i <= FractionEnd(s, i).value <= |s|
  {
  }
}
