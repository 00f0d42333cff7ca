/** `JSON::parse` as the source runs it: one method per lambda, a cursor
    advanced one character at a time, `while` loops that accumulate the
    number lexeme, the string and the container being built. Each method is
    proved to compute exactly what the grammar function of the same name in
    ParserSpec describes. */
module Parser {
  import opened JsonValue
  import opened Lexical
  import Spec = ParserSpec

  /** `iss >> std::ws`. */
  method SkipWs(s: string, i: nat) returns (j: nat)
    requires i <= |s|
    ensures j == Spec.SkipWs(s, i)
  {
    j := i;
    while j < |s| && IsSpace(s[j])
      invariant i <= j <= |s|
      invariant Spec.SkipWs(s, j) == Spec.SkipWs(s, i)
    {
      j := j + 1;
    }
  }

  /** `consume_string`. */
  method ConsumeString(s: string, i: nat, lit: string) returns (matched: bool, j: nat)
    requires i <= |s|
    ensures (matched, j) == Spec.Consume(s, i, lit)
  {
    j := i;
    for k := 0 to |lit|
      invariant j == i + k <= |s|
      invariant Spec.Consume(s, j, lit[k..]) == Spec.Consume(s, i, lit)
    {
      assert lit[k..][0] == lit[k] && lit[k..][1..] == lit[k + 1..];
      if !Spec.At(s, j, lit[k]) {
        return false, j;
      }
      j := j + 1;
    }
    assert lit[|lit|..] == [];
    matched := true;
  }

  /** `parse_literal`. */
  method ParseLiteral(s: string, i: nat) returns (r: Result<(Value, nat)>)
    requires i <= |s|
    ensures r == Spec.ParseLiteral(s, i)
  {
    var pos := SkipWs(s, i);
    var ok: bool;
    if Spec.At(s, pos, 'n') {
      ok, pos := ConsumeString(s, pos, "null");
      if ok {
        return Ok((Null, pos));
      }
    }
    if Spec.At(s, pos, 't') {
      ok, pos := ConsumeString(s, pos, "true");
      if ok {
        return Ok((Bool(true), pos));
      }
    }
    if Spec.At(s, pos, 'f') {
      ok, pos := ConsumeString(s, pos, "false");
      if ok {
        return Ok((Bool(false), pos));
      }
    }
    return Err(Syntax(InvalidLiteral));
  }

  /** `parse_string`, returning the text of the String value it builds. */
  method ParseString(s: string, i: nat) returns (r: Result<(string, nat)>)
    requires i <= |s|
    ensures r == Spec.ParseString(s, i)
  {
    var pos := SkipWs(s, i);
    if !Spec.At(s, pos, '"') {
      return Err(Syntax(ExpectedQuote));
    }
    pos := pos + 1;
    var result := "";
    while pos < |s| && s[pos] != '"'
      invariant pos <= |s|
      invariant Spec.StringChars(s, pos, result) == Spec.ParseString(s, i)
      decreases |s| - pos
    {
      ghost var at := pos;
      var c := s[pos];
      pos := pos + 1;
      if c == '\\' {
        if pos == |s| {
          return Err(Syntax(UnfinishedEscape));
        }
        Spec.StringCharsStep(s, at, result);
        var esc := s[pos];
        pos := pos + 1;
        result := result + Spec.Unescape(esc);
      } else {
        Spec.StringCharsStep(s, at, result);
        result := result + [c];
      }
    }
    if !Spec.At(s, pos, '"') {
      return Err(Syntax(ExpectedQuote));
    }
    return Ok((result, pos + 1));
  }

  /** `str_num += iss.get()` in `parse_number`: appends the character at
      `pos` to the lexeme `s[start..pos]`. */
  method Take(s: string, ghost start: nat, pos: nat, lexeme: string) returns (lexeme': string, pos': nat)
    requires start <= pos < |s| && lexeme == s[start..pos]
    ensures pos' == pos + 1 && lexeme' == s[start..pos']
  {
    lexeme' := lexeme + [s[pos]];
    pos' := pos + 1;
    assert s[start..pos'] == s[start..pos] + [s[pos]];
  }

  /** The digit loops of `parse_number`: appends the run of digits at `pos`
      to `lexeme`. */
  method TakeDigits(s: string, pos: nat, lexeme: string, ghost start: nat)
    returns (pos': nat, lexeme': string)
    requires start <= pos <= |s| && lexeme == s[start..pos]
    ensures pos' == Spec.Digits(s, pos) && lexeme' == s[start..pos']
  {
    pos', lexeme' := pos, lexeme;
    while Spec.DigitAt(s, pos')
      invariant pos <= pos' <= |s| && lexeme' == s[start..pos']
      invariant Spec.Digits(s, pos') == Spec.Digits(s, pos)
      decreases |s| - pos'
    {
      lexeme' := lexeme' + [s[pos']];
      pos' := pos' + 1;
    }
  }

  /** `parse_number`: the optional sign and the integer digits, appended
      to the lexeme `str_num` one character at a time. */
  method ParseNumber(s: string, i: nat) returns (r: Result<(Value, nat)>)
    requires i <= |s|
    ensures r == Spec.ParseNumber(s, i)
  {
    var pos := SkipWs(s, i);
    if !(Spec.At(s, pos, '-') || Spec.At(s, pos, '+') || Spec.DigitAt(s, pos)) {
      return Err(Syntax(ExpectedNumber));
    }
    ghost var p := pos;
    var strNum := "";
    if Spec.At(s, pos, '-') || Spec.At(s, pos, '+') {
      strNum, pos := Take(s, p, pos, strNum);
    }
    if pos == |s| {
      return Err(Syntax(UnexpectedEof));
    }
    if !Spec.DigitAt(s, pos) {
      return Err(Syntax(ExpectedDigit));
    }
    pos, strNum := TakeDigits(s, pos, strNum, p);
    r := NumberFraction(s, p, pos, strNum);
  }

  /** The rest of `parse_number` once the integer digits of the lexeme
      `s[p..m]` are read: the optional fraction. */
  method NumberFraction(s: string, ghost p: nat, m: nat, lexeme: string) returns (r: Result<(Value, nat)>)
    requires p < m <= |s| && lexeme == s[p..m]
    ensures r == Spec.NumberFraction(s, p, m)
  {
    var pos, strNum := m, lexeme;
    var isInteger := true;
    if Spec.At(s, pos, '.') {
      isInteger := false;
      strNum, pos := Take(s, p, pos, strNum);
      if !Spec.DigitAt(s, pos) {
        return Err(Syntax(ExpectedDigit));
      }
      pos, strNum := TakeDigits(s, pos, strNum, p);
    }
    r := NumberExponent(s, p, pos, strNum, isInteger);
  }

  /** The end of `parse_number` once the digits and fraction of the lexeme
      `s[p..f]` are read: the optional exponent, then `from_chars` for an
      integer lexeme and `std::stold` for the rest or when `from_chars`
      fails. */
  method NumberExponent(s: string, ghost p: nat, f: nat, lexeme: string, isInteger: bool)
    returns (r: Result<(Value, nat)>)
    requires p < f <= |s| && lexeme == s[p..f]
    ensures r == Spec.NumberExponent(s, p, f, isInteger)
  {
    var pos, strNum := f, lexeme;
    var integer := isInteger;
    if Spec.At(s, pos, 'e') || Spec.At(s, pos, 'E') {
      integer := false;
      strNum, pos := Take(s, p, pos, strNum);
      if Spec.At(s, pos, '+') || Spec.At(s, pos, '-') {
        strNum, pos := Take(s, p, pos, strNum);
      }
      if !Spec.DigitAt(s, pos) {
        return Err(Syntax(ExpectedDigit));
      }
      pos, strNum := TakeDigits(s, pos, strNum, p);
    }
    if integer {
      var value := FromChars(strNum);
      if value.Some? {
        return Ok((Integer(value.value), pos));
      }
    }
    return Ok((Real(FromText(strNum)), pos));
  }

  /** `parse_value`. */
  method ParseValue(s: string, i: nat) returns (r: Result<(Value, nat)>)
    requires i <= |s|
    ensures r == Spec.ParseValue(s, i)
    decreases |s| - i, 2
  {
    var pos := SkipWs(s, i);
    if pos == |s| {
      return Err(Syntax(UnexpectedEof));
    }
    assert Spec.ParseValue(s, i) == Spec.ValueAt(s, pos);
    match s[pos]
    case 'n' | 't' | 'f' =>
      r := ParseLiteral(s, pos);
    case '"' =>
      var str := ParseString(s, pos);
      match str {
        case Ok((t, e)) => r := Ok((String(t), e));
        case Err(err) => r := Err(err);
      }
    case '[' =>
      r := ParseArray(s, pos);
    case '{' =>
      r := ParseObject(s, pos);
    case c =>
      if c == '-' || c != '+' || IsDigit(c) {
        r := ParseNumber(s, pos);
      } else {
        r := Err(Syntax(UnexpectedCharacter));
      }
  }

  /** `parse_array`: '[', then either ']' at once or a first element
      followed by the comma loop. */
  method ParseArray(s: string, i: nat) returns (r: Result<(Value, nat)>)
    requires i <= |s|
    ensures r == Spec.ParseArray(s, i)
    decreases |s| - i, 1
  {
    var pos := SkipWs(s, i);
    if !Spec.At(s, pos, '[') {
      return Err(Syntax(ExpectedOpenBracket));
    }
    pos := SkipWs(s, pos + 1);
    if Spec.At(s, pos, ']') {
      return Ok((Array([]), pos + 1));
    }
    var first := ParseValue(s, pos);
    if first.Err? {
      return Err(first.error);
    }
    pos := SkipWs(s, first.value.1);
    r := ArrayElements(s, pos, first.value.0);
  }

  /** The comma loop of `parse_array` after the first element `first`:
      elements are pushed onto `arr` while a comma follows, then the
      closing bracket is required. */
  method ArrayElements(s: string, i: nat, first: Value) returns (r: Result<(Value, nat)>)
    requires i <= |s|
    ensures r == Spec.ArrayElements(s, i, [first])
    decreases |s| - i, 1
  {
    var pos := i;
    var arr := [first];
    while Spec.At(s, pos, ',')
      invariant i <= pos <= |s|
      invariant Spec.ArrayElements(s, pos, arr) == Spec.ArrayElements(s, i, [first])
      decreases |s| - pos
    {
      var next := ParseValue(s, pos + 1);
      if next.Err? {
        return Err(next.error);
      }
      Spec.ArrayElementsStep(s, pos, arr);
      arr := arr + [next.value.0];
      pos := SkipWs(s, next.value.1);
    }
    assert Spec.ArrayElements(s, pos, arr) == Spec.ArrayClose(s, pos, arr);
    pos := SkipWs(s, pos);
    if !Spec.At(s, pos, ']') {
      return Err(Syntax(ExpectedCloseBracket));
    }
    return Ok((Array(arr), pos + 1));
  }

  /** `parse_object`: '{', then either '}' at once or the member loop. */
  method ParseObject(s: string, i: nat) returns (r: Result<(Value, nat)>)
    requires i <= |s|
    ensures r == Spec.ParseObject(s, i)
    decreases |s| - i, 1
  {
    var pos := SkipWs(s, i);
    if !Spec.At(s, pos, '{') {
      return Err(Syntax(ExpectedOpenBrace));
    }
    pos := SkipWs(s, pos + 1);
    if Spec.At(s, pos, '}') {
      return Ok((Object([]), pos + 1));
    }
    r := ObjectMembers(s, pos);
  }

  /** The member loop of `parse_object`, started at `i` with no members:
      each member is stored with `obj[key] = value`, and the loop ends when
      no comma follows a member. */
  method ObjectMembers(s: string, i: nat) returns (r: Result<(Value, nat)>)
    requires i <= |s|
    ensures r == Spec.ObjectMembers(s, i, [])
    decreases |s| - i, 1
  {
    var pos := i;
    var obj: seq<Member> := [];
    while true
      invariant i <= pos <= |s|
      invariant Spec.ObjectMembers(s, pos, obj) == Spec.ObjectMembers(s, i, [])
      decreases |s| - pos
    {
      var member := ParseMember(s, pos);
      if member.Err? {
        return Err(member.error);
      }
      var (key, val, next) := member.value;
      if !Spec.At(s, next, ',') {
        Spec.ObjectMembersLast(s, pos, obj, key, val, next);
        obj := Put(obj, key, val);
        pos := next;
        break;
      }
      Spec.ObjectMembersNext(s, pos, obj, key, val, next);
      obj := Put(obj, key, val);
      pos := SkipWs(s, next + 1);
    }
    assert Spec.ObjectClose(s, pos, obj) == Spec.ObjectMembers(s, i, []);
    pos := SkipWs(s, pos);
    if !Spec.At(s, pos, '}') {
      return Err(Syntax(ExpectedCloseBrace));
    }
    return Ok((Object(obj), pos + 1));
  }

  /** The body of the member loop of `parse_object`: a quoted key, ':',
      and a value, and the whitespace after it. */
  method ParseMember(s: string, i: nat) returns (r: Result<(string, Value, nat)>)
    requires i <= |s|
    ensures r == Spec.ParseMember(s, i)
    decreases |s| - i, 0
  {
    var pos := i;
    if !Spec.At(s, pos, '"') {
      return Err(Syntax(ExpectedQuote));
    }
    var keyVal := ParseString(s, pos);
    if keyVal.Err? {
      return Err(keyVal.error);
    }
    pos := SkipWs(s, keyVal.value.1);
    if !Spec.At(s, pos, ':') {
      return Err(Syntax(ExpectedColon));
    }
    pos := SkipWs(s, pos + 1);
    var val := ParseValue(s, pos);
    if val.Err? {
      return Err(val.error);
    }
    pos := SkipWs(s, val.value.1);
    return Ok((keyVal.value.0, val.value.0, pos));
  }

  /** `JSON::parse`: the top-level value, then only whitespace. */
  method Parse(s: string) returns (r: Result<Value>)
    ensures r == Spec.Parse(s)
  {
    var result := ParseValue(s, 0);
    if result.Err? {
      return Err(result.error);
    }
    var pos := SkipWs(s, result.value.1);
    if pos < |s| {
      return Err(Syntax(ResidualData));
    }
    return Ok(result.value.0);
  }
}
