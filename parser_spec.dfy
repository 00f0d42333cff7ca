/** `JSON::parse` stated as functions: one per grammar rule of json.cpp,
    each taking the text and the cursor position the rule starts at and
    returning the value it builds together with the cursor position after
    it, or the syntax error it throws. A position equal to `|s|` is the end
    of the stream, where `peek()` yields EOF. Loops of the source are
    tail-recursive functions here whose extra parameter is the loop's
    accumulator. */
module ParserSpec {
  import opened JsonValue
  import opened Lexical

  /** `peek() == c`: false at the end of the stream. */
  predicate At(s: string, i: nat, c: char)
  {
    i < |s| && s[i] == c
  }

  /** `isdigit(peek())`: false at the end of the stream. */
  predicate DigitAt(s: string, i: nat)
  {
    i < |s| && IsDigit(s[i])
  }

  /** `iss >> std::ws`: skips whitespace (SkipWsSpaces says exactly what
      it skips). */
  function SkipWs(s: string, i: nat): (j: nat)
    requires i <= |s|
    ensures i <= j <= |s|
    decreases |s| - i
  {
    if i < |s| && IsSpace(s[i]) then SkipWs(s, i + 1) else i
  }

  /** SkipWs stops at the first position at or after `i` that is not
      whitespace, or at the end of the stream. */
  lemma {:induction false} SkipWsSpaces(s: string, i: nat)
    requires i <= |s|
    ensures forall k :: i <= k < SkipWs(s, i) ==> IsSpace(s[k])
    ensures SkipWs(s, i) < |s| ==> !IsSpace(s[SkipWs(s, i)])
    decreases |s| - i
  {
    if i < |s| && IsSpace(s[i]) {
      SkipWsSpaces(s, i + 1);
    }
  }

  /** The end of the run of digits starting at `i`. */
  function Digits(s: string, i: nat): (j: nat)
    requires i <= |s|
    ensures i <= j <= |s|
    ensures !DigitAt(s, j)
    decreases |s| - i
  {
    if DigitAt(s, i) then Digits(s, i + 1) else i
  }

  /** Everything Digits passes over is a digit. */
  lemma {:induction false} DigitsAreDigits(s: string, i: nat)
    requires i <= |s|
    ensures forall k :: i <= k < Digits(s, i) ==> IsDigit(s[k])
    decreases |s| - i
  {
    if DigitAt(s, i) {
      DigitsAreDigits(s, i + 1);
    }
  }

  /** `consume_string`: consumes the characters of `lit` one by one while
      they match. The consumed text is the longest common prefix of `lit` and
      the input; the result says whether that was all of `lit`. */
  function Consume(s: string, i: nat, lit: string): (r: (bool, nat))
    requires i <= |s|
    ensures i <= r.1 <= |s| && r.1 - i <= |lit|
    ensures s[i..r.1] == lit[..r.1 - i]
    ensures r.0 <==> r.1 - i == |lit|
    ensures !r.0 ==> !At(s, r.1, lit[r.1 - i])
    decreases lit
  {
    if lit == [] then (true, i)
    else if At(s, i, lit[0]) then
      var r := Consume(s, i + 1, lit[1..]);
      assert s[i..r.1] == [s[i]] + s[i + 1..r.1];
      r
    else (false, i)
  }

  /** `parse_literal`: tries "null", then "true", then "false", each only if
      the next character is its first letter. A failed attempt is not
      rewound: the next attempt starts where the previous one stopped. */
  function ParseLiteral(s: string, i: nat): (r: Result<(Value, nat)>)
    requires i <= |s|
    ensures r.Ok? ==> i < r.value.1 <= |s|
  {
    var p := SkipWs(s, i);
    var (isNull, p1) := if At(s, p, 'n') then Consume(s, p, "null") else (false, p);
    if isNull then Ok((Null, p1))
    else
      var (isTrue, p2) := if At(s, p1, 't') then Consume(s, p1, "true") else (false, p1);
      if isTrue then Ok((Bool(true), p2))
      else
        var (isFalse, p3) := if At(s, p2, 'f') then Consume(s, p2, "false") else (false, p2);
        if isFalse then Ok((Bool(false), p3))
        else Err(Syntax(InvalidLiteral))
  }

  /** The characters that the escapes `\b \f \n \r \t \" \\ \/` stand for;
      after a backslash any other character yields nothing. */
  function Unescape(c: char): (r: string)
    ensures |r| <= 1
    ensures r != [] <==> c in "bfnrt\"\\/"
  {
    match c
    case 'b' => ['\U{0008}']
    case 'f' => ['\U{000C}']
    case 'n' => ['\n']
    case 'r' => ['\r']
    case 't' => ['\t']
    case '"' => ['"']
    case '\\' => ['\\']
    case '/' => ['/']
    case _ => []
  }

  /** The loop of `parse_string` from position `i` with `acc` read so far:
      stops at the closing quote, fails at the end of the stream. */
  function StringChars(s: string, i: nat, acc: string): (r: Result<(string, nat)>)
    requires i <= |s|
    ensures r.Ok? ==> i < r.value.1 <= |s| && s[r.value.1 - 1] == '"'
    decreases |s| - i
  {
    if i == |s| then Err(Syntax(ExpectedQuote))
    else if s[i] == '"' then Ok((acc, i + 1))
    else if s[i] == '\\' then
      if i + 1 == |s| then Err(Syntax(UnfinishedEscape))
      else StringChars(s, i + 2, acc + Unescape(s[i + 1]))
    else StringChars(s, i + 1, acc + [s[i]])
  }

  /** `parse_string`: an opening quote, then the characters up to the
      closing quote. */
  function ParseString(s: string, i: nat): (r: Result<(string, nat)>)
    requires i <= |s|
    ensures r.Ok? ==> i < r.value.1 <= |s|
  {
    var p := SkipWs(s, i);
    if !At(s, p, '"') then Err(Syntax(ExpectedQuote))
    else StringChars(s, p + 1, "")
  }

  /** The value of a number lexeme: an Integer when it has neither fraction
      nor exponent and `from_chars` converts it, otherwise (including on
      overflow) the long double `std::stold` reads from the lexeme. */
  function NumberValue(lexeme: string, isInteger: bool): Value
  {
    if isInteger then
      match FromChars(lexeme)
      case Some(n) => Integer(n)
      case None => Real(FromText(lexeme))
    else Real(FromText(lexeme))
  }

  /** `parse_number`: an optional sign, at least one digit, an optional
      fraction of at least one digit, an optional exponent with an optional
      sign and at least one digit. */
  function ParseNumber(s: string, i: nat): (r: Result<(Value, nat)>)
    requires i <= |s|
    ensures r.Ok? ==> i < r.value.1 <= |s|
  {
    var p := SkipWs(s, i);
    if !(At(s, p, '-') || At(s, p, '+') || DigitAt(s, p)) then Err(Syntax(ExpectedNumber))
    else
      var q := if At(s, p, '-') || At(s, p, '+') then p + 1 else p;
      if q == |s| then Err(Syntax(UnexpectedEof))
      else if !DigitAt(s, q) then Err(Syntax(ExpectedDigit))
      else NumberFraction(s, p, Digits(s, q))
  }

  /** The rest of `parse_number` for the lexeme starting at `p` once its
      integer digits end at `m`: the optional fraction, then the exponent. */
  function NumberFraction(s: string, p: nat, m: nat): (r: Result<(Value, nat)>)
    requires p < m <= |s|
    ensures r.Ok? ==> m <= r.value.1 <= |s|
  {
    var hasFraction := At(s, m, '.');
    if hasFraction && !DigitAt(s, m + 1) then Err(Syntax(ExpectedDigit))
    else NumberExponent(s, p, if hasFraction then Digits(s, m + 1) else m, !hasFraction)
  }

  /** The end of `parse_number` for the lexeme starting at `p` once its
      digits and fraction end at `f`: the optional exponent, then the
      conversion of the whole lexeme. */
  function NumberExponent(s: string, p: nat, f: nat, isInteger: bool): (r: Result<(Value, nat)>)
    requires p < f <= |s|
    ensures r.Ok? ==> f <= r.value.1 <= |s|
  {
    if At(s, f, 'e') || At(s, f, 'E') then
      var g := if At(s, f + 1, '+') || At(s, f + 1, '-') then f + 2 else f + 1;
      if !DigitAt(s, g) then Err(Syntax(ExpectedDigit))
      else
        var e := Digits(s, g);
        Ok((NumberValue(s[p..e], false), e))
    else Ok((NumberValue(s[p..f], isInteger), f))
  }

  /** `parse_value`: skips whitespace, fails at the end of the stream, and
      otherwise dispatches on the next character (ValueAt). */
  function ParseValue(s: string, i: nat): (r: Result<(Value, nat)>)
    requires i <= |s|
    ensures r.Ok? ==> i < r.value.1 <= |s|
    decreases |s| - i, 3
  {
    var p := SkipWs(s, i);
    if p == |s| then Err(Syntax(UnexpectedEof)) else ValueAt(s, p)
  }

  /** The dispatch of `parse_value` on the character at `p`. The guard of
      the number branch is `peek() == '-' || peek() != '+' ||
      isdigit(peek())`, which holds for every character but '+'. */
  function ValueAt(s: string, p: nat): (r: Result<(Value, nat)>)
    requires p < |s|
    ensures r.Ok? ==> p < r.value.1 <= |s|
    decreases |s| - p, 2
  {
    match s[p]
    case 'n' | 't' | 'f' => ParseLiteral(s, p)
    case '"' =>
      (match ParseString(s, p)
       case Ok((t, e)) => Ok((String(t), e))
       case Err(err) => Err(err))
    case '[' => ParseArray(s, p)
    case '{' => ParseObject(s, p)
    case c =>
      if c == '-' || c != '+' || IsDigit(c) then ParseNumber(s, p)
      else Err(Syntax(UnexpectedCharacter))
  }

  /** `parse_array`: '[', then either ']' at once or a first element
      followed by the comma loop. */
  function ParseArray(s: string, i: nat): (r: Result<(Value, nat)>)
    requires i <= |s|
    ensures r.Ok? ==> i < r.value.1 <= |s|
    decreases |s| - i, 0
  {
    var p := SkipWs(s, i);
    if !At(s, p, '[') then Err(Syntax(ExpectedOpenBracket))
    else
      var q := SkipWs(s, p + 1);
      if At(s, q, ']') then Ok((Array([]), q + 1))
      else
        match ParseValue(s, q)
        case Err(err) => Err(err)
        case Ok((v, e)) => ArrayElements(s, SkipWs(s, e), [v])
  }

  /** The comma loop of `parse_array` at position `i` (after whitespace)
      with the elements `acc` read so far; when no comma follows, the
      closing bracket is required. */
  function ArrayElements(s: string, i: nat, acc: seq<Value>): (r: Result<(Value, nat)>)
    requires i <= |s|
    ensures r.Ok? ==> i < r.value.1 <= |s|
    decreases |s| - i, 0
  {
    if At(s, i, ',') then
      match ParseValue(s, i + 1)
      case Err(err) => Err(err)
      case Ok((v, e)) => ArrayElements(s, SkipWs(s, e), acc + [v])
    else ArrayClose(s, i, acc)
  }

  /** The end of `parse_array`: whitespace, then ']'. */
  function ArrayClose(s: string, i: nat, elems: seq<Value>): (r: Result<(Value, nat)>)
    requires i <= |s|
    ensures r.Ok? ==> i < r.value.1 <= |s| && r.value.0 == Array(elems)
  {
    var j := SkipWs(s, i);
    if At(s, j, ']') then Ok((Array(elems), j + 1)) else Err(Syntax(ExpectedCloseBracket))
  }

  /** `parse_object`: '{', then either '}' at once or the member loop. */
  function ParseObject(s: string, i: nat): (r: Result<(Value, nat)>)
    requires i <= |s|
    ensures r.Ok? ==> i < r.value.1 <= |s|
    decreases |s| - i, 0
  {
    var p := SkipWs(s, i);
    if !At(s, p, '{') then Err(Syntax(ExpectedOpenBrace))
    else
      var q := SkipWs(s, p + 1);
      if At(s, q, '}') then Ok((Object([]), q + 1))
      else ObjectMembers(s, q, [])
  }

  /** The member loop of `parse_object` at position `i` (after
      whitespace) with the members `acc` stored so far: one member, then a
      comma continues the loop and anything else ends it. */
  function ObjectMembers(s: string, i: nat, acc: seq<Member>): (r: Result<(Value, nat)>)
    requires i <= |s|
    ensures r.Ok? ==> i < r.value.1 <= |s|
    decreases |s| - i, 1
  {
    match ParseMember(s, i)
    case Err(err) => Err(err)
    case Ok((key, v, n)) =>
      var members := Put(acc, key, v);
      if At(s, n, ',') then ObjectMembers(s, SkipWs(s, n + 1), members)
      else ObjectClose(s, n, members)
  }

  /** One turn of the member loop: a quoted key, ':', and a value, which
      the loop then stores with `obj[key] = value`; the position returned
      is after the whitespace that follows the value. */
  function ParseMember(s: string, i: nat): (r: Result<(string, Value, nat)>)
    requires i <= |s|
    ensures r.Ok? ==> i < r.value.2 <= |s|
    decreases |s| - i, 0
  {
    if !At(s, i, '"') then Err(Syntax(ExpectedQuote))
    else
      match ParseString(s, i)
      case Err(err) => Err(err)
      case Ok((key, e)) =>
        var c := SkipWs(s, e);
        if !At(s, c, ':') then Err(Syntax(ExpectedColon))
        else
          match ParseValue(s, SkipWs(s, c + 1))
          case Err(err) => Err(err)
          case Ok((v, e2)) => Ok((key, v, SkipWs(s, e2)))
  }

  /** The end of `parse_object`: whitespace, then '}'. */
  function ObjectClose(s: string, i: nat, members: seq<Member>): (r: Result<(Value, nat)>)
    requires i <= |s|
    ensures r.Ok? ==> i < r.value.1 <= |s| && r.value.0 == Object(members)
  {
    var j := SkipWs(s, i);
    if At(s, j, '}') then Ok((Object(members), j + 1)) else Err(Syntax(ExpectedCloseBrace))
  }

  /* Unfolding steps of the container loops, used by the methods of Parser
     so that each proof step is taken in a small context. */

  lemma {:induction false} StringCharsStep(s: string, i: nat, acc: string)
    requires i < |s| && s[i] != '"' && (s[i] == '\\' ==> i + 1 < |s|)
    ensures StringChars(s, i, acc)
         == if s[i] == '\\' then StringChars(s, i + 2, acc + Unescape(s[i + 1]))
            else StringChars(s, i + 1, acc + [s[i]])
  {
  }

  lemma {:induction false} ArrayElementsStep(s: string, i: nat, acc: seq<Value>)
    requires i <= |s| && At(s, i, ',') && ParseValue(s, i + 1).Ok?
    ensures ArrayElements(s, i, acc)
         == ArrayElements(s, SkipWs(s, ParseValue(s, i + 1).value.1), acc + [ParseValue(s, i + 1).value.0])
  {
  }

  lemma {:induction false} ObjectMembersStep(s: string, i: nat, acc: seq<Member>, key: string, v: Value, n: nat)
    requires i <= |s| && ParseMember(s, i) == Ok((key, v, n))
    ensures ObjectMembers(s, i, acc)
         == if At(s, n, ',') then ObjectMembers(s, SkipWs(s, n + 1), Put(acc, key, v))
            else ObjectClose(s, n, Put(acc, key, v))
  {
  }

  lemma {:induction false} ObjectMembersNext(s: string, i: nat, acc: seq<Member>, key: string, v: Value, n: nat)
    requires i <= |s| && ParseMember(s, i) == Ok((key, v, n)) && At(s, n, ',')
    ensures ObjectMembers(s, i, acc) == ObjectMembers(s, SkipWs(s, n + 1), Put(acc, key, v))
  {
    ObjectMembersStep(s, i, acc, key, v, n);
  }

  lemma {:induction false} ObjectMembersLast(s: string, i: nat, acc: seq<Member>, key: string, v: Value, n: nat)
    requires i <= |s| && ParseMember(s, i) == Ok((key, v, n)) && !At(s, n, ',')
    ensures ObjectMembers(s, i, acc) == ObjectClose(s, n, Put(acc, key, v))
  {
    ObjectMembersStep(s, i, acc, key, v, n);
  }

  lemma {:induction false} SkipWsTwice(s: string, j: nat)
    requires j <= |s|
    ensures SkipWs(s, SkipWs(s, j)) == SkipWs(s, j)
  {
    SkipWsSpaces(s, j);
  }

  lemma {:induction false} ArrayEmpty(s: string, i: nat)
    requires At(s, i, '[') && At(s, SkipWs(s, i + 1), ']')
    ensures ParseArray(s, i) == Ok((Array([]), SkipWs(s, i + 1) + 1))
  {
  }

  lemma {:induction false} ArrayFirst(s: string, i: nat, v: Value, e: nat)
    requires At(s, i, '[') && !At(s, SkipWs(s, i + 1), ']')
    requires ParseValue(s, i + 1) == Ok((v, e))
    ensures ParseArray(s, i) == ArrayElements(s, SkipWs(s, e), [v])
  {
    SkipWsTwice(s, i + 1);
    assert SkipWs(s, i) == i;
    assert ParseValue(s, SkipWs(s, i + 1)) == ParseValue(s, i + 1);
  }

  lemma {:induction false} ArrayEnd(s: string, j: nat, acc: seq<Value>)
    requires At(s, j, ']')
    ensures ArrayElements(s, j, acc) == Ok((Array(acc), j + 1))
  {
  }

  lemma {:induction false} ObjectEmpty(s: string, i: nat)
    requires At(s, i, '{') && At(s, SkipWs(s, i + 1), '}')
    ensures ParseObject(s, i) == Ok((Object([]), SkipWs(s, i + 1) + 1))
  {
  }

  lemma {:induction false} ObjectFirst(s: string, i: nat)
    requires At(s, i, '{') && !At(s, SkipWs(s, i + 1), '}')
    ensures ParseObject(s, i) == ObjectMembers(s, SkipWs(s, i + 1), [])
  {
  }

  lemma {:induction false} ObjectEnd(s: string, j: nat, members: seq<Member>)
    requires At(s, j, '}')
    ensures ObjectClose(s, j, members) == Ok((Object(members), j + 1))
  {
  }

  /** A quoted `key` at `q`, which `parse_string` reads, then ':' at once,
      and `std::ws` after the colon reaches `v0`. */
  predicate KeyAt(s: string, q: nat, key: string, v0: nat)
  {
    q + |key| + 3 <= |s|
    && At(s, q, '"') && ParseString(s, q) == Ok((key, q + |key| + 2))
    && SkipWs(s, q + |key| + 2) == q + |key| + 2 && At(s, q + |key| + 2, ':')
    && SkipWs(s, q + |key| + 3) == v0
  }

  /** A character other than whitespace at `j`. */
  predicate Solid(s: string, j: nat)
  {
    j < |s| && !IsSpace(s[j])
  }

  /** From `start`, `std::ws` reaches the key's quote at `q`, and the
      member loop of `parse_object` reads the member `key`: `val` from
      there, up to the whitespace after `e`. */
  predicate MemberReadAt(s: string, start: nat, q: nat, key: string, val: Value, e: nat)
  {
    start <= |s| && q <= |s| && e <= |s|
    && SkipWs(s, start) == q && At(s, q, '"') && ParseMember(s, q) == Ok((key, val, SkipWs(s, e)))
  }

  /** A quoted key ending at `c`, ':' there, and a value read at `v0`
      after the colon's whitespace make one member. */
  lemma {:induction false} MemberUnfold(s: string, q: nat, key: string, c: nat, v0: nat, v: Value, e: nat)
    requires At(s, q, '"') && ParseString(s, q) == Ok((key, c)) && SkipWs(s, c) == c && At(s, c, ':')
    requires SkipWs(s, c + 1) == v0 && ParseValue(s, v0) == Ok((v, e))
    ensures ParseMember(s, q) == Ok((key, v, SkipWs(s, e)))
  {
  }

  /** `"key"`, ':' and a value read at `v0` make one member. */
  lemma {:induction false} MemberStep(s: string, start: nat, q: nat, key: string, v0: nat, v: Value, e: nat)
    requires start <= |s| && SkipWs(s, start) == q && KeyAt(s, q, key, v0) && ParseValue(s, v0) == Ok((v, e))
    ensures MemberReadAt(s, start, q, key, v, e)
  {
    MemberUnfold(s, q, key, q + |key| + 2, v0, v, e);
  }

  /** `JSON::parse`: one value, then nothing but whitespace. */
  function Parse(s: string): (r: Result<Value>)
  {
    match ParseValue(s, 0)
    case Err(err) => Err(err)
    case Ok((v, e)) => if SkipWs(s, e) < |s| then Err(Syntax(ResidualData)) else Ok(v)
  }
}
