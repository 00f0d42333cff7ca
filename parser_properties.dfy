/** What `JSON::parse` accepts and what it rejects, stated over the parser
    functions of ParserSpec: the end of the input, numbers, strings and
    their escapes, containers, duplicate keys, and the unique keys of every
    object it builds. */
module ParserProperties {
  import opened JsonValue
  import opened Lexical
  import opened ParserSpec
  import opened RoundTrip

  /* ---------------- the end of the input ---------------- */

  /** `std::ws` reaches the end of the stream exactly when only whitespace
      is left. */
  lemma {:induction false} SkipWsToEnd(s: string, i: nat)
    requires i <= |s|
    ensures SkipWs(s, i) == |s| <==> forall k :: i <= k < |s| ==> IsSpace(s[k])
  {
    SkipWsSpaces(s, i);
  }

  /** `parse_value` at a character other than whitespace goes straight to
      the dispatch on that character. */
  lemma {:induction false} ValueStarts(s: string, p: nat)
    requires p < |s| && !IsSpace(s[p])
    ensures ParseValue(s, p) == ValueAt(s, p)
  {
  }

  /** The top-level value ending the input, or failing, decides the parse. */
  lemma {:induction false} ParseWhole(s: string, r: Result<(Value, nat)>)
    requires ParseValue(s, 0) == r
    requires r.Ok? ==> r.value.1 == |s|
    ensures Parse(s) == if r.Ok? then Ok(r.value.0) else Err(r.error)
  {
    if r.Ok? {
      assert SkipWs(s, |s|) == |s|;
    }
  }

  /** After the top-level value only whitespace may follow; anything else
      is residual data. */
  lemma {:induction false} ParseResidual(s: string, v: Value, e: nat)
    requires ParseValue(s, 0) == Ok((v, e))
    ensures Parse(s) == Ok(v) <==> forall k :: e <= k < |s| ==> IsSpace(s[k])
    ensures Parse(s) != Ok(v) ==> Parse(s) == Err(Syntax(ResidualData))
  {
    SkipWsToEnd(s, e);
  }

  /** Where a value is expected and only whitespace is left, the error is
      an unexpected end of the input. */
  lemma {:induction false} ValueAtEof(s: string, i: nat)
    requires i <= |s|
    requires forall k :: i <= k < |s| ==> IsSpace(s[k])
    ensures ParseValue(s, i) == Err(Syntax(UnexpectedEof))
  {
    SkipWsToEnd(s, i);
  }

  /** An empty or blank text is an unexpected end of the input. */
  lemma {:induction false} ParseBlank(s: string)
    requires forall k :: 0 <= k < |s| ==> IsSpace(s[k])
    ensures Parse(s) == Err(Syntax(UnexpectedEof))
  {
    ValueAtEof(s, 0);
  }

  /** An array left open after its first bracket ends the input where a
      value is expected. */
  lemma {:induction false} ArrayUnclosed(w: string)
    requires Spaces(w)
    ensures Parse("[" + w) == Err(Syntax(UnexpectedEof))
  {
    var s := "[" + w;
    assert forall k :: 1 <= k < |s| ==> s[k] == w[k - 1];
    SkipWsToEnd(s, 1);
    ValueAtEof(s, |s|);
    ValueStarts(s, 0);
    assert ParseArray(s, 0) == Err(Syntax(UnexpectedEof));
    ParseWhole(s, ParseValue(s, 0));
  }

  /* ---------------- numbers ---------------- */

  /** What follows a number lexeme cannot continue it. */
  predicate NumberStops(rest: string, fraction: bool)
  {
    rest == [] || !(IsDigit(rest[0]) || (!fraction && rest[0] == '.') || rest[0] == 'e' || rest[0] == 'E')
  }

  /** `parse_value` at '-' or a digit is `parse_number`. */
  lemma {:induction false} NumberDispatch(s: string, p: nat)
    requires p < |s| && (s[p] == '-' || IsDigit(s[p]))
    ensures ParseValue(s, p) == ParseNumber(s, p)
  {
    ValueStarts(s, p);
  }

  /** `from_chars` converts an optional '-' and a run of digits when the
      value fits in an `int64_t`; otherwise the lexeme is read as a Real. */
  lemma {:induction false} IntegerLexemeValue(neg: bool, digits: string)
    requires |digits| > 0 && AllDigits(digits)
    ensures var lexeme := (if neg then "-" else "") + digits;
            var n := if neg then -(DecValue(digits) as int) else DecValue(digits) as int;
            NumberValue(lexeme, true)
            == if -0x8000_0000_0000_0000 <= n < 0x8000_0000_0000_0000 then Integer(n as Int64)
               else Real(FromText(lexeme))
  {
    var lexeme := (if neg then "-" else "") + digits;
    if neg {
      assert lexeme[1..] == digits;
    } else {
      assert lexeme == digits;
      assert !(lexeme[0] == '-');
    }
  }

  /** An optional '-' and a run of digits (leading zeros allowed) is an
      Integer when its value fits in an `int64_t`, and otherwise the Real
      `std::stold` reads from the lexeme. */
  lemma {:induction false} IntegerNumber(neg: bool, digits: string, rest: string)
    requires |digits| > 0 && AllDigits(digits) && NumberStops(rest, false)
    ensures var lexeme := (if neg then "-" else "") + digits;
            var n := if neg then -(DecValue(digits) as int) else DecValue(digits) as int;
            ParseValue(lexeme + rest, 0)
            == Ok((if -0x8000_0000_0000_0000 <= n < 0x8000_0000_0000_0000 then Integer(n as Int64)
                   else Real(FromText(lexeme)), |lexeme|))
  {
    var lexeme := (if neg then "-" else "") + digits;
    var s := lexeme + rest;
    assert Occurs(s, 0, lexeme);
    assert IntegerLexeme(lexeme) by {
      if neg {
        assert lexeme[1..] == digits;
      } else {
        assert lexeme == digits;
      }
    }
    assert |lexeme| < |s| ==> s[|lexeme|] == rest[0];
    NumberText(lexeme, s, 0);
    assert s[0] == lexeme[0];
    NumberDispatch(s, 0);
    IntegerLexemeValue(neg, digits);
  }

  /** A fraction of digits from `m + 1` to `f`, with no exponent after
      it, makes the lexeme from `p` a Real. */
  lemma {:induction false} FractionEnd(s: string, p: nat, m: nat, f: nat)
    requires p < m && At(s, m, '.') && DigitAt(s, m + 1) && Digits(s, m + 1) == f
    requires !At(s, f, 'e') && !At(s, f, 'E')
    ensures NumberFraction(s, p, m) == Ok((Real(FromText(s[p..f])), f))
  {
  }

  /** Where the digits of `whole + "." + frac` lie when it occurs at `q`. */
  lemma {:induction false} FractionDigits(s: string, q: nat, whole: string, frac: string)
    requires |whole| > 0 && AllDigits(whole) && |frac| > 0 && AllDigits(frac)
    requires Occurs(s, q, whole + "." + frac) && !DigitAt(s, q + |whole| + 1 + |frac|)
    ensures DigitAt(s, q) && Digits(s, q) == q + |whole| && At(s, q + |whole|, '.')
    ensures DigitAt(s, q + |whole| + 1) && Digits(s, q + |whole| + 1) == q + |whole| + 1 + |frac|
  {
    var t := whole + "." + frac;
    assert Occurs(s, q, whole) && Occurs(s, q + |whole| + 1, frac) by {
      assert forall k :: 0 <= k < |whole| ==> t[k] == whole[k];
      assert forall k :: 0 <= k < |frac| ==> t[|whole| + 1 + k] == frac[k];
    }
    assert t[0] == whole[0] && t[|whole|] == '.' && t[|whole| + 1] == frac[0];
    DigitsOver(s, q, whole);
    DigitsOver(s, q + |whole| + 1, frac);
  }

  /** An optional '-' at 0, then `whole + "." + frac` up to `f`, with no
      exponent after it: the Real read from the text up to `f`. */
  lemma {:induction false} FractionAt(s: string, q: nat, whole: string, frac: string, f: nat)
    requires |whole| > 0 && AllDigits(whole) && |frac| > 0 && AllDigits(frac)
    requires q == if At(s, 0, '-') then 1 else 0
    requires Occurs(s, q, whole + "." + frac) && f == q + |whole| + 1 + |frac|
    requires !DigitAt(s, f) && !At(s, f, 'e') && !At(s, f, 'E')
    ensures ParseValue(s, 0) == Ok((Real(FromText(s[0..f])), f))
  {
    FractionDigits(s, q, whole, frac);
    NumberStart(s, 0, q);
    FractionEnd(s, 0, q + |whole|, f);
    NumberDispatch(s, 0);
  }

  /** A lexeme with a fraction of at least one digit and no exponent is the
      Real `std::stold` reads from it. */
  lemma {:induction false} FractionNumber(neg: bool, whole: string, frac: string, rest: string)
    requires |whole| > 0 && AllDigits(whole) && |frac| > 0 && AllDigits(frac)
    requires NumberStops(rest, true)
    ensures var lexeme := (if neg then "-" else "") + whole + "." + frac;
            ParseValue(lexeme + rest, 0) == Ok((Real(FromText(lexeme)), |lexeme|))
  {
    var sign := if neg then "-" else "";
    var lexeme := sign + whole + "." + frac;
    var s := lexeme + rest;
    assert s == sign + (whole + "." + frac) + rest;
    OccursIn(sign, whole + "." + frac, rest);
    assert s[0] == lexeme[0] && (neg || lexeme[0] == whole[0]);
    assert |lexeme| < |s| ==> s[|lexeme|] == rest[0];
    FractionAt(s, |sign|, whole, frac, |lexeme|);
    assert s[0..|lexeme|] == lexeme;
  }

  /** The optional fraction after the integer digits of a lexeme: "" or
      '.' followed by its digits. */
  function Fraction(frac: string): string
  {
    if frac == [] then "" else "." + frac
  }

  /** The optional fraction at `m`, up to `f`: `parse_number` continues
      with the exponent step at `f`. */
  lemma {:induction false} FractionStep(s: string, p: nat, m: nat, frac: string, f: nat)
    requires p < m <= |s| && AllDigits(frac)
    requires frac == [] ==> !At(s, m, '.')
    requires frac != [] ==> At(s, m, '.') && Occurs(s, m + 1, frac)
    requires f == m + |Fraction(frac)| && !DigitAt(s, f)
    ensures f <= |s| && NumberFraction(s, p, m) == NumberExponent(s, p, f, frac == [])
  {
    if frac != [] {
      OccursRest(s, m + 1, frac);
      DigitsOver(s, m + 1, frac);
    }
  }

  /** An optional '-' at 0, the integer digits `whole` at `q` and the
      optional fraction up to `f`, followed by neither a digit nor '.':
      `parse_value` reads the mantissa and continues with the exponent
      step at `f`. */
  lemma {:induction false} MantissaAt(s: string, q: nat, whole: string, frac: string, f: nat)
    requires |whole| > 0 && AllDigits(whole) && AllDigits(frac)
    requires q == (if At(s, 0, '-') then 1 else 0) && Occurs(s, q, whole)
    requires frac != [] ==> At(s, q + |whole|, '.') && Occurs(s, q + |whole| + 1, frac)
    requires f == q + |whole| + |Fraction(frac)| && !DigitAt(s, f) && !At(s, f, '.')
    ensures f <= |s| && ParseValue(s, 0) == NumberExponent(s, 0, f, frac == [])
  {
    OccursRest(s, q, whole);
    DigitsOver(s, q, whole);
    FractionStep(s, 0, q + |whole|, frac, f);
    NumberStart(s, 0, q);
    NumberDispatch(s, 0);
  }

  /** An exponent at `f`: 'e' or 'E', an optional sign and the digits `exp`,
      followed by no digit, ends the lexeme at `e` and makes it a Real,
      whatever the mantissa was. */
  lemma {:induction false} ExponentAt(s: string, f: nat, sign: string, exp: string, e: nat, isInteger: bool)
    requires 0 < f && (At(s, f, 'e') || At(s, f, 'E'))
    requires (sign == "" || sign == "+" || sign == "-") && Occurs(s, f + 1, sign)
    requires |exp| > 0 && AllDigits(exp) && Occurs(s, f + 1 + |sign|, exp)
    requires e == f + 1 + |sign| + |exp| && !DigitAt(s, e)
    ensures NumberExponent(s, 0, f, isInteger) == Ok((Real(FromText(s[0..e])), e))
  {
    var g := f + 1 + |sign|;
    OccursRest(s, g, exp);
    DigitsOver(s, g, exp);
    if sign != "" {
      OccursRest(s, f + 1, sign);
    }
  }

  /** An exponent at `f` whose optional sign is followed by no digit. */
  lemma {:induction false} ExponentMissingAt(s: string, f: nat, sign: string, isInteger: bool)
    requires 0 < f && (At(s, f, 'e') || At(s, f, 'E'))
    requires (sign == "" || sign == "+" || sign == "-") && Occurs(s, f + 1, sign)
    requires !DigitAt(s, f + 1 + |sign|) && (sign == "" ==> !At(s, f + 1, '+') && !At(s, f + 1, '-'))
    ensures NumberExponent(s, 0, f, isInteger) == Err(Syntax(ExpectedDigit))
  {
    if sign != "" {
      OccursRest(s, f + 1, sign);
    }
  }

  /** Where the sign `neg` and the integer digits of a lexeme lie in `s`,
      which starts with them. */
  lemma {:induction false} MantissaPieces(s: string, neg: string, whole: string)
    requires neg == "" || neg == "-"
    requires |whole| > 0 && AllDigits(whole) && Occurs(s, 0, neg + whole)
    ensures |neg| == (if At(s, 0, '-') then 1 else 0) && Occurs(s, |neg|, whole)
  {
    OccursSplit(s, 0, neg, whole);
    OccursRest(s, |neg|, whole);
    if neg != "" {
      OccursRest(s, 0, neg);
    }
  }

  /** Where the digits of the optional fraction lie when it occurs at `m`. */
  lemma {:induction false} FractionPieces(s: string, m: nat, frac: string)
    requires Occurs(s, m, Fraction(frac))
    ensures frac != [] ==> At(s, m, '.') && Occurs(s, m + 1, frac)
  {
    if frac != [] {
      OccursRest(s, m, Fraction(frac));
      assert Fraction(frac)[1..] == frac;
    }
  }

  /** Where the mantissa, the fraction text, the exponent marker, the
      exponent's sign and its digits lie in `s`, which starts with them. */
  lemma {:induction false} ExponentSplit(s: string, mantissa: string, fraction: string, mark: char,
                                         sign: string, exp: string, lexeme: string)
    requires lexeme == mantissa + fraction + [mark] + sign + exp && Occurs(s, 0, lexeme)
    ensures Occurs(s, 0, mantissa) && Occurs(s, |mantissa|, fraction)
    ensures At(s, |mantissa| + |fraction|, mark) && Occurs(s, |mantissa| + |fraction| + 1, sign)
    ensures Occurs(s, |mantissa| + |fraction| + 1 + |sign|, exp)
    ensures |lexeme| == |mantissa| + |fraction| + 1 + |sign| + |exp|
  {
    var number := mantissa + fraction;
    var marked := number + [mark];
    var head := marked + sign;
    OccursSplit(s, 0, head, exp);
    OccursSplit(s, 0, marked, sign);
    OccursSplit(s, 0, number, [mark]);
    OccursSplit(s, 0, mantissa, fraction);
    OccursRest(s, |number|, [mark]);
  }

  /** Where the pieces of a lexeme with an exponent lie in `s`, which
      starts with it. */
  lemma {:induction false} ExponentLayout(s: string, a: string, whole: string, frac: string, mark: char,
                                          sign: string, exp: string, lexeme: string, q: nat, f: nat)
    requires a == "" || a == "-"
    requires |whole| > 0 && AllDigits(whole)
    requires lexeme == a + whole + Fraction(frac) + [mark] + sign + exp
    requires Occurs(s, 0, lexeme)
    requires q == |a| && f == q + |whole| + |Fraction(frac)|
    ensures q == (if At(s, 0, '-') then 1 else 0) && Occurs(s, q, whole)
    ensures frac != [] ==> At(s, q + |whole|, '.') && Occurs(s, q + |whole| + 1, frac)
    ensures At(s, f, mark) && Occurs(s, f + 1, sign) && Occurs(s, f + 1 + |sign|, exp)
    ensures |lexeme| == f + 1 + |sign| + |exp|
  {
    ExponentSplit(s, a + whole, Fraction(frac), mark, sign, exp, lexeme);
    MantissaPieces(s, a, whole);
    FractionPieces(s, |a| + |whole|, frac);
  }

  /** A mantissa up to `f` and an exponent from `f` to `e`, followed by no
      digit: `parse_value` reads the Real from the text up to `e`. */
  lemma {:induction false} ExponentParts(s: string, q: nat, whole: string, frac: string, f: nat, mark: char,
                                         sign: string, exp: string, e: nat)
    requires |whole| > 0 && AllDigits(whole) && AllDigits(frac)
    requires q == (if At(s, 0, '-') then 1 else 0) && Occurs(s, q, whole)
    requires frac != [] ==> At(s, q + |whole|, '.') && Occurs(s, q + |whole| + 1, frac)
    requires f == q + |whole| + |Fraction(frac)| && (mark == 'e' || mark == 'E') && At(s, f, mark)
    requires (sign == "" || sign == "+" || sign == "-") && Occurs(s, f + 1, sign)
    requires |exp| > 0 && AllDigits(exp) && Occurs(s, f + 1 + |sign|, exp)
    requires e == f + 1 + |sign| + |exp| && !DigitAt(s, e)
    ensures ParseValue(s, 0) == Ok((Real(FromText(s[0..e])), e))
  {
    MantissaAt(s, q, whole, frac, f);
    ExponentAt(s, f, sign, exp, e, frac == []);
  }

  /** A lexeme with an exponent at the start of `s`, followed by no digit:
      the Real read from it. */
  lemma {:induction false} ExponentLexemeAt(s: string, a: string, whole: string, frac: string, mark: char,
                                            sign: string, exp: string, lexeme: string)
    requires a == "" || a == "-"
    requires |whole| > 0 && AllDigits(whole) && AllDigits(frac)
    requires (mark == 'e' || mark == 'E') && (sign == "" || sign == "+" || sign == "-")
    requires |exp| > 0 && AllDigits(exp)
    requires lexeme == a + whole + Fraction(frac) + [mark] + sign + exp
    requires Occurs(s, 0, lexeme) && !DigitAt(s, |lexeme|)
    ensures ParseValue(s, 0) == Ok((Real(FromText(s[0..|lexeme|])), |lexeme|))
  {
    var q, f := |a|, |a| + |whole| + |Fraction(frac)|;
    ExponentLayout(s, a, whole, frac, mark, sign, exp, lexeme, q, f);
    ExponentParts(s, q, whole, frac, f, mark, sign, exp, |lexeme|);
  }

  /** A lexeme with an exponent, 'e' or 'E' with an optional sign and at
      least one digit, after the integer digits or after a fraction, is the
      Real `std::stold` reads from it. */
  lemma {:induction false} ExponentNumber(neg: bool, whole: string, frac: string, mark: char, sign: string,
                                          exp: string, rest: string)
    requires |whole| > 0 && AllDigits(whole) && AllDigits(frac)
    requires (mark == 'e' || mark == 'E') && (sign == "" || sign == "+" || sign == "-")
    requires |exp| > 0 && AllDigits(exp)
    requires rest == [] || !IsDigit(rest[0])
    ensures var lexeme := (if neg then "-" else "") + whole + Fraction(frac) + [mark] + sign + exp;
            ParseValue(lexeme + rest, 0) == Ok((Real(FromText(lexeme)), |lexeme|))
  {
    var a := if neg then "-" else "";
    var lexeme := a + whole + Fraction(frac) + [mark] + sign + exp;
    var s := lexeme + rest;
    OccursIn("", lexeme, rest);
    assert "" + lexeme + rest == s;
    assert |lexeme| < |s| ==> s[|lexeme|] == rest[0];
    ExponentLexemeAt(s, a, whole, frac, mark, sign, exp, lexeme);
    OccursSlice(s, 0, lexeme);
  }

  /** A '.' must be followed by a digit. */
  lemma {:induction false} FractionNeedsDigit(digits: string, rest: string)
    requires |digits| > 0 && AllDigits(digits)
    requires rest == [] || !IsDigit(rest[0])
    ensures Parse(digits + "." + rest) == Err(Syntax(ExpectedDigit))
  {
    var s := digits + "." + rest;
    var m := |digits|;
    assert Occurs(s, 0, digits);
    assert s[0] == digits[0] && s[m] == '.';
    assert m + 1 < |s| ==> s[m + 1] == rest[0];
    DigitsOver(s, 0, digits);
    NumberStart(s, 0, 0);
    assert NumberFraction(s, 0, m) == Err(Syntax(ExpectedDigit));
    NumberDispatch(s, 0);
    ParseWhole(s, ParseValue(s, 0));
  }

  /** A mantissa up to `f` and an exponent marker at `f` whose optional
      sign is followed by no digit: "expected digit". */
  lemma {:induction false} ExponentMissingParts(s: string, q: nat, whole: string, frac: string, f: nat,
                                                mark: char, sign: string)
    requires |whole| > 0 && AllDigits(whole) && AllDigits(frac)
    requires q == (if At(s, 0, '-') then 1 else 0) && Occurs(s, q, whole)
    requires frac != [] ==> At(s, q + |whole|, '.') && Occurs(s, q + |whole| + 1, frac)
    requires f == q + |whole| + |Fraction(frac)| && (mark == 'e' || mark == 'E') && At(s, f, mark)
    requires (sign == "" || sign == "+" || sign == "-") && Occurs(s, f + 1, sign)
    requires !DigitAt(s, f + 1 + |sign|) && (sign == "" ==> !At(s, f + 1, '+') && !At(s, f + 1, '-'))
    ensures ParseValue(s, 0) == Err(Syntax(ExpectedDigit))
  {
    MantissaAt(s, q, whole, frac, f);
    ExponentMissingAt(s, f, sign, frac == []);
  }

  /** A number whose exponent marker and optional sign start `s` but are
      followed by no digit: "expected digit". */
  lemma {:induction false} ExponentMissingLexemeAt(s: string, a: string, whole: string, frac: string, mark: char,
                                                   sign: string, head: string)
    requires a == "" || a == "-"
    requires |whole| > 0 && AllDigits(whole) && AllDigits(frac)
    requires (mark == 'e' || mark == 'E') && (sign == "" || sign == "+" || sign == "-")
    requires head == a + whole + Fraction(frac) + [mark] + sign
    requires Occurs(s, 0, head) && !DigitAt(s, |head|)
    requires sign == "" ==> !At(s, |head|, '+') && !At(s, |head|, '-')
    ensures ParseValue(s, 0) == Err(Syntax(ExpectedDigit))
  {
    var q, f := |a|, |a| + |whole| + |Fraction(frac)|;
    assert head + [] == head;
    ExponentLayout(s, a, whole, frac, mark, sign, [], head + [], q, f);
    ExponentMissingParts(s, q, whole, frac, f, mark, sign);
  }

  /** An exponent, 'e' or 'E' after the integer digits or after a fraction,
      must be followed by a digit once its optional sign is read. */
  lemma {:induction false} ExponentNeedsDigit(neg: bool, whole: string, frac: string, mark: char, sign: string,
                                              rest: string)
    requires |whole| > 0 && AllDigits(whole) && AllDigits(frac)
    requires (mark == 'e' || mark == 'E') && (sign == "" || sign == "+" || sign == "-")
    requires rest == [] || !(IsDigit(rest[0]) || (sign == "" && (rest[0] == '+' || rest[0] == '-')))
    ensures Parse((if neg then "-" else "") + whole + Fraction(frac) + [mark] + sign + rest)
            == Err(Syntax(ExpectedDigit))
  {
    var a := if neg then "-" else "";
    var head := a + whole + Fraction(frac) + [mark] + sign;
    var s := head + rest;
    OccursIn("", head, rest);
    assert "" + head + rest == s;
    assert |head| < |s| ==> s[|head|] == rest[0];
    ExponentMissingLexemeAt(s, a, whole, frac, mark, sign, head);
    ParseWhole(s, ParseValue(s, 0));
  }

  /** A value starting with '+' is rejected by the dispatch of
      `parse_value`, before `parse_number` could read the sign. */
  lemma {:induction false} PlusRejected(s: string, i: nat)
    requires i <= |s| && At(s, SkipWs(s, i), '+')
    ensures ParseValue(s, i) == Err(Syntax(UnexpectedCharacter))
  {
  }

  /** A '-' must be followed by a digit; at the end of the input the error
      is an unexpected end. */
  lemma {:induction false} MinusAlone(s: string, i: nat)
    requires i <= |s| && At(s, SkipWs(s, i), '-') && !DigitAt(s, SkipWs(s, i) + 1)
    ensures ParseValue(s, i)
         == Err(Syntax(if SkipWs(s, i) + 1 == |s| then UnexpectedEof else ExpectedDigit))
  {
  }

  /** Every other character that cannot start a value is sent to
      `parse_number`, which rejects it. */
  lemma {:induction false} OtherRejected(s: string, i: nat)
    requires i <= |s| && SkipWs(s, i) < |s|
    requires s[SkipWs(s, i)] !in "ntf\"[{+-" && !IsDigit(s[SkipWs(s, i)])
    ensures ParseValue(s, i) == Err(Syntax(ExpectedNumber))
  {
    SkipWsSpaces(s, i);
  }

  /* ---------------- strings ---------------- */

  /** The loop of `parse_string` copies plain text and goes on after it. */
  lemma {:induction false} StringCharsSkip(s: string, j: nat, acc: string, t: string)
    requires Occurs(s, j, t) && Plain(t)
    ensures StringChars(s, j, acc) == StringChars(s, j + |t|, acc + t)
    decreases |t|
  {
    if t != [] {
      OccursRest(s, j, t);
      StringCharsSkip(s, j + 1, acc + [t[0]], t[1..]);
      assert acc + [t[0]] + t[1..] == acc + t;
    } else {
      assert acc + t == acc;
    }
  }

  /** `parse_value` at a quote reads a string. */
  lemma {:induction false} StringDispatch(s: string, p: nat)
    requires At(s, p, '"')
    ensures ParseValue(s, p) == match StringChars(s, p + 1, "")
                                case Ok((t, e)) => Ok((String(t), e))
                                case Err(err) => Err(err)
  {
    ValueStarts(s, p);
    assert SkipWs(s, p) == p;
  }

  /** `t` lies in `a + t + b` after `a`. */
  lemma {:induction false} OccursIn(a: string, t: string, b: string)
    ensures Occurs(a + t + b, |a|, t)
  {
    var s := a + t + b;
    forall k | 0 <= k < |t| ensures s[|a| + k] == t[k] {
      assert s == a + (t + b);
    }
  }

  /** The characters after the opening quote: plain text, one escape, plain
      text and the closing quote. */
  lemma {:induction false} EscapeChars(s: string, a: string, c: char, b: string)
    requires Plain(a) && Plain(b)
    requires Occurs(s, 1, a) && At(s, 1 + |a|, '\\') && At(s, 2 + |a|, c)
    requires Occurs(s, 3 + |a|, b) && At(s, 3 + |a| + |b|, '"')
    ensures StringChars(s, 1, "") == Ok((a + Unescape(c) + b, 4 + |a| + |b|))
  {
    StringCharsSkip(s, 1, "", a);
    assert "" + a == a;
    StringCharsStep(s, 1 + |a|, a);
    StringCharsPlain(s, 3 + |a|, a + Unescape(c), b);
  }

  /** An escape between plain text stands for the character Unescape
      gives: `\b \f \n \r \t \" \\ \/` for their characters, any other
      escaped character for nothing. */
  lemma {:induction false} EscapeInString(a: string, c: char, b: string)
    requires Plain(a) && Plain(b)
    ensures Parse("\"" + a + "\\" + [c] + b + "\"") == Ok(String(a + Unescape(c) + b))
  {
    var s := "\"" + a + "\\" + [c] + b + "\"";
    OccursIn("\"", a, "\\" + [c] + b + "\"");
    OccursIn("\"" + a + "\\" + [c], b, "\"");
    assert s == "\"" + a + ("\\" + [c] + b + "\"") == "\"" + a + "\\" + [c] + b + "\"";
    assert s[1 + |a|] == '\\' && s[2 + |a|] == c && s[3 + |a| + |b|] == '"';
    EscapeChars(s, a, c, b);
    StringDispatch(s, 0);
    ParseWhole(s, ParseValue(s, 0));
  }

  /** A backslash at the end of the input is an unfinished escape. */
  lemma {:induction false} EscapeAtEnd(t: string)
    requires Plain(t)
    ensures Parse("\"" + t + "\\") == Err(Syntax(UnfinishedEscape))
  {
    var s := "\"" + t + "\\";
    assert Occurs(s, 1, t) && s[|s| - 1] == '\\';
    StringCharsSkip(s, 1, "", t);
    assert StringChars(s, 1 + |t|, "" + t) == Err(Syntax(UnfinishedEscape));
    StringDispatch(s, 0);
    ParseWhole(s, ParseValue(s, 0));
  }

  /** A string without its closing quote is an error. */
  lemma {:induction false} QuoteMissing(t: string)
    requires Plain(t)
    ensures Parse("\"" + t) == Err(Syntax(ExpectedQuote))
  {
    var s := "\"" + t;
    assert Occurs(s, 1, t);
    StringCharsSkip(s, 1, "", t);
    assert StringChars(s, |s|, "" + t) == Err(Syntax(ExpectedQuote));
    StringDispatch(s, 0);
    ParseWhole(s, ParseValue(s, 0));
  }

  /* ---------------- containers ---------------- */

  /** `[]` with only whitespace inside is recognised before any element. */
  lemma {:induction false} EmptyArray(w: string)
    requires Spaces(w)
    ensures Parse("[" + w + "]") == Ok(Array([]))
  {
    var s := "[" + w + "]";
    assert Occurs(s, 1, w) && s[|s| - 1] == ']';
    SkipWsOver(s, 1, w);
    ArrayEmpty(s, 0);
    ValueStarts(s, 0);
    assert ParseValue(s, 0) == ParseArray(s, 0);
    ParseWhole(s, ParseValue(s, 0));
  }

  /** `{}` with only whitespace inside is recognised before any member. */
  lemma {:induction false} EmptyObject(w: string)
    requires Spaces(w)
    ensures Parse("{" + w + "}") == Ok(Object([]))
  {
    var s := "{" + w + "}";
    assert Occurs(s, 1, w) && s[|s| - 1] == '}';
    SkipWsOver(s, 1, w);
    ObjectEmpty(s, 0);
    ValueStarts(s, 0);
    assert ParseValue(s, 0) == ParseObject(s, 0);
    ParseWhole(s, ParseValue(s, 0));
  }

  /** A comma before the closing bracket is rejected: `parse_value` sends
      ']' to `parse_number`. */
  lemma {:induction false} ArrayTrailingComma(s: string, i: nat, acc: seq<Value>)
    requires At(s, i, ',') && At(s, SkipWs(s, i + 1), ']')
    ensures ArrayElements(s, i, acc) == Err(Syntax(ExpectedNumber))
  {
    var p := SkipWs(s, i + 1);
    SkipWsTwice(s, i + 1);
    assert ValueAt(s, p) == ParseNumber(s, p);
    assert ParseNumber(s, p) == Err(Syntax(ExpectedNumber));
  }

  /** A comma before the closing brace is rejected: a member must start
      with a quote. */
  lemma {:induction false} ObjectTrailingComma(s: string, i: nat, acc: seq<Member>, key: string, v: Value, n: nat)
    requires i <= |s| && ParseMember(s, i) == Ok((key, v, n)) && At(s, n, ',') && At(s, SkipWs(s, n + 1), '}')
    ensures ObjectMembers(s, i, acc) == Err(Syntax(ExpectedQuote))
  {
    ObjectMembersNext(s, i, acc, key, v, n);
  }

  /** Two values without a comma between them: the closing bracket is
      expected. */
  lemma {:induction false} ArrayMissingComma(s: string, i: nat, acc: seq<Value>)
    requires i <= |s| && !At(s, i, ',') && !At(s, SkipWs(s, i), ']')
    ensures ArrayElements(s, i, acc) == Err(Syntax(ExpectedCloseBracket))
  {
  }

  /** A member followed by neither a comma nor the closing brace: the
      closing brace is expected. */
  lemma {:induction false} ObjectMissingComma(s: string, i: nat, acc: seq<Member>, key: string, v: Value, n: nat)
    requires i <= |s| && ParseMember(s, i) == Ok((key, v, n)) && !At(s, n, ',') && !At(s, SkipWs(s, n), '}')
    ensures ObjectMembers(s, i, acc) == Err(Syntax(ExpectedCloseBrace))
  {
    ObjectMembersLast(s, i, acc, key, v, n);
  }

  /** A member must start with a quoted key, and the key must be followed
      by ':'. */
  lemma {:induction false} MemberKeyAndColon(s: string, i: nat)
    requires i <= |s|
    ensures !At(s, i, '"') ==> ParseMember(s, i) == Err(Syntax(ExpectedQuote))
    ensures At(s, i, '"') && ParseString(s, i).Ok? && !At(s, SkipWs(s, ParseString(s, i).value.1), ':')
            ==> ParseMember(s, i) == Err(Syntax(ExpectedColon))
  {
  }

  /** With a duplicate key the last value wins: two members with the same
      key store the key once, with the second value. */
  lemma {:induction false} DuplicateKey(s: string, i: nat, acc: seq<Member>, key: string,
                                        v1: Value, n1: nat, v2: Value, n2: nat)
    requires i <= |s| && ParseMember(s, i) == Ok((key, v1, n1)) && At(s, n1, ',')
    requires ParseMember(s, SkipWs(s, n1 + 1)) == Ok((key, v2, n2)) && !At(s, n2, ',')
    ensures ObjectMembers(s, i, acc) == ObjectClose(s, n2, Put(acc, key, v2))
    ensures Lookup(Put(acc, key, v2), key) == Some(v2)
    ensures KeySet(Put(acc, key, v2)) == KeySet(acc) + {key}
  {
    ObjectMembersNext(s, i, acc, key, v1, n1);
    ObjectMembersLast(s, SkipWs(s, n1 + 1), Put(acc, key, v1), key, v2, n2);
    PutTwice(acc, key, v1, v2);
    PutLookup(acc, key, v2, key);
    PutKeySet(acc, key, v2);
  }

  /* ---------------- the values built are well formed ---------------- */

  /** Every object `parse` builds has unique keys: `obj[key] = value`
      overwrites an earlier member with the same key. */
  lemma {:induction false} ParseWellFormed(s: string)
    ensures Parse(s).Ok? ==> WellFormed(Parse(s).value)
  {
    ValueWellFormed(s, 0);
  }

  lemma {:induction false} ValueWellFormed(s: string, i: nat)
    requires i <= |s|
    ensures ParseValue(s, i).Ok? ==> WellFormed(ParseValue(s, i).value.0)
    decreases |s| - i, 3
  {
    var p := SkipWs(s, i);
    if p < |s| {
      ValueAtWellFormed(s, p);
    }
  }

  lemma {:induction false} ValueAtWellFormed(s: string, p: nat)
    requires p < |s|
    ensures ValueAt(s, p).Ok? ==> WellFormed(ValueAt(s, p).value.0)
    decreases |s| - p, 2
  {
    if s[p] == '[' {
      ArrayWellFormed(s, p);
    } else if s[p] == '{' {
      ObjectWellFormed(s, p);
    } else if s[p] == 'n' || s[p] == 't' || s[p] == 'f' || s[p] == '"' {
    } else if ParseNumber(s, p).Ok? {
      NumberScalar(s, p);
    }
  }

  /** `parse_number` yields a number. */
  lemma {:induction false} NumberScalar(s: string, p: nat)
    requires p <= |s| && ParseNumber(s, p).Ok?
    ensures ParseNumber(s, p).value.0.Integer? || ParseNumber(s, p).value.0.Real?
  {
    var q := SkipWs(s, p);
    var m := Digits(s, if At(s, q, '-') || At(s, q, '+') then q + 1 else q);
    assert ParseNumber(s, p) == NumberFraction(s, q, m);
  }

  lemma {:induction false} ArrayWellFormed(s: string, i: nat)
    requires i <= |s|
    ensures ParseArray(s, i).Ok? ==> WellFormed(ParseArray(s, i).value.0)
    decreases |s| - i, 1
  {
    var p := SkipWs(s, i);
    if At(s, p, '[') {
      var q := SkipWs(s, p + 1);
      if !At(s, q, ']') && ParseValue(s, q).Ok? {
        ValueWellFormed(s, q);
        var (v, e) := ParseValue(s, q).value;
        ElementsWellFormed(s, SkipWs(s, e), [v]);
      }
    }
  }

  lemma {:induction false} ElementsWellFormed(s: string, i: nat, acc: seq<Value>)
    requires i <= |s| && forall k :: 0 <= k < |acc| ==> WellFormed(acc[k])
    ensures ArrayElements(s, i, acc).Ok? ==> WellFormed(ArrayElements(s, i, acc).value.0)
    decreases |s| - i, 0
  {
    if At(s, i, ',') && ParseValue(s, i + 1).Ok? {
      ValueWellFormed(s, i + 1);
      var (v, e) := ParseValue(s, i + 1).value;
      ElementsWellFormed(s, SkipWs(s, e), acc + [v]);
    }
  }

  lemma {:induction false} ObjectWellFormed(s: string, i: nat)
    requires i <= |s|
    ensures ParseObject(s, i).Ok? ==> WellFormed(ParseObject(s, i).value.0)
    decreases |s| - i, 1
  {
    var p := SkipWs(s, i);
    if At(s, p, '{') {
      var q := SkipWs(s, p + 1);
      if !At(s, q, '}') {
        MembersWellFormed(s, q, []);
      }
    }
  }

  lemma {:induction false} MembersWellFormed(s: string, i: nat, acc: seq<Member>)
    requires i <= |s| && DistinctKeys(acc) && forall k :: 0 <= k < |acc| ==> WellFormed(acc[k].val)
    ensures ObjectMembers(s, i, acc).Ok? ==> WellFormed(ObjectMembers(s, i, acc).value.0)
    decreases |s| - i, 1
  {
    if ParseMember(s, i).Ok? {
      var (key, v, n) := ParseMember(s, i).value;
      MemberWellFormed(s, i);
      PutDistinct(acc, key, v);
      PutValues(acc, key, v);
      if At(s, n, ',') {
        ObjectMembersNext(s, i, acc, key, v, n);
        MembersWellFormed(s, SkipWs(s, n + 1), Put(acc, key, v));
      } else {
        ObjectMembersLast(s, i, acc, key, v, n);
      }
    }
  }

  lemma {:induction false} MemberWellFormed(s: string, i: nat)
    requires i <= |s|
    ensures ParseMember(s, i).Ok? ==> WellFormed(ParseMember(s, i).value.1)
    decreases |s| - i, 0
  {
    if At(s, i, '"') && ParseString(s, i).Ok? {
      var c := SkipWs(s, ParseString(s, i).value.1);
      if At(s, c, ':') {
        ValueWellFormed(s, SkipWs(s, c + 1));
      }
    }
  }
}
