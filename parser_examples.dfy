/** `JSON::parse` on small texts: a trailing and a missing comma in an
    array, an unquoted key, and the literals that are read without
    rewinding after a partial match. */
module ParserExamples {
  import opened JsonValue
  import opened ParserSpec

  /** A trailing comma in an array: `parse_value` sends ']' to
      `parse_number`, which finds no number. */
  lemma {:induction false} ArrayTrailingCommaExample()
    ensures Parse("[1,]") == Err(Syntax(ExpectedNumber))
  {
    var s := "[1,]";
    assert ParseValue(s, 1) == Ok((Integer(1), 2));
    assert ParseValue(s, 3) == Err(Syntax(ExpectedNumber));
    ArrayFirst(s, 0, Integer(1), 2);
  }

  /** Two elements without a comma: the closing bracket is expected. */
  lemma {:induction false} ArrayMissingCommaExample()
    ensures Parse("[1 2]") == Err(Syntax(ExpectedCloseBracket))
  {
    var s := "[1 2]";
    assert ParseValue(s, 1) == Ok((Integer(1), 2));
    ArrayFirst(s, 0, Integer(1), 2);
  }

  /** An unquoted key is rejected. */
  lemma {:induction false} UnquotedKeyExample()
    ensures Parse("{a:1}") == Err(Syntax(ExpectedQuote))
  {
  }

  /** `parse_literal` does not rewind after a partial match: "ntrue" fails
      on "null" after the 'n' and then reads "true". */
  lemma {:induction false} LiteralNoRewindTrue()
    ensures Parse("ntrue") == Ok(Bool(true))
  {
  }

  /** "nufalse" fails on "null" after "nu", skips "true" (no 't' there)
      and reads "false". */
  lemma {:induction false} LiteralNoRewindFalse()
    ensures Parse("nufalse") == Ok(Bool(false))
  {
  }

  /** A literal cut short is invalid. */
  lemma {:induction false} LiteralCutShort()
    ensures Parse("nul") == Err(Syntax(InvalidLiteral))
  {
  }
}
