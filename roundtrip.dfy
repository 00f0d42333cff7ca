/** Parsing the text `to_string` writes gives the value back, compact or
    indented, for every value whose text the serializer writes faithfully:
    one with no Real (whose text `std::to_string(long double)` rounds), with
    no '"' or '\' in a string or key (the serializer does not escape them),
    and with unique keys in every object (as an unordered map has). */
module RoundTrip {
  import opened JsonValue
  import opened Lexical
  import opened ParserSpec
  import opened Serializer

  /** `t` holds no character the parser reads as the end of a string or
      as an escape. */
  predicate Plain(t: string)
  {
    forall k :: 0 <= k < |t| ==> t[k] != '"' && t[k] != '\\'
  }

  /** The values whose text reads back as themselves. */
  predicate Serializable(v: Value)
  {
    match v
    case Real(_) => false
    case String(t) => Plain(t)
    case Array(es) => forall k :: 0 <= k < |es| ==> Serializable(es[k])
    case Object(ms) =>
      DistinctKeys(ms) && forall k :: 0 <= k < |ms| ==> Plain(ms[k].key) && Serializable(ms[k].val)
    case _ => true
  }

  /** `t` lies in `s` at position `i`. */
  predicate Occurs(s: string, i: nat, t: string)
  {
    i + |t| <= |s| && forall k {:trigger t[k]} :: 0 <= k < |t| ==> s[i + k] == t[k]
  }

  /** What follows a number's text cannot extend the number: the end of the
      stream, or a character that is neither a digit, '.', 'e' nor 'E'. */
  predicate Ends(s: string, j: nat)
  {
    j <= |s| && (j == |s| || !(IsDigit(s[j]) || s[j] == '.' || s[j] == 'e' || s[j] == 'E'))
  }

  predicate Spaces(t: string)
  {
    forall k :: 0 <= k < |t| ==> IsSpace(t[k])
  }

  /* ---------------- where the pieces of a text lie ---------------- */

  /** The first character of `t`, and the rest of `t` after it. */
  lemma {:induction false} OccursRest(s: string, i: nat, t: string)
    requires Occurs(s, i, t) && |t| > 0
    ensures s[i] == t[0] && Occurs(s, i + 1, t[1..])
  {
    forall k | 0 <= k < |t| - 1 ensures s[i + 1 + k] == t[1..][k] {
      assert t[1..][k] == t[k + 1];
    }
  }

  lemma {:induction false} OccursSplit(s: string, i: nat, a: string, b: string)
    requires Occurs(s, i, a + b)
    ensures Occurs(s, i, a) && Occurs(s, i + |a|, b)
  {
    forall k | 0 <= k < |a| ensures s[i + k] == a[k] {
      assert (a + b)[k] == a[k];
    }
    forall k | 0 <= k < |b| ensures s[i + |a| + k] == b[k] {
      assert (a + b)[|a| + k] == b[k];
    }
  }

  lemma {:induction false} OccursFront(s: string, i: nat, a: string, b: string, t: string)
    requires Occurs(s, i, a + b + t)
    ensures Occurs(s, i, a) && Occurs(s, i + |a|, b)
  {
    OccursSplit(s, i, a + b, t);
    OccursSplit(s, i, a, b);
  }

  lemma {:induction false} OccursLast(s: string, i: nat, a: string, b: string, t: string)
    requires Occurs(s, i, a + b + t)
    ensures Occurs(s, i + |a| + |b|, t)
  {
    OccursSplit(s, i, a + b, t);
  }

  lemma {:induction false} OccursPrefix(s: string, i: nat, u: string, t: string)
    requires Occurs(s, i, t) && u <= t
    ensures Occurs(s, i, u)
  {
    assert t == u + t[|u|..];
    OccursSplit(s, i, u, t[|u|..]);
  }

  /** The first `k` items joined are a prefix of all of them joined. */
  lemma {:induction false} JoinPrefix(items: seq<string>, k: nat)
    requires k <= |items|
    ensures Join(items[..k], ",") <= Join(items, ",")
    decreases |items| - k
  {
    if k < |items| {
      JoinPrefix(items, k + 1);
      JoinSnoc(items, k);
    } else {
      assert items[..k] == items;
    }
  }

  /** Item `k` of `Join(items, ",") + tail` laid out at `i`: where it starts,
      the comma before it, and where it ends. */
  lemma {:induction false} ItemAt(s: string, i: nat, items: seq<string>, tail: string, k: nat)
    requires Occurs(s, i, Join(items, ",") + tail) && k < |items|
    ensures var e := i + |Join(items[..k], ",")| + (if k > 0 then 1 else 0);
            Occurs(s, e, items[k]) && (k > 0 ==> s[e - 1] == ',')
            && e + |items[k]| == i + |Join(items[..k + 1], ",")|
  {
    OccursSplit(s, i, Join(items, ","), tail);
    JoinPrefix(items, k + 1);
    OccursPrefix(s, i, Join(items[..k + 1], ","), Join(items, ","));
    var pre := Join(items[..k], ",") + (if k > 0 then "," else "");
    JoinSnoc(items, k);
    OccursSplit(s, i, pre, items[k]);
    if k > 0 {
      OccursSplit(s, i, Join(items[..k], ","), ",");
      OccursFirst(s, i + |Join(items[..k], ",")|, ",");
    }
  }

  /** What follows item `k`: the comma before item `k + 1`, or the tail. */
  lemma {:induction false} AfterItem(s: string, i: nat, items: seq<string>, tail: string, k: nat)
    requires Occurs(s, i, Join(items, ",") + tail) && k < |items|
    requires |tail| > 0 && (tail[0] == '\n' || tail[0] == ']' || tail[0] == '}')
    ensures var e := i + |Join(items[..k + 1], ",")|;
            Ends(s, e)
            && (k + 1 < |items| ==> e < |s| && s[e] == ',')
            && (k + 1 == |items| ==> Occurs(s, e, tail))
  {
    if k + 1 < |items| {
      ItemAt(s, i, items, tail, k + 1);
    } else {
      assert items[..k + 1] == items;
      OccursSplit(s, i, Join(items, ","), tail);
      OccursFirst(s, i + |Join(items, ",")|, tail);
    }
  }

  /* ---------------- scanning over known text ---------------- */

  lemma {:induction false} SkipWsOver(s: string, j: nat, w: string)
    requires Occurs(s, j, w) && Spaces(w)
    requires j + |w| < |s| ==> !IsSpace(s[j + |w|])
    ensures SkipWs(s, j) == j + |w|
    decreases |w|
  {
    if w != [] {
      OccursRest(s, j, w);
      SkipWsOver(s, j + 1, w[1..]);
    }
  }

  /** `parse_value` skips leading whitespace itself. */
  lemma {:induction false} ParseValueAfterWs(s: string, j: nat, w: string)
    requires Occurs(s, j, w) && Spaces(w)
    requires j + |w| < |s| && !IsSpace(s[j + |w|])
    ensures ParseValue(s, j) == ParseValue(s, j + |w|)
  {
    SkipWsOver(s, j, w);
  }

  lemma {:induction false} ConsumeText(s: string, i: nat, lit: string)
    requires Occurs(s, i, lit)
    ensures Consume(s, i, lit) == (true, i + |lit|)
    decreases |lit|
  {
    if lit != [] {
      OccursRest(s, i, lit);
      ConsumeText(s, i + 1, lit[1..]);
    }
  }

  lemma {:induction false} DigitsOver(s: string, j: nat, t: string)
    requires Occurs(s, j, t) && AllDigits(t) && !DigitAt(s, j + |t|)
    ensures Digits(s, j) == j + |t|
    decreases |t|
  {
    if t != [] {
      OccursRest(s, j, t);
      DigitsOver(s, j + 1, t[1..]);
    }
  }

  /** The loop of `parse_string` copies plain text up to the closing quote. */
  lemma {:induction false} StringCharsPlain(s: string, j: nat, acc: string, t: string)
    requires Occurs(s, j, t) && At(s, j + |t|, '"') && Plain(t)
    ensures StringChars(s, j, acc) == Ok((acc + t, j + |t| + 1))
    decreases |t|
  {
    if t != [] {
      OccursRest(s, j, t);
      StringCharsPlain(s, j + 1, acc + [t[0]], t[1..]);
      assert acc + [t[0]] + t[1..] == acc + t;
    } else {
      assert acc + t == acc;
    }
  }

  /** A value's text starts with a character that is neither whitespace
      nor a closing bracket, brace or comma. */
  lemma {:induction false} TextStart(v: Value, c: bool, d: nat, rt: LongDouble -> string)
    requires Serializable(v)
    ensures var t := Text(v, c, d, rt);
            |t| > 0 && !IsSpace(t[0]) && t[0] != ']' && t[0] != '}' && t[0] != ','
  {
  }

  /* ---------------- the round trip ---------------- */

  /** An optional '-' and at least one digit. */
  predicate IntegerLexeme(t: string)
  {
    (|t| > 0 && AllDigits(t)) || (|t| > 1 && t[0] == '-' && AllDigits(t[1..]))
  }

  lemma {:induction false} IntToStringLexeme(n: Int64)
    ensures IntegerLexeme(IntToString(n))
  {
    if n < 0 {
      assert IntToString(n)[1..] == NatToDecimal(-(n as int));
    }
  }

  /** `parse_number` over an integer lexeme converts it with `from_chars`. */
  lemma {:induction false} NumberText(t: string, s: string, i: nat)
    requires IntegerLexeme(t) && Occurs(s, i, t) && Ends(s, i + |t|)
    ensures ParseNumber(s, i) == Ok((NumberValue(t, true), i + |t|))
  {
    var q := NumberLayout(t, s, i);
    NumberStart(s, i, q);
    NumberEnd(s, i, i + |t|);
    OccursSlice(s, i, t);
  }

  /** Where the sign and the digits of an integer lexeme lie: the digits
      start at `q` and run to the end of the lexeme. */
  lemma {:induction false} NumberLayout(t: string, s: string, i: nat) returns (q: nat)
    requires IntegerLexeme(t) && Occurs(s, i, t) && Ends(s, i + |t|)
    ensures i <= q < |s| && !IsSpace(s[i]) && s[i] != '+' && DigitAt(s, q)
    ensures q == (if s[i] == '-' then i + 1 else i) && Digits(s, q) == i + |t|
    ensures i < i + |t| <= |s| && !At(s, i + |t|, '.') && !At(s, i + |t|, 'e') && !At(s, i + |t|, 'E')
  {
    OccursFirst(s, i, t);
    var sign := if t[0] == '-' then "-" else "";
    var digits := t[|sign|..];
    assert t == sign + digits;
    assert AllDigits(digits) by {
      if t[0] == '-' {
        assert !IsDigit(t[0]);
      } else {
        assert digits == t;
      }
    }
    assert IsDigit(digits[0]);
    OccursSplit(s, i, sign, digits);
    OccursFirst(s, i + |sign|, digits);
    DigitsOver(s, i + |sign|, digits);
    q := i + |sign|;
  }

  /** `t` lying at `i` is the slice of `s` from `i`. */
  lemma {:induction false} OccursSlice(s: string, i: nat, t: string)
    requires Occurs(s, i, t)
    ensures s[i..i + |t|] == t
  {
    assert forall k | 0 <= k < |t| :: s[i..i + |t|][k] == t[k];
  }

  /** The sign and the integer digits of `parse_number`. */
  lemma {:induction false} NumberStart(s: string, i: nat, q: nat)
    requires i <= q < |s| && !IsSpace(s[i]) && s[i] != '+' && DigitAt(s, q)
    requires q == if s[i] == '-' then i + 1 else i
    ensures ParseNumber(s, i) == NumberFraction(s, i, Digits(s, q))
  {
  }

  /** A lexeme with neither fraction nor exponent is converted as an
      integer. */
  lemma {:induction false} NumberEnd(s: string, p: nat, e: nat)
    requires p < e <= |s| && !At(s, e, '.') && !At(s, e, 'e') && !At(s, e, 'E')
    ensures NumberFraction(s, p, e) == Ok((NumberValue(s[p..e], true), e))
  {
  }

  lemma {:induction false} OccursFirst(s: string, i: nat, t: string)
    requires Occurs(s, i, t) && |t| > 0
    ensures s[i] == t[0]
  {
  }

  /** `parse_number` reads `to_string(int64_t)` back with `from_chars`. */
  lemma {:induction false} IntegerValue(n: Int64, s: string, i: nat)
    requires Occurs(s, i, IntToString(n)) && Ends(s, i + |IntToString(n)|)
    ensures ParseValue(s, i) == Ok((Integer(n), i + |IntToString(n)|))
  {
    OccursFirst(s, i, IntToString(n));
    IntToStringLexeme(n);
    NumberText(IntToString(n), s, i);
    FromCharsIntToString(n);
  }

  lemma {:induction false} LiteralValue(lit: string, v: Value, s: string, i: nat)
    requires (lit == "null" && v == Null) || (lit == "true" && v == Bool(true)) || (lit == "false" && v == Bool(false))
    requires Occurs(s, i, lit)
    ensures ParseValue(s, i) == Ok((v, i + |lit|))
  {
    OccursFirst(s, i, lit);
    ConsumeText(s, i, lit);
    assert SkipWs(s, i) == i;
    assert ParseValue(s, i) == ParseLiteral(s, i);
  }

  /** `parse_string` reads a plain string between quotes back. */
  lemma {:induction false} StringText(str: string, s: string, i: nat)
    requires Plain(str) && Occurs(s, i, "\"" + str + "\"")
    ensures ParseString(s, i) == Ok((str, i + |str| + 2))
  {
    OccursSplit(s, i, "\"" + str, "\"");
    OccursFirst(s, i + 1 + |str|, "\"");
    OccursSplit(s, i, "\"", str);
    OccursFirst(s, i, "\"");
    StringCharsPlain(s, i + 1, "", str);
    assert "" + str == str;
  }

  lemma {:induction false} StringValue(str: string, s: string, i: nat)
    requires Plain(str) && Occurs(s, i, "\"" + str + "\"")
    ensures ParseValue(s, i) == Ok((String(str), i + |str| + 2))
  {
    OccursFirst(s, i, "\"" + str + "\"");
    StringText(str, s, i);
    assert SkipWs(s, i) == i;
  }

  /** The text of a serializable value at `i`, followed by something that
      cannot extend it, parses back as that value and ends where the text
      ends. */
  lemma {:induction false} ParseText(v: Value, c: bool, d: nat, rt: LongDouble -> string, s: string, i: nat)
    requires Serializable(v)
    requires Occurs(s, i, Text(v, c, d, rt)) && Ends(s, i + |Text(v, c, d, rt)|)
    ensures ParseValue(s, i) == Ok((v, i + |Text(v, c, d, rt)|))
    decreases v, 4
  {
    if v.Array? {
      ArrayValue(v.elems, c, d, rt, s, i);
    } else if v.Object? {
      ObjectValue(v.members, c, d, rt, s, i);
    } else if v.Null? {
      NullValue(v, c, d, rt, s, i);
    } else if v.Bool? {
      BoolValue(v, c, d, rt, s, i);
    } else if v.Integer? {
      NumberValueText(v, c, d, rt, s, i);
    } else if v.String? {
      StringValueText(v, c, d, rt, s, i);
    } else {
      assert false;
    }
  }

  lemma {:induction false} NullValue(v: Value, c: bool, d: nat, rt: LongDouble -> string, s: string, i: nat)
    requires v.Null? && Occurs(s, i, Text(v, c, d, rt))
    ensures ParseValue(s, i) == Ok((v, i + |Text(v, c, d, rt)|))
  {
    LiteralValue("null", v, s, i);
  }

  lemma {:induction false} BoolValue(v: Value, c: bool, d: nat, rt: LongDouble -> string, s: string, i: nat)
    requires v.Bool? && Occurs(s, i, Text(v, c, d, rt))
    ensures ParseValue(s, i) == Ok((v, i + |Text(v, c, d, rt)|))
  {
    if v.b {
      LiteralValue("true", v, s, i);
    } else {
      LiteralValue("false", v, s, i);
    }
  }

  lemma {:induction false} NumberValueText(v: Value, c: bool, d: nat, rt: LongDouble -> string, s: string, i: nat)
    requires v.Integer? && Occurs(s, i, Text(v, c, d, rt)) && Ends(s, i + |Text(v, c, d, rt)|)
    ensures ParseValue(s, i) == Ok((v, i + |Text(v, c, d, rt)|))
  {
    IntegerValue(v.n, s, i);
  }

  lemma {:induction false} StringValueText(v: Value, c: bool, d: nat, rt: LongDouble -> string, s: string, i: nat)
    requires v.String? && Plain(v.s) && Occurs(s, i, Text(v, c, d, rt))
    ensures ParseValue(s, i) == Ok((v, i + |Text(v, c, d, rt)|))
  {
    StringValue(v.s, s, i);
  }

  lemma {:induction false} ArrayValue(es: seq<Value>, c: bool, d: nat, rt: LongDouble -> string, s: string, i: nat)
    requires Serializable(Array(es)) && Occurs(s, i, Text(Array(es), c, d, rt))
    ensures ParseValue(s, i) == Ok((Array(es), i + |Text(Array(es), c, d, rt)|))
    decreases Array(es), 3
  {
    OccursFirst(s, i, Text(Array(es), c, d, rt));
    ArrayText(es, c, d, rt, s, i);
    assert SkipWs(s, i) == i;
  }

  lemma {:induction false} ObjectValue(ms: seq<Member>, c: bool, d: nat, rt: LongDouble -> string, s: string, i: nat)
    requires Serializable(Object(ms)) && Occurs(s, i, Text(Object(ms), c, d, rt))
    ensures ParseValue(s, i) == Ok((Object(ms), i + |Text(Object(ms), c, d, rt)|))
    decreases Object(ms), 3
  {
    OccursFirst(s, i, Text(Object(ms), c, d, rt));
    ObjectText(ms, c, d, rt, s, i);
    assert SkipWs(s, i) == i;
  }

  /* ---------------- where the items of a container lie ---------------- */

  /** Where item `k` starts: after the opening character at `i`, the first
      `k` items and the comma before item `k`. */
  function ItemStart(i: nat, items: seq<string>, k: nat): nat
    requires k <= |items|
  {
    i + 1 + |Join(items[..k], ",")| + (if k > 0 then 1 else 0)
  }

  /** Where item `k` ends. */
  function ItemEnd(i: nat, items: seq<string>, k: nat): nat
    requires k < |items|
  {
    i + 1 + |Join(items[..k + 1], ",")|
  }

  /** The items of a container opened at `i` end at `ends[j]` and start
      at `starts[j]`: the first right after the opening character, every
      later one after the comma that ends the one before it; the last is
      followed by `w` and the closing character. */
  predicate Laid(s: string, i: nat, starts: seq<nat>, ends: seq<nat>, w: string, close: char)
  {
    0 < |starts| == |ends| && starts[0] == i + 1
    && (forall j :: 0 <= j < |ends| ==> ends[j] <= |s|)
    && (forall j {:trigger ends[j]} :: 0 <= j < |ends| - 1 ==> At(s, ends[j], ',') && starts[j + 1] == ends[j] + 1)
    && Occurs(s, ends[|ends| - 1], w + [close])
  }

  /** Item `j` lies in `s` from `starts[j]` to `ends[j]`, and what follows
      it cannot extend a number. */
  predicate ItemsAt(s: string, items: seq<string>, starts: seq<nat>, ends: seq<nat>)
  {
    |starts| == |ends| == |items|
    && forall j {:trigger items[j]} :: 0 <= j < |items| ==>
         Occurs(s, starts[j], items[j]) && ends[j] == starts[j] + |items[j]| && Ends(s, ends[j])
  }

  function ItemStarts(i: nat, items: seq<string>): (r: seq<nat>)
    ensures |r| == |items|
  {
    seq(|items|, j requires 0 <= j < |items| => ItemStart(i, items, j))
  }

  function ItemEnds(i: nat, items: seq<string>): (r: seq<nat>)
    ensures |r| == |items|
  {
    seq(|items|, j requires 0 <= j < |items| => ItemEnd(i, items, j))
  }

  /** Each item lies between its start and its end, and what follows it
      cannot extend a number. */
  lemma {:induction false} ItemsOccur(s: string, i: nat, items: seq<string>, tail: string)
    requires Occurs(s, i + 1, Join(items, ",") + tail)
    requires |tail| > 0 && (tail[0] == '\n' || tail[0] == ']' || tail[0] == '}')
    ensures forall j {:trigger items[j]} :: 0 <= j < |items| ==>
              Occurs(s, ItemStarts(i, items)[j], items[j])
              && ItemEnds(i, items)[j] == ItemStarts(i, items)[j] + |items[j]|
              && Ends(s, ItemEnds(i, items)[j])
  {
    forall j {:trigger items[j]} | 0 <= j < |items|
      ensures Occurs(s, ItemStarts(i, items)[j], items[j])
      ensures ItemEnds(i, items)[j] == ItemStarts(i, items)[j] + |items[j]|
      ensures Ends(s, ItemEnds(i, items)[j])
    {
      ItemAt(s, i + 1, items, tail, j);
      AfterItem(s, i + 1, items, tail, j);
    }
  }

  /** Item `k` ends inside the text; unless it is the last, a comma
      follows it and the next item starts after that comma. */
  lemma {:induction false} CommaAfter(s: string, i: nat, items: seq<string>, tail: string, k: nat)
    requires Occurs(s, i + 1, Join(items, ",") + tail) && k < |items|
    requires |tail| > 0 && (tail[0] == '\n' || tail[0] == ']' || tail[0] == '}')
    ensures ItemEnd(i, items, k) <= |s|
    ensures k + 1 < |items| ==> At(s, ItemEnd(i, items, k), ',') && ItemStart(i, items, k + 1) == ItemEnd(i, items, k) + 1
  {
    AfterItem(s, i + 1, items, tail, k);
  }

  /** Each item but the last is followed by a comma, and the next item
      starts after it. */
  lemma {:induction false} ItemsCommas(s: string, i: nat, items: seq<string>, tail: string)
    requires Occurs(s, i + 1, Join(items, ",") + tail)
    requires |tail| > 0 && (tail[0] == '\n' || tail[0] == ']' || tail[0] == '}')
    ensures forall j {:trigger ItemEnds(i, items)[j]} :: 0 <= j < |items| ==> ItemEnds(i, items)[j] <= |s|
    ensures forall j {:trigger ItemEnds(i, items)[j]} :: 0 <= j < |items| - 1 ==>
              At(s, ItemEnds(i, items)[j], ',') && ItemStarts(i, items)[j + 1] == ItemEnds(i, items)[j] + 1
  {
    var starts, ends := ItemStarts(i, items), ItemEnds(i, items);
    forall j {:trigger ends[j]} | 0 <= j < |items|
      ensures ends[j] <= |s|
    {
      CommaAfter(s, i, items, tail, j);
    }
    forall j {:trigger ends[j]} | 0 <= j < |items| - 1
      ensures At(s, ends[j], ',') && starts[j + 1] == ends[j] + 1
    {
      CommaAfter(s, i, items, tail, j);
    }
  }

  /** The layout of `Join(items, ",")` followed by `w` and `close`. */
  lemma {:induction false} ItemsLaid(s: string, i: nat, items: seq<string>, w: string, close: char)
    returns (starts: seq<nat>, ends: seq<nat>)
    requires Occurs(s, i + 1, Join(items, ",") + (w + [close])) && |items| > 0
    requires (w == [] && (close == ']' || close == '}')) || (w != [] && w[0] == '\n')
    ensures Laid(s, i, starts, ends, w, close) && |starts| == |items|
    ensures ItemsAt(s, items, starts, ends)
    ensures ends[|items| - 1] == i + 1 + |Join(items, ",")|
  {
    var tail := w + [close];
    starts, ends := ItemStarts(i, items), ItemEnds(i, items);
    ItemsOccur(s, i, items, tail);
    ItemsCommas(s, i, items, tail);
    AfterItem(s, i + 1, items, tail, |items| - 1);
    assert items[..|items|] == items;
  }

  /* ---------------- one step of each grammar rule ---------------- */

  /* ---------------- containers ---------------- */

  /** An element with its line break before it parses back; `parse_value`
      skips the line break. */
  lemma {:induction false} ItemValue(v: Value, c: bool, d: nat, rt: LongDouble -> string, s: string, start: nat, e: nat)
    requires Serializable(v)
    requires Occurs(s, start, Break(c, d) + Text(v, c, d, rt))
    requires e == start + |Break(c, d) + Text(v, c, d, rt)| && Ends(s, e)
    ensures start <= |s| && !At(s, SkipWs(s, start), ']')
    ensures ParseValue(s, start) == Ok((v, e))
    decreases v, 6
  {
    var p := ItemLayout(v, c, d, rt, s, start, e);
    ParseTextTo(v, c, d, rt, s, p, e);
    ValueAfterBreak(s, start, Break(c, d), p, v, e);
  }

  /** Where an element's text lies after its line break: the value's
      first character, which is neither whitespace nor ']', is at `p`. */
  lemma {:induction false} ItemLayout(v: Value, c: bool, d: nat, rt: LongDouble -> string, s: string, start: nat, e: nat)
    returns (p: nat)
    requires Serializable(v)
    requires Occurs(s, start, Break(c, d) + Text(v, c, d, rt))
    requires e == start + |Break(c, d) + Text(v, c, d, rt)| && Ends(s, e)
    ensures p == start + |Break(c, d)| && Solid(s, p) && s[p] != ']'
    ensures Spaces(Break(c, d)) && Occurs(s, start, Break(c, d))
    ensures Occurs(s, p, Text(v, c, d, rt)) && e == p + |Text(v, c, d, rt)|
  {
    var b := Break(c, d);
    var t := Text(v, c, d, rt);
    OccursSplit(s, start, b, t);
    TextStart(v, c, d, rt);
    OccursFirst(s, start + |b|, t);
    p := start + |b|;
  }

  /** `parse_value` skips the whitespace `b` before a value. */
  lemma {:induction false} ValueAfterBreak(s: string, start: nat, b: string, p: nat, v: Value, e: nat)
    requires Spaces(b) && Occurs(s, start, b) && p == start + |b| && Solid(s, p)
    requires ParseValue(s, p) == Ok((v, e))
    ensures SkipWs(s, start) == p && ParseValue(s, start) == Ok((v, e))
  {
    SkipWsOver(s, start, b);
  }

  /** Whitespace `b` in front of `rest` is what `std::ws` skips. */
  lemma {:induction false} LineBreak(s: string, start: nat, b: string, rest: string)
    requires Spaces(b) && |rest| > 0 && !IsSpace(rest[0]) && Occurs(s, start, b + rest)
    ensures SkipWs(s, start) == start + |b| && Occurs(s, start + |b|, rest)
    ensures s[start + |b|] == rest[0]
  {
    OccursSplit(s, start, b, rest);
    OccursFirst(s, start + |b|, rest);
    SkipWsOver(s, start, b);
  }

  /** The head of a member's text: the quoted key, which `parse_string`
      reads back, the colon and the optional space. */
  lemma {:induction false} HeadLayout(key: string, c: bool, s: string, q: nat)
    requires Plain(key) && Occurs(s, q, MemberHead(key, c))
    ensures At(s, q, '"') && ParseString(s, q) == Ok((key, q + |key| + 2))
    ensures At(s, q + |key| + 2, ':') && Occurs(s, q + |key| + 3, IfNotCompact(c, " "))
    ensures |MemberHead(key, c)| == |key| + 3 + |IfNotCompact(c, " ")|
  {
    var sp := IfNotCompact(c, " ");
    OccursSplit(s, q, "\"" + key + "\":", sp);
    OccursSplit(s, q, "\"" + key, "\":");
    OccursRest(s, q + 1 + |key|, "\":");
    OccursFirst(s, q + 1 + |key| + 1, "\":"[1..]);
    OccursSplit(s, q, "\"", key);
    OccursFirst(s, q, "\"");
    StringCharsPlain(s, q + 1, "", key);
    assert "" + key == key;
  }

  /** Where the head of a member's text lies: the quoted key, which
      `parse_string` reads back, the colon, and the optional space, which
      `std::ws` skips up to the value's first character. */
  lemma {:induction false} KeyLayout(key: string, c: bool, s: string, q: nat)
    requires Plain(key) && Occurs(s, q, MemberHead(key, c)) && Solid(s, q + |MemberHead(key, c)|)
    ensures KeyAt(s, q, key, q + |MemberHead(key, c)|)
  {
    HeadLayout(key, c, s, q);
    SkipWsOver(s, q + |key| + 3, IfNotCompact(c, " "));
  }

  /** The line break before a member's head is skipped, the head is read,
      and the value's text at `v0` parses back up to `e`. */
  lemma {:induction false} MemberLayout(key: string, val: Value, c: bool, d: nat, rt: LongDouble -> string,
                                        s: string, start: nat, q: nat, v0: nat, e: nat)
    requires Plain(key) && Serializable(val)
    requires Occurs(s, start, Break(c, d)) && q == start + |Break(c, d)| && Occurs(s, q, MemberHead(key, c))
    requires v0 == q + |MemberHead(key, c)| && Occurs(s, v0, Text(val, c, d, rt))
    requires e == v0 + |Text(val, c, d, rt)| && Ends(s, e)
    ensures MemberReadAt(s, start, q, key, val, e)
    decreases val, 6
  {
    TextSolid(val, c, d, rt, s, v0);
    ParseTextTo(val, c, d, rt, s, v0, e);
    HeadRead(key, c, Break(c, d), s, start, q, v0, val, e);
  }

  /** The line break `b` before a member's head is skipped, and the member
      is read from the head on, given the value read at `v0`. */
  lemma {:induction false} HeadRead(key: string, c: bool, b: string, s: string, start: nat, q: nat, v0: nat,
                                    val: Value, e: nat)
    requires Plain(key) && Spaces(b) && Occurs(s, start, b) && q == start + |b| && Occurs(s, q, MemberHead(key, c))
    requires v0 == q + |MemberHead(key, c)| && Solid(s, v0) && ParseValue(s, v0) == Ok((val, e))
    ensures MemberReadAt(s, start, q, key, val, e)
  {
    KeyLayout(key, c, s, q);
    SkipWsOver(s, start, b);
    MemberStep(s, start, q, key, v0, val, e);
  }

  /** A member with its line break before it parses back: the line break
      is skipped, then `"key":`, the optional space and the value are read. */
  lemma {:induction false} MemberValue(key: string, val: Value, c: bool, d: nat, rt: LongDouble -> string,
                                       s: string, start: nat, e: nat)
    requires Plain(key) && Serializable(val)
    requires Occurs(s, start, Break(c, d) + MemberHead(key, c) + Text(val, c, d, rt))
    requires e == start + |Break(c, d)| + |MemberHead(key, c)| + |Text(val, c, d, rt)| && Ends(s, e)
    ensures MemberReadAt(s, start, start + |Break(c, d)|, key, val, e)
    decreases val, 7
  {
    OccursFront(s, start, Break(c, d), MemberHead(key, c), Text(val, c, d, rt));
    OccursLast(s, start, Break(c, d), MemberHead(key, c), Text(val, c, d, rt));
    MemberLayout(key, val, c, d, rt, s, start, start + |Break(c, d)|,
                 start + |Break(c, d)| + |MemberHead(key, c)|, e);
  }

  /** A value's text begins with a character other than whitespace. */
  lemma {:induction false} TextSolid(v: Value, c: bool, d: nat, rt: LongDouble -> string, s: string, i: nat)
    requires Serializable(v) && Occurs(s, i, Text(v, c, d, rt))
    ensures Solid(s, i)
  {
    TextStart(v, c, d, rt);
    OccursFirst(s, i, Text(v, c, d, rt));
  }

  /** ParseText with the end position given by the caller. */
  lemma {:induction false} ParseTextTo(v: Value, c: bool, d: nat, rt: LongDouble -> string, s: string, i: nat, e: nat)
    requires Serializable(v)
    requires Occurs(s, i, Text(v, c, d, rt)) && e == i + |Text(v, c, d, rt)| && Ends(s, e)
    ensures ParseValue(s, i) == Ok((v, e))
    decreases v, 5
  {
    ParseText(v, c, d, rt, s, i);
    SameEnd(ParseValue(s, i), v, i + |Text(v, c, d, rt)|, e);
  }

  /** Restates where a value read ends, so that callers need not rewrite
      the end position inside the result. */
  lemma SameEnd(r: Result<(Value, nat)>, v: Value, n: nat, e: nat)
    requires r == Ok((v, n)) && e == n
    ensures r == Ok((v, e))
  {
  }

  /** Element `j` of `es` is what `parse_value` reads from `starts[j]`, up
      to `ends[j]`. */
  predicate ElementsBack(s: string, starts: seq<nat>, ends: seq<nat>, es: seq<Value>)
  {
    |starts| == |ends| == |es|
    && forall j {:trigger ParseValue(s, starts[j])} :: 0 <= j < |es| ==>
         starts[j] <= |s| && ParseValue(s, starts[j]) == Ok((es[j], ends[j]))
  }

  /** Member `j` of `ms` is what the member loop of `parse_object` reads
      from `heads[j]`, the position `std::ws` reaches from `starts[j]`; the
      member ends at `ends[j]`. */
  predicate MembersBack(s: string, starts: seq<nat>, ends: seq<nat>, heads: seq<nat>, ms: seq<Member>)
  {
    |starts| == |ends| == |heads| == |ms|
    && forall j {:trigger heads[j]} :: 0 <= j < |ms| ==>
         MemberReadAt(s, starts[j], heads[j], ms[j].key, ms[j].val, ends[j])
  }

  /** Every element of an array's text parses back where it lies. */
  lemma {:induction false} ElementValues(es: seq<Value>, c: bool, d: nat, rt: LongDouble -> string,
                                         s: string, items: seq<string>, starts: seq<nat>, ends: seq<nat>)
    requires Serializable(Array(es)) && items == ArrayItems(es, c, d, rt) && |starts| == |ends| == |es| > 0
    requires ItemsAt(s, items, starts, ends)
    ensures ElementsBack(s, starts, ends, es)
    ensures starts[0] <= |s| && !At(s, SkipWs(s, starts[0]), ']')
    decreases Array(es), 0
  {
    forall j | 0 <= j < |es|
      ensures starts[j] <= |s| && ParseValue(s, starts[j]) == Ok((es[j], ends[j]))
      ensures j == 0 ==> starts[0] <= |s| && !At(s, SkipWs(s, starts[0]), ']')
    {
      assert items[j] == Break(c, d + 1) + Text(es[j], c, d + 1, rt);
      ItemValue(es[j], c, d + 1, rt, s, starts[j], ends[j]);
    }
  }

  /** An array's text parses back: '[', the elements, the line break and ']'. */
  lemma {:induction false} ArrayText(es: seq<Value>, c: bool, d: nat, rt: LongDouble -> string, s: string, i: nat)
    requires Serializable(Array(es)) && Occurs(s, i, Text(Array(es), c, d, rt))
    ensures ParseArray(s, i) == Ok((Array(es), i + |Text(Array(es), c, d, rt)|))
    decreases Array(es), 2
  {
    ArrayShape(es, c, d, rt);
    if |es| == 0 {
      ArrayEmptyText(es, c, d, rt, s, i);
    } else {
      ArrayItemsText(es, c, d, rt, s, i);
    }
  }

  lemma {:induction false} ArrayShape(es: seq<Value>, c: bool, d: nat, rt: LongDouble -> string)
    ensures Text(Array(es), c, d, rt) == "[" + (Join(ArrayItems(es, c, d, rt), ",") + (Break(c, d) + "]"))
  {
  }

  /** The text of an array without elements: '[', whitespace and ']'. */
  lemma {:induction false} ArrayEmptyText(es: seq<Value>, c: bool, d: nat, rt: LongDouble -> string, s: string, i: nat)
    requires |es| == 0 && Occurs(s, i, "[" + (Join(ArrayItems(es, c, d, rt), ",") + (Break(c, d) + "]")))
    ensures ParseArray(s, i) == Ok((Array(es), i + |"[" + (Join(ArrayItems(es, c, d, rt), ",") + (Break(c, d) + "]"))|))
  {
    var w := Break(c, d);
    OccursSplit(s, i, "[", Join(ArrayItems(es, c, d, rt), ",") + (w + "]"));
    OccursFirst(s, i, "[");
    assert Join(ArrayItems(es, c, d, rt), ",") + (w + "]") == w + "]";
    OccursSplit(s, i + 1, w, "]");
    OccursFirst(s, i + 1 + |w|, "]");
    SkipWsOver(s, i + 1, w);
    ArrayEmpty(s, i);
    assert es == [];
  }

  /** The text of an array with elements. */
  lemma {:induction false} ArrayItemsText(es: seq<Value>, c: bool, d: nat, rt: LongDouble -> string, s: string, i: nat)
    requires Serializable(Array(es)) && |es| > 0 && Occurs(s, i, "[" + (Join(ArrayItems(es, c, d, rt), ",") + (Break(c, d) + "]")))
    ensures ParseArray(s, i) == Ok((Array(es), i + |"[" + (Join(ArrayItems(es, c, d, rt), ",") + (Break(c, d) + "]"))|))
    decreases Array(es), 1
  {
    var items := ArrayItems(es, c, d, rt);
    OccursSplit(s, i, "[", Join(items, ",") + (Break(c, d) + "]"));
    OccursFirst(s, i, "[");
    var starts, ends := ItemsLaid(s, i, items, Break(c, d), ']');
    ElementValues(es, c, d, rt, s, items, starts, ends);
    var e := i + |"[" + (Join(items, ",") + (Break(c, d) + "]"))|;
    assert e == ends[|es| - 1] + |Break(c, d)| + 1;
    ArrayParse(s, i, starts, ends, es, Break(c, d), e);
  }

  /** `parse_array` over laid-out elements that each parse back. */
  lemma {:induction false} ArrayParse(s: string, i: nat, starts: seq<nat>, ends: seq<nat>, es: seq<Value>, w: string, e: nat)
    requires At(s, i, '[') && Laid(s, i, starts, ends, w, ']') && |ends| == |es| && Spaces(w)
    requires ElementsBack(s, starts, ends, es)
    requires starts[0] <= |s| && !At(s, SkipWs(s, starts[0]), ']')
    requires e == ends[|es| - 1] + |w| + 1
    ensures ParseArray(s, i) == Ok((Array(es), e))
  {
    assert ParseValue(s, starts[0]) == Ok((es[0], ends[0]));
    ArrayFirst(s, i, es[0], ends[0]);
    ElementsParse(s, i, starts, ends, es, w, 1);
    assert es[..1] == [es[0]];
  }

  /** A comma and an element continue the loop of `parse_array`. */
  lemma {:induction false} ElementsNext(s: string, e: nat, p: nat, acc: seq<Value>, v: Value, e2: nat)
    requires At(s, e, ',') && p == e + 1 && ParseValue(s, p) == Ok((v, e2))
    ensures ArrayElements(s, SkipWs(s, e), acc) == ArrayElements(s, SkipWs(s, e2), acc + [v])
  {
    assert SkipWs(s, e) == e;
  }

  /** The closing line break and bracket end the loop of `parse_array`. */
  lemma {:induction false} ElementsLast(s: string, e: nat, w: string, acc: seq<Value>)
    requires Spaces(w) && Occurs(s, e, w + "]")
    ensures ArrayElements(s, SkipWs(s, e), acc) == Ok((Array(acc), e + |w| + 1))
  {
    LineBreak(s, e, w, "]");
    ArrayEnd(s, e + |w|, acc);
  }

  /** Element `k` read after the comma that ends element `k - 1`. */
  lemma {:induction false} ElementsStep(s: string, i: nat, starts: seq<nat>, ends: seq<nat>, es: seq<Value>, w: string, k: nat)
    requires Laid(s, i, starts, ends, w, ']') && |ends| == |es| && 0 < k < |es|
    requires ElementsBack(s, starts, ends, es)
    ensures ArrayElements(s, SkipWs(s, ends[k - 1]), es[..k]) == ArrayElements(s, SkipWs(s, ends[k]), es[..k + 1])
  {
    ElementAfterComma(s, i, starts, ends, es, w, k);
    ElementsNext(s, ends[k - 1], starts[k], es[..k], es[k], ends[k]);
    TakeNext(es, k);
  }

  /** Element `k` follows the comma after element `k - 1`. */
  lemma {:induction false} ElementAfterComma(s: string, i: nat, starts: seq<nat>, ends: seq<nat>, es: seq<Value>, w: string, k: nat)
    requires Laid(s, i, starts, ends, w, ']') && |ends| == |es| && 0 < k < |es|
    requires ElementsBack(s, starts, ends, es)
    ensures At(s, ends[k - 1], ',') && starts[k] == ends[k - 1] + 1
    ensures ParseValue(s, starts[k]) == Ok((es[k], ends[k]))
  {
    assert At(s, ends[k - 1], ',') && starts[k] == ends[k - 1] + 1;
  }

  lemma {:induction false} TakeNext<T>(xs: seq<T>, k: nat)
    requires k < |xs|
    ensures xs[..k] + [xs[k]] == xs[..k + 1]
  {
  }

  /** The comma loop of `parse_array` after element `k - 1`, given that
      every element parses back where it lies. */
  lemma {:induction false} ElementsParse(s: string, i: nat, starts: seq<nat>, ends: seq<nat>, es: seq<Value>, w: string, k: nat)
    requires Laid(s, i, starts, ends, w, ']') && |ends| == |es| && 0 < k <= |es| && Spaces(w)
    requires ElementsBack(s, starts, ends, es)
    ensures ArrayElements(s, SkipWs(s, ends[k - 1]), es[..k]) == Ok((Array(es), ends[|es| - 1] + |w| + 1))
    decreases |es| - k
  {
    if k < |es| {
      ElementsStep(s, i, starts, ends, es, w, k);
      ElementsParse(s, i, starts, ends, es, w, k + 1);
    } else {
      assert es[..k] == es;
      ElementsLast(s, ends[k - 1], w, es);
    }
  }

  /** Every member of an object's text parses back where it lies: from
      `starts[j]`, `std::ws` reaches its key's quote at `heads[j]`, and the
      member read from there ends at `ends[j]`. */
  lemma {:induction false} MemberValues(ms: seq<Member>, c: bool, d: nat, rt: LongDouble -> string,
                                        s: string, items: seq<string>, starts: seq<nat>, ends: seq<nat>)
    returns (heads: seq<nat>)
    requires Serializable(Object(ms)) && items == ObjectItems(ms, c, d, rt) && |starts| == |ends| == |ms| > 0
    requires ItemsAt(s, items, starts, ends)
    ensures MembersBack(s, starts, ends, heads, ms)
    decreases Object(ms), 0
  {
    var indent := |Break(c, d + 1)|;
    heads := seq(|ms|, j requires 0 <= j < |ms| => starts[j] + indent);
    forall j | 0 <= j < |ms|
      ensures MemberReadAt(s, starts[j], heads[j], ms[j].key, ms[j].val, ends[j])
    {
      assert items[j] == Break(c, d + 1) + MemberHead(ms[j].key, c) + Text(ms[j].val, c, d + 1, rt);
      MemberValue(ms[j].key, ms[j].val, c, d + 1, rt, s, starts[j], ends[j]);
    }
  }

  /** An object's text parses back: '{', the members, the line break and '}'. */
  lemma {:induction false} ObjectText(ms: seq<Member>, c: bool, d: nat, rt: LongDouble -> string, s: string, i: nat)
    requires Serializable(Object(ms)) && Occurs(s, i, Text(Object(ms), c, d, rt))
    ensures ParseObject(s, i) == Ok((Object(ms), i + |Text(Object(ms), c, d, rt)|))
    decreases Object(ms), 2
  {
    ObjectShape(ms, c, d, rt);
    if |ms| == 0 {
      ObjectEmptyText(ms, c, d, rt, s, i);
    } else {
      ObjectItemsText(ms, c, d, rt, s, i);
    }
  }

  lemma {:induction false} ObjectShape(ms: seq<Member>, c: bool, d: nat, rt: LongDouble -> string)
    ensures Text(Object(ms), c, d, rt) == "{" + (Join(ObjectItems(ms, c, d, rt), ",") + (Break(c, d) + "}"))
  {
  }

  /** The text of an object without members: '{', whitespace and '}'. */
  lemma {:induction false} ObjectEmptyText(ms: seq<Member>, c: bool, d: nat, rt: LongDouble -> string, s: string, i: nat)
    requires |ms| == 0 && Occurs(s, i, "{" + (Join(ObjectItems(ms, c, d, rt), ",") + (Break(c, d) + "}")))
    ensures ParseObject(s, i) == Ok((Object(ms), i + |"{" + (Join(ObjectItems(ms, c, d, rt), ",") + (Break(c, d) + "}"))|))
  {
    var w := Break(c, d);
    OccursSplit(s, i, "{", Join(ObjectItems(ms, c, d, rt), ",") + (w + "}"));
    OccursFirst(s, i, "{");
    assert Join(ObjectItems(ms, c, d, rt), ",") + (w + "}") == w + "}";
    OccursSplit(s, i + 1, w, "}");
    OccursFirst(s, i + 1 + |w|, "}");
    SkipWsOver(s, i + 1, w);
    ObjectEmpty(s, i);
    assert ms == [];
  }

  /** The text of an object with members. */
  lemma {:induction false} ObjectItemsText(ms: seq<Member>, c: bool, d: nat, rt: LongDouble -> string, s: string, i: nat)
    requires Serializable(Object(ms)) && |ms| > 0 && Occurs(s, i, "{" + (Join(ObjectItems(ms, c, d, rt), ",") + (Break(c, d) + "}")))
    ensures ParseObject(s, i) == Ok((Object(ms), i + |"{" + (Join(ObjectItems(ms, c, d, rt), ",") + (Break(c, d) + "}"))|))
    decreases Object(ms), 1
  {
    var items := ObjectItems(ms, c, d, rt);
    OccursSplit(s, i, "{", Join(items, ",") + (Break(c, d) + "}"));
    OccursFirst(s, i, "{");
    var starts, ends := ItemsLaid(s, i, items, Break(c, d), '}');
    var heads := MemberValues(ms, c, d, rt, s, items, starts, ends);
    var e := i + |"{" + (Join(items, ",") + (Break(c, d) + "}"))|;
    assert e == ends[|ms| - 1] + |Break(c, d)| + 1;
    ObjectParse(s, i, starts, ends, heads, ms, Break(c, d), e);
  }

  /** `parse_object` over laid-out members that each parse back. */
  lemma {:induction false} ObjectParse(s: string, i: nat, starts: seq<nat>, ends: seq<nat>, heads: seq<nat>,
                                       ms: seq<Member>, w: string, e: nat)
    requires At(s, i, '{') && Laid(s, i, starts, ends, w, '}') && |ends| == |heads| == |ms| && Spaces(w)
    requires DistinctKeys(ms)
    requires MembersBack(s, starts, ends, heads, ms)
    requires e == ends[|ms| - 1] + |w| + 1
    ensures ParseObject(s, i) == Ok((Object(ms), e))
  {
    assert SkipWs(s, i + 1) == heads[0] && At(s, heads[0], '"');
    ObjectFirst(s, i);
    MembersParse(s, i, starts, ends, heads, ms, w, 0);
  }

  /** A member followed by a comma continues the loop of `parse_object`. */
  lemma {:induction false} MembersNext(s: string, q: nat, acc: seq<Member>, key: string, v: Value, e: nat)
    requires q <= |s| && e <= |s| && ParseMember(s, q) == Ok((key, v, SkipWs(s, e))) && At(s, e, ',')
    ensures ObjectMembers(s, q, acc) == ObjectMembers(s, SkipWs(s, e + 1), Put(acc, key, v))
  {
    assert SkipWs(s, e) == e;
    ObjectMembersStep(s, q, acc, key, v, e);
  }

  /** A member followed by the closing line break and brace ends the loop
      of `parse_object`. */
  lemma {:induction false} MembersLast(s: string, q: nat, acc: seq<Member>, key: string, v: Value, e: nat, w: string)
    requires q <= |s| && Spaces(w) && Occurs(s, e, w + "}") && ParseMember(s, q) == Ok((key, v, SkipWs(s, e)))
    ensures ObjectMembers(s, q, acc) == Ok((Object(Put(acc, key, v)), e + |w| + 1))
  {
    LineBreak(s, e, w, "}");
    ObjectMembersStep(s, q, acc, key, v, e + |w|);
    ObjectEnd(s, e + |w|, Put(acc, key, v));
  }

  /** The member loop of `parse_object` from member `k`, with the members
      before it stored, given that every member parses back where it lies. */
  lemma {:induction false} MembersParse(s: string, i: nat, starts: seq<nat>, ends: seq<nat>, heads: seq<nat>,
                                        ms: seq<Member>, w: string, k: nat)
    requires Laid(s, i, starts, ends, w, '}') && |ends| == |heads| == |ms| && k < |ms| && Spaces(w) && DistinctKeys(ms)
    requires MembersBack(s, starts, ends, heads, ms)
    ensures ObjectMembers(s, heads[k], ms[..k]) == Ok((Object(ms), ends[|ms| - 1] + |w| + 1))
    decreases |ms| - k
  {
    if k + 1 < |ms| {
      MembersStep(s, i, starts, ends, heads, ms, w, k);
      MembersParse(s, i, starts, ends, heads, ms, w, k + 1);
    } else {
      MembersEnd(s, i, starts, ends, heads, ms, w);
    }
  }

  /** Member `k` stored, then the loop goes on at member `k + 1`. */
  lemma {:induction false} MembersStep(s: string, i: nat, starts: seq<nat>, ends: seq<nat>, heads: seq<nat>,
                                       ms: seq<Member>, w: string, k: nat)
    requires Laid(s, i, starts, ends, w, '}') && |ends| == |heads| == |ms| && k + 1 < |ms| && DistinctKeys(ms)
    requires MembersBack(s, starts, ends, heads, ms)
    ensures ObjectMembers(s, heads[k], ms[..k]) == ObjectMembers(s, heads[k + 1], ms[..k + 1])
  {
    assert ParseMember(s, heads[k]) == Ok((ms[k].key, ms[k].val, SkipWs(s, ends[k])));
    PutNext(ms, k);
    assert At(s, ends[k], ',') && starts[k + 1] == ends[k] + 1;
    assert SkipWs(s, starts[k + 1]) == heads[k + 1];
    MembersNext(s, heads[k], ms[..k], ms[k].key, ms[k].val, ends[k]);
  }

  /** The last member stored, then the closing line break and brace. */
  lemma {:induction false} MembersEnd(s: string, i: nat, starts: seq<nat>, ends: seq<nat>, heads: seq<nat>,
                                      ms: seq<Member>, w: string)
    requires Laid(s, i, starts, ends, w, '}') && |ends| == |heads| == |ms| && Spaces(w) && DistinctKeys(ms)
    requires MembersBack(s, starts, ends, heads, ms)
    ensures ObjectMembers(s, heads[|ms| - 1], ms[..|ms| - 1]) == Ok((Object(ms), ends[|ms| - 1] + |w| + 1))
  {
    var k := |ms| - 1;
    assert ParseMember(s, heads[k]) == Ok((ms[k].key, ms[k].val, SkipWs(s, ends[k])));
    PutNext(ms, k);
    assert ms[..k + 1] == ms;
    MembersLast(s, heads[k], ms[..k], ms[k].key, ms[k].val, ends[k], w);
  }

  /** With unique keys, storing member `k` after the members before it
      appends it. */
  lemma {:induction false} PutNext(ms: seq<Member>, k: nat)
    requires DistinctKeys(ms) && k < |ms|
    ensures Put(ms[..k], ms[k].key, ms[k].val) == ms[..k + 1]
  {
    KeyIsNew(ms, k);
    PutAppends(ms[..k], ms[k].key, ms[k].val);
    assert ms[..k] + [Member(ms[k].key, ms[k].val)] == ms[..k + 1];
  }

  /** With unique keys, member `k`'s key is not among the members before it. */
  lemma {:induction false} KeyIsNew(ms: seq<Member>, k: nat)
    requires DistinctKeys(ms) && k < |ms|
    ensures ms[k].key !in KeySet(ms[..k])
  {
    forall m | m in ms[..k] ensures m.key != ms[k].key {
      var j :| 0 <= j < k && ms[..k][j] == m;
      assert ms[j] == m;
    }
  }

  /** `JSON::parse(to_string(compact))` gives the value back. */
  lemma {:induction false} RoundTrip(v: Value, compact: bool, rt: LongDouble -> string)
    requires Serializable(v)
    ensures Parse(Text(v, compact, 0, rt)) == Ok(v)
  {
    var s := Text(v, compact, 0, rt);
    assert s[0..|s|] == s;
    ParseText(v, compact, 0, rt, s, 0);
  }
}
