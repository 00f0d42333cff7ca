/** What `to_string` writes: empty containers, the compact layout (which
    does not depend on the nesting level), the indented layout, and the
    strings it writes without escaping, which do not read back as
    themselves. */
module SerializerProperties {
  import opened JsonValue
  import opened ParserSpec
  import opened Serializer
  import opened RoundTrip
  import opened ParserProperties

  /** An empty container is `[]` or `{}` in compact mode, and otherwise
      the opener, a line break with `depth` tabs, and the closer. */
  lemma {:induction false} EmptyContainers(compact: bool, depth: nat, rt: LongDouble -> string)
    ensures Text(Array([]), compact, depth, rt) == if compact then "[]" else "[\n" + Tabs(depth) + "]"
    ensures Text(Object([]), compact, depth, rt) == if compact then "{}" else "{\n" + Tabs(depth) + "}"
  {
    assert ArrayItems([], compact, depth, rt) == [];
    assert ObjectItems([], compact, depth, rt) == [];
  }

  /** The compact text of a value is the same at every nesting level. */
  lemma {:induction false} CompactDepth(v: Value, depth: nat, rt: LongDouble -> string)
    ensures Text(v, true, depth, rt) == Text(v, true, 0, rt)
    decreases v
  {
    match v
    case Array(es) =>
      forall k | 0 <= k < |es|
        ensures ArrayItems(es, true, depth, rt)[k] == ArrayItems(es, true, 0, rt)[k]
      {
        CompactDepth(es[k], depth + 1, rt);
        CompactDepth(es[k], 1, rt);
      }
      assert ArrayItems(es, true, depth, rt) == ArrayItems(es, true, 0, rt);
    case Object(ms) =>
      forall k | 0 <= k < |ms|
        ensures ObjectItems(ms, true, depth, rt)[k] == ObjectItems(ms, true, 0, rt)[k]
      {
        CompactDepth(ms[k].val, depth + 1, rt);
        CompactDepth(ms[k].val, 1, rt);
      }
      assert ObjectItems(ms, true, depth, rt) == ObjectItems(ms, true, 0, rt);
    case _ =>
  }

  /** The compact texts of the elements of `es`. */
  function CompactTexts(es: seq<Value>, rt: LongDouble -> string): (texts: seq<string>)
    ensures |texts| == |es|
    ensures forall k :: 0 <= k < |es| ==> texts[k] == Text(es[k], true, 0, rt)
  {
    seq(|es|, k requires 0 <= k < |es| => Text(es[k], true, 0, rt))
  }

  /** Compact array text: `[a,b,c]`, each element written as it would be
      on its own. */
  lemma {:induction false} CompactArray(es: seq<Value>, depth: nat, rt: LongDouble -> string)
    ensures Text(Array(es), true, depth, rt) == "[" + Join(CompactTexts(es, rt), ",") + "]"
  {
    forall k | 0 <= k < |es|
      ensures ArrayItems(es, true, depth, rt)[k] == CompactTexts(es, rt)[k]
    {
      CompactDepth(es[k], depth + 1, rt);
    }
    assert ArrayItems(es, true, depth, rt) == CompactTexts(es, rt);
  }

  /** The compact member texts `"key":value` of `ms`. */
  function CompactMembers(ms: seq<Member>, rt: LongDouble -> string): (texts: seq<string>)
    ensures |texts| == |ms|
    ensures forall k :: 0 <= k < |ms| ==> texts[k] == "\"" + ms[k].key + "\":" + Text(ms[k].val, true, 0, rt)
  {
    seq(|ms|, k requires 0 <= k < |ms| => "\"" + ms[k].key + "\":" + Text(ms[k].val, true, 0, rt))
  }

  /** Compact object text: `{"k":v,...}`, with no space after the colon. */
  lemma {:induction false} CompactObject(ms: seq<Member>, depth: nat, rt: LongDouble -> string)
    ensures Text(Object(ms), true, depth, rt) == "{" + Join(CompactMembers(ms, rt), ",") + "}"
  {
    forall k | 0 <= k < |ms|
      ensures ObjectItems(ms, true, depth, rt)[k] == CompactMembers(ms, rt)[k]
    {
      CompactDepth(ms[k].val, depth + 1, rt);
    }
    assert ObjectItems(ms, true, depth, rt) == CompactMembers(ms, rt);
  }

  /** The indented element texts of `es` at level `depth`: each on a line of
      its own, `depth + 1` tabs in, written as it would be at that level. */
  function IndentedTexts(es: seq<Value>, depth: nat, rt: LongDouble -> string): (texts: seq<string>)
    ensures |texts| == |es|
    ensures forall k :: 0 <= k < |es| ==> texts[k] == "\n" + Tabs(depth + 1) + Text(es[k], false, depth + 1, rt)
  {
    seq(|es|, k requires 0 <= k < |es| => "\n" + Tabs(depth + 1) + Text(es[k], false, depth + 1, rt))
  }

  /** Indented array text: each element on a new line one tab deeper, and
      the ']' on a line of its own at the array's own indentation. */
  lemma {:induction false} IndentedArray(es: seq<Value>, depth: nat, rt: LongDouble -> string)
    ensures Text(Array(es), false, depth, rt) == "[" + Join(IndentedTexts(es, depth, rt), ",") + "\n" + Tabs(depth) + "]"
  {
    assert ArrayItems(es, false, depth, rt) == IndentedTexts(es, depth, rt);
  }

  /** The indented member texts `"key": value` of `ms` at level `depth`,
      each on a line of its own, `depth + 1` tabs in. */
  function IndentedMembers(ms: seq<Member>, depth: nat, rt: LongDouble -> string): (texts: seq<string>)
    ensures |texts| == |ms|
    ensures forall k :: 0 <= k < |ms| ==>
      texts[k] == "\n" + Tabs(depth + 1) + "\"" + ms[k].key + "\": " + Text(ms[k].val, false, depth + 1, rt)
  {
    seq(|ms|, k requires 0 <= k < |ms| =>
      "\n" + Tabs(depth + 1) + "\"" + ms[k].key + "\": " + Text(ms[k].val, false, depth + 1, rt))
  }

  /** Indented object text: each member on a new line one tab deeper, a
      space after each colon, and the '}' on a line of its own. */
  lemma {:induction false} IndentedObject(ms: seq<Member>, depth: nat, rt: LongDouble -> string)
    ensures Text(Object(ms), false, depth, rt) == "{" + Join(IndentedMembers(ms, depth, rt), ",") + "\n" + Tabs(depth) + "}"
  {
    forall k | 0 <= k < |ms|
      ensures ObjectItems(ms, false, depth, rt)[k] == IndentedMembers(ms, depth, rt)[k]
    {
      var head := "\"" + ms[k].key + "\":";
      assert MemberHead(ms[k].key, false) == head + " ";
      assert "\n" + Tabs(depth + 1) + (head + " ") == "\n" + Tabs(depth + 1) + "\"" + ms[k].key + "\": ";
    }
    assert ObjectItems(ms, false, depth, rt) == IndentedMembers(ms, depth, rt);
  }

  /** A string holding '"' is written unescaped, so the parser ends the
      string early and finds residual data. */
  lemma {:induction false} QuoteNotEscaped(compact: bool, rt: LongDouble -> string)
    ensures Text(String("\""), compact, 0, rt) == "\"\"\""
    ensures Parse("\"\"\"") == Err(Syntax(ResidualData))
  {
  }

  /** A string holding a lone '\' is written unescaped, so the parser
      reads it as an escape of the closing quote and misses the end of the
      string. */
  lemma {:induction false} BackslashNotEscaped(compact: bool, rt: LongDouble -> string)
    ensures Text(String("\\"), compact, 0, rt) == "\"\\\""
    ensures Parse("\"\\\"") == Err(Syntax(ExpectedQuote))
  {
  }

  /** A string holding '\' and 'n' is written as is and read back as a
      newline: a different value. */
  lemma {:induction false} EscapeReadBack(compact: bool, rt: LongDouble -> string)
    ensures Text(String("\\n"), compact, 0, rt) == "\"\\n\""
    ensures Parse("\"\\n\"") == Ok(String("\n"))
  {
    assert Plain("");
    EscapeInString("", 'n', "");
    assert "\"" + "" + "\\" + ['n'] + "" + "\"" == "\"\\n\"";
    assert "" + Unescape('n') + "" == "\n";
  }
}
