/** `JSON::to_string` and `m_to_string`: the text of a value, compact or
    indented with one tab per nesting level. Text is the layout as a
    function (elements separated by commas); ToStringAt is the source's
    loop, which appends a comma after every element and pops the last one. */
module Serializer {
  import opened JsonValue
  import opened Lexical

  /** `std::string(n, '\t')`. */
  function Tabs(n: nat): (t: string)
    ensures |t| == n
    ensures forall k :: 0 <= k < n ==> t[k] == '\t'
  {
    if n == 0 then "" else Tabs(n - 1) + "\t"
  }

  /** `if_ncompact(str)`: nothing in compact mode, `str` otherwise. */
  function IfNotCompact(compact: bool, str: string): (t: string)
    ensures compact ==> t == ""
    ensures !compact ==> t == str
  {
    if compact then "" else str
  }

  /** The line break before an element at nesting level `depth`: a newline
      and `depth` tabs, or nothing in compact mode. */
  function Break(compact: bool, depth: nat): (t: string)
    ensures compact ==> t == ""
    ensures !compact ==> |t| == depth + 1 && t[0] == '\n'
    ensures forall k :: 0 <= k < |t| ==> IsSpace(t[k])
  {
    IfNotCompact(compact, "\n" + Tabs(depth))
  }

  /** `parts` separated by `sep`. */
  function Join(parts: seq<string>, sep: string): string
  {
    if |parts| == 0 then ""
    else if |parts| == 1 then parts[0]
    else Join(parts[..|parts| - 1], sep) + sep + parts[|parts| - 1]
  }

  /** The text of `v` at nesting level `depth`; Reals are written by
      `realText`, which stands for `std::to_string(long double)`. Strings
      and keys are written between quotes as they are, without escaping. */
  function Text(v: Value, compact: bool, depth: nat, realText: LongDouble -> string): string
    decreases v, 1
  {
    match v
    case Null => "null"
    case Bool(b) => if b then "true" else "false"
    case Real(x) => realText(x)
    case Integer(n) => IntToString(n)
    case String(t) => "\"" + t + "\""
    case Array(es) =>
      "[" + Join(ArrayItems(es, compact, depth, realText), ",") + Break(compact, depth) + "]"
    case Object(ms) =>
      "{" + Join(ObjectItems(ms, compact, depth, realText), ",") + Break(compact, depth) + "}"
  }

  /** The element texts of an array at level `depth`, each on its own line
      one level deeper. */
  function ArrayItems(es: seq<Value>, compact: bool, depth: nat, realText: LongDouble -> string)
    : (items: seq<string>)
    ensures |items| == |es|
    decreases Array(es), 0
  {
    seq(|es|, k requires 0 <= k < |es| => Break(compact, depth + 1) + Text(es[k], compact, depth + 1, realText))
  }

  /** The member texts of an object at level `depth`: `"key":`, a space
      unless compact, and the value. */
  function ObjectItems(ms: seq<Member>, compact: bool, depth: nat, realText: LongDouble -> string)
    : (items: seq<string>)
    ensures |items| == |ms|
    decreases Object(ms), 0
  {
    seq(|ms|, k requires 0 <= k < |ms| =>
      Break(compact, depth + 1) + MemberHead(ms[k].key, compact) + Text(ms[k].val, compact, depth + 1, realText))
  }

  /** `'"' + key + "\":" + if_ncompact(" ")`. */
  function MemberHead(key: string, compact: bool): string
  {
    "\"" + key + "\":" + IfNotCompact(compact, " ")
  }

  /** Joining one element more adds a separator, unless it is the first,
      and the element. */
  lemma {:induction false} JoinSnoc(parts: seq<string>, k: nat)
    requires k < |parts|
    ensures Join(parts[..k + 1], ",") == Join(parts[..k], ",") + (if k > 0 then "," else "") + parts[k]
  {
    assert parts[..k + 1][..k] == parts[..k];
  }

  /** Appending element `k` and a comma to the joined first `k` elements
      and their trailing comma gives the joined first `k + 1` elements and
      a trailing comma. */
  lemma {:induction false} JoinStep(open: string, parts: seq<string>, k: nat)
    requires k < |parts|
    ensures open + Join(parts[..k], ",") + (if k > 0 then "," else "") + parts[k] + ","
         == open + Join(parts[..k + 1], ",") + ","
  {
    JoinSnoc(parts, k);
  }

  /** The text ends with a comma exactly when there are elements, and
      popping that comma leaves the joined elements. */
  lemma {:induction false} JoinPop(t: string, open: string, parts: seq<string>)
    requires |open| == 1 && open[0] != ','
    requires t == open + Join(parts, ",") + (if |parts| > 0 then "," else "")
    ensures t[|t| - 1] == ',' <==> |parts| > 0
    ensures |parts| > 0 ==> t[..|t| - 1] == open + Join(parts, ",")
  {
    var body := open + Join(parts, ",");
    if |parts| == 0 {
      assert t == open;
    } else {
      assert t == body + ",";
      assert t[..|t| - 1] == body;
    }
  }

  /** `m_to_string`: the scalar cases, and the container cases below. */
  method ToStringAt(v: Value, compact: bool, tabCount: nat, realText: LongDouble -> string)
    returns (result: string)
    ensures result == Text(v, compact, tabCount, realText)
    decreases v, 2
  {
    match v {
      case Null => result := "null";
      case Bool(b) => result := if b then "true" else "false";
      case Real(x) => result := realText(x);
      case Integer(n) => result := IntToString(n);
      case String(t) => result := "\"" + t + "\"";
      case Array(es) => result := ArrayToString(es, compact, tabCount, realText);
      case Object(ms) => result := ObjectToString(ms, compact, tabCount, realText);
    }
  }

  /** The Array case of `m_to_string`: the element loop, then `pop_back`
      of the trailing comma if there is one, then the closing line break and
      bracket. */
  method ArrayToString(es: seq<Value>, compact: bool, tabCount: nat, realText: LongDouble -> string)
    returns (result: string)
    ensures result == Text(Array(es), compact, tabCount, realText)
    decreases Array(es), 1
  {
    result := ArrayElementsText(es, compact, tabCount, realText);
    JoinPop(result, "[", ArrayItems(es, compact, tabCount, realText));
    if result[|result| - 1] == ',' {
      result := result[..|result| - 1];
    }
    result := result + IfNotCompact(compact, "\n" + Tabs(tabCount)) + "]";
  }

  /** The element loop of the Array case: '[', then per element one
      `result +=` of its line break, its text and a comma. */
  method ArrayElementsText(es: seq<Value>, compact: bool, tabCount: nat, realText: LongDouble -> string)
    returns (result: string)
    ensures var items := ArrayItems(es, compact, tabCount, realText);
            result == "[" + Join(items, ",") + (if |items| > 0 then "," else "")
    decreases Array(es), 0
  {
    ghost var items := ArrayItems(es, compact, tabCount, realText);
    result := "[";
    for k := 0 to |es|
      invariant result == "[" + Join(items[..k], ",") + (if k > 0 then "," else "")
    {
      var text := ToStringAt(es[k], compact, tabCount + 1, realText);
      var line := IfNotCompact(compact, "\n" + Tabs(tabCount + 1)) + text;
      assert line == items[k];
      JoinStep("[", items, k);
      result := result + line + ",";
    }
    assert items[..|es|] == items;
  }

  /** The Object case of `m_to_string`, in the map's iteration order: the
      member loop, then `pop_back`, then the closing line break and brace. */
  method ObjectToString(ms: seq<Member>, compact: bool, tabCount: nat, realText: LongDouble -> string)
    returns (result: string)
    ensures result == Text(Object(ms), compact, tabCount, realText)
    decreases Object(ms), 1
  {
    result := ObjectMembersText(ms, compact, tabCount, realText);
    JoinPop(result, "{", ObjectItems(ms, compact, tabCount, realText));
    if result[|result| - 1] == ',' {
      result := result[..|result| - 1];
    }
    result := result + IfNotCompact(compact, "\n" + Tabs(tabCount)) + "}";
  }

  /** The member loop of the Object case: '{', then per member one
      `result +=` of its line break, `"key":`, the optional space, the
      value's text and a comma. */
  method ObjectMembersText(ms: seq<Member>, compact: bool, tabCount: nat, realText: LongDouble -> string)
    returns (result: string)
    ensures var items := ObjectItems(ms, compact, tabCount, realText);
            result == "{" + Join(items, ",") + (if |items| > 0 then "," else "")
    decreases Object(ms), 0
  {
    ghost var items := ObjectItems(ms, compact, tabCount, realText);
    result := "{";
    for k := 0 to |ms|
      invariant result == "{" + Join(items[..k], ",") + (if k > 0 then "," else "")
    {
      var text := ToStringAt(ms[k].val, compact, tabCount + 1, realText);
      var line := IfNotCompact(compact, "\n" + Tabs(tabCount + 1))
                  + "\"" + ms[k].key + "\":" + IfNotCompact(compact, " ") + text;
      assert line == items[k];
      JoinStep("{", items, k);
      result := result + line + ",";
    }
    assert items[..|ms|] == items;
  }

  /** `JSON::to_string`: the text of the value at nesting level 0. The
      default argument of json.h is `compact = false`, so `to_string()` is
      `ToString(v, false, realText)`. */
  method ToString(v: Value, compact: bool, realText: LongDouble -> string) returns (result: string)
    ensures result == Text(v, compact, 0, realText)
  {
    result := ToStringAt(v, compact, 0, realText);
  }
}
