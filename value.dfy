/** The dynamically typed JSON value of json.h: a closed tagged union with
    typed accessors and type introspection, plus the object storage
    (`object_type`, an unordered map) that the indexing operators and the
    parser update. */
module JsonValue {

  /** `int64_t`, the payload of an Integer value. */
  newtype Int64 = x: int | -0x8000_0000_0000_0000 <= x < 0x8000_0000_0000_0000

  /** A `long double`, known only by how it was obtained: `std::stold` of a
      decimal lexeme, or the conversion of an `int64_t`. Whether that
      conversion is exact depends on the platform's `long double` (a 64-bit
      significand keeps every `int64_t`, a 53-bit one rounds above 2^53);
      the precision is not modelled. */
  datatype LongDouble =
    | FromText(lexeme: string)
    | FromInt(n: Int64)

  /** The seven alternatives of the variant `m_data`. An Object's members
      stand for the unordered map's entries in its (unspecified) iteration
      order; a key occurs at most once in a well-formed value. */
  datatype Value =
    | Null
    | Bool(b: bool)
    | Real(x: LongDouble)
    | Integer(n: Int64)
    | String(s: string)
    | Array(elems: seq<Value>)
    | Object(members: seq<Member>)

  datatype Member = Member(key: string, val: Value)

  /** `JSON::Type`. */
  datatype Type = NullTag | BoolTag | RealTag | IntegerTag | StringTag | ArrayTag | ObjectTag

  /** The parser's `std::invalid_argument` messages, one per kind. */
  datatype SyntaxError =
    | InvalidLiteral        // "invalid literal"
    | ExpectedQuote         // "expected '\"' character"
    | UnfinishedEscape      // "unfinished escape sequence"
    | ExpectedOpenBracket   // "expected '[' character"
    | ExpectedCloseBracket  // "expected ']' character"
    | ExpectedOpenBrace     // "expected '{' character"
    | ExpectedCloseBrace    // "expected '}' character"
    | ExpectedColon         // "expected ':' character"
    | ExpectedNumber        // "expected number"
    | ExpectedDigit         // "expected digit"
    | UnexpectedEof         // "unexpected EOF"
    | UnexpectedCharacter   // "unexpected character"
    | ResidualData          // "residual data"

  /** Every exception the core throws. */
  datatype Error =
    | Syntax(kind: SyntaxError)  // std::invalid_argument from JSON::parse
    | NotObject                  // std::runtime_error: key indexing on a non-object
    | NotArray                   // std::runtime_error: positional indexing on a non-array
    | OutOfBounds                // std::invalid_argument: index >= size
    | MissingKey                 // std::invalid_argument: const key lookup of an absent key
    | BadVariantAccess           // std::bad_variant_access from std::get in an accessor

  datatype Result<T> = Ok(value: T) | Err(error: Error)

  datatype Option<T> = None | Some(value: T)

  /** `type()`: the tag of the active alternative. Every alternative has a
      tag, so the trailing throw of the source is unreachable. */
  function TypeOf(v: Value): (t: Type)
    ensures t == NullTag <==> v.Null?
    ensures t == BoolTag <==> v.Bool?
    ensures t == RealTag <==> v.Real?
    ensures t == IntegerTag <==> v.Integer?
    ensures t == StringTag <==> v.String?
    ensures t == ArrayTag <==> v.Array?
    ensures t == ObjectTag <==> v.Object?
  {
    match v
    case Null => NullTag
    case Bool(_) => BoolTag
    case Real(_) => RealTag
    case Integer(_) => IntegerTag
    case String(_) => StringTag
    case Array(_) => ArrayTag
    case Object(_) => ObjectTag
  }

  /** The canonical lower-case name of a tag, as `type_str()` reports it. */
  function TypeName(t: Type): (name: string)
  {
    match t
    case NullTag => "null"
    case BoolTag => "boolean"
    case RealTag => "real"
    case IntegerTag => "integer"
    case StringTag => "string"
    case ArrayTag => "array"
    case ObjectTag => "object"
  }

  /** `type_str()`: the canonical lower-case name of the active
      alternative. */
  function TypeStr(v: Value): (name: string)
    ensures v.Null? ==> name == "null"
    ensures v.Bool? ==> name == "boolean"
    ensures v.Real? ==> name == "real"
    ensures v.Integer? ==> name == "integer"
    ensures v.String? ==> name == "string"
    ensures v.Array? ==> name == "array"
    ensures v.Object? ==> name == "object"
  {
    TypeName(TypeOf(v))
  }

  /** Values with different tags have different `type_str()` names. */
  lemma {:induction false} TypeStrInjective(v: Value, w: Value)
    requires TypeStr(v) == TypeStr(w)
    ensures TypeOf(v) == TypeOf(w)
  {
    assert TypeStr(v)[0] == TypeStr(w)[0];
    if v.Real? || v.String? {
      assert TypeStr(v)[2] == TypeStr(w)[2];
    }
  }

  /** `as_bool()`: succeeds exactly on a Bool, with its payload. */
  function AsBool(v: Value): (r: Result<bool>)
    ensures r.Ok? <==> TypeOf(v) == BoolTag
    ensures r.Ok? ==> v == Bool(r.value)
    ensures r.Err? ==> r.error == BadVariantAccess
  {
    if v.Bool? then Ok(v.b) else Err(BadVariantAccess)
  }

  /** `as_real()`: succeeds exactly on a Real, with its payload. */
  function AsReal(v: Value): (r: Result<LongDouble>)
    ensures r.Ok? <==> TypeOf(v) == RealTag
    ensures r.Ok? ==> v == Real(r.value)
    ensures r.Err? ==> r.error == BadVariantAccess
  {
    if v.Real? then Ok(v.x) else Err(BadVariantAccess)
  }

  /** `as_integer()`: succeeds exactly on an Integer, with its payload. */
  function AsInteger(v: Value): (r: Result<Int64>)
    ensures r.Ok? <==> TypeOf(v) == IntegerTag
    ensures r.Ok? ==> v == Integer(r.value)
    ensures r.Err? ==> r.error == BadVariantAccess
  {
    if v.Integer? then Ok(v.n) else Err(BadVariantAccess)
  }

  /** `as_string()`: succeeds exactly on a String, with its payload. */
  function AsString(v: Value): (r: Result<string>)
    ensures r.Ok? <==> TypeOf(v) == StringTag
    ensures r.Ok? ==> v == String(r.value)
    ensures r.Err? ==> r.error == BadVariantAccess
  {
    if v.String? then Ok(v.s) else Err(BadVariantAccess)
  }

  /** `as_array()`: succeeds exactly on an Array, with its elements. */
  function AsArray(v: Value): (r: Result<seq<Value>>)
    ensures r.Ok? <==> TypeOf(v) == ArrayTag
    ensures r.Ok? ==> v == Array(r.value)
    ensures r.Err? ==> r.error == BadVariantAccess
  {
    if v.Array? then Ok(v.elems) else Err(BadVariantAccess)
  }

  /** `as_object()`: succeeds exactly on an Object, with its members. */
  function AsObject(v: Value): (r: Result<seq<Member>>)
    ensures r.Ok? <==> TypeOf(v) == ObjectTag
    ensures r.Ok? ==> v == Object(r.value)
    ensures r.Err? ==> r.error == BadVariantAccess
  {
    if v.Object? then Ok(v.members) else Err(BadVariantAccess)
  }

  /** `as_number()`: the integer widened to a long double on an Integer,
      the real itself on a Real, and the failure of `as_real()` otherwise. */
  function AsNumber(v: Value): (r: Result<LongDouble>)
    ensures r.Ok? <==> TypeOf(v) == IntegerTag || TypeOf(v) == RealTag
    ensures v.Integer? ==> r == Ok(FromInt(v.n))
    ensures v.Real? ==> r == Ok(v.x)
    ensures r.Err? ==> r.error == BadVariantAccess
  {
    if TypeOf(v) == IntegerTag then
      Ok(FromInt(AsInteger(v).value))
    else
      AsReal(v)
  }

  /* ---------- object_type: an unordered map from string to JSON ---------- */

  /** The set of keys of an object. */
  function KeySet(ms: seq<Member>): set<string>
  {
    set m | m in ms :: m.key
  }

  /** No key occurs twice: the map's keys are unique. */
  predicate DistinctKeys(ms: seq<Member>)
  {
    forall j, k :: 0 <= j < k < |ms| ==> ms[j].key != ms[k].key
  }

  /** `find(key)`: the value stored under `key`, if any. */
  function Lookup(ms: seq<Member>, key: string): (r: Option<Value>)
    ensures r.Some? <==> key in KeySet(ms)
    ensures r.Some? ==> Member(key, r.value) in ms
    ensures DistinctKeys(ms) ==> forall k :: 0 <= k < |ms| && ms[k].key == key ==> r == Some(ms[k].val)
  {
    if ms == [] then None
    else if ms[0].key == key then Some(ms[0].val)
    else Lookup(ms[1..], key)
  }

  /** `map[key] = val`: overwrites the value of an existing key in place,
      otherwise adds a new entry at the end (PutKeySet, PutDistinct, PutAppends and PutLookup state
      what this does to the map). */
  function Put(ms: seq<Member>, key: string, val: Value): seq<Member>
  {
    if ms == [] then [Member(key, val)]
    else if ms[0].key == key then [Member(key, val)] + ms[1..]
    else [ms[0]] + Put(ms[1..], key, val)
  }

  /** `map[key] = val` adds `key` to the key set and no other key. */
  lemma {:induction false} PutKeySet(ms: seq<Member>, key: string, val: Value)
    ensures KeySet(Put(ms, key, val)) == KeySet(ms) + {key}
  {
    if ms != [] {
      assert ms == [ms[0]] + ms[1..];
      KeySetCons(ms[0], ms[1..]);
      if ms[0].key == key {
        KeySetCons(Member(key, val), ms[1..]);
      } else {
        PutKeySet(ms[1..], key, val);
        KeySetCons(ms[0], Put(ms[1..], key, val));
      }
    }
  }

  /** `map[key] = val` keeps the keys unique. */
  lemma {:induction false} PutDistinct(ms: seq<Member>, key: string, val: Value)
    requires DistinctKeys(ms)
    ensures DistinctKeys(Put(ms, key, val))
  {
    if ms != [] {
      assert ms == [ms[0]] + ms[1..];
      DistinctCons(ms[0], ms[1..]);
      if ms[0].key == key {
        KeySetCons(ms[0], ms[1..]);
        DistinctCons(Member(key, val), ms[1..]);
      } else {
        PutDistinct(ms[1..], key, val);
        PutKeySet(ms[1..], key, val);
        DistinctCons(ms[0], Put(ms[1..], key, val));
      }
    }
  }

  /** A key not yet in the map is added at the end. */
  lemma {:induction false} PutAppends(ms: seq<Member>, key: string, val: Value)
    requires key !in KeySet(ms)
    ensures Put(ms, key, val) == ms + [Member(key, val)]
  {
    if ms != [] {
      assert ms == [ms[0]] + ms[1..];
      KeySetCons(ms[0], ms[1..]);
      PutAppends(ms[1..], key, val);
    }
  }

  /** After `map[key] = val`, `key` maps to `val` and every other key keeps
      its value: the last write wins. */
  lemma {:induction false} PutLookup(ms: seq<Member>, key: string, val: Value, other: string)
    ensures Lookup(Put(ms, key, val), key) == Some(val)
    ensures other != key ==> Lookup(Put(ms, key, val), other) == Lookup(ms, other)
  {
    if ms != [] && ms[0].key != key {
      PutLookup(ms[1..], key, val, other);
    }
  }

  /** A second `map[key] = val` under the same key replaces the first. */
  lemma {:induction false} PutTwice(ms: seq<Member>, key: string, a: Value, b: Value)
    ensures Put(Put(ms, key, a), key, b) == Put(ms, key, b)
  {
    if ms != [] && ms[0].key != key {
      PutTwice(ms[1..], key, a, b);
      assert Put(ms, key, a)[1..] == Put(ms[1..], key, a);
    }
  }

  /** Every value stored by `Put` is well formed if the map's values and
      the new value are. */
  lemma {:induction false} PutValues(ms: seq<Member>, key: string, x: Value)
    requires forall k :: 0 <= k < |ms| ==> WellFormed(ms[k].val)
    requires WellFormed(x)
    ensures forall k :: 0 <= k < |Put(ms, key, x)| ==> WellFormed(Put(ms, key, x)[k].val)
  {
    if ms != [] && ms[0].key != key {
      PutValues(ms[1..], key, x);
      var t := Put(ms[1..], key, x);
      assert Put(ms, key, x) == [ms[0]] + t;
      forall k | 0 <= k < |Put(ms, key, x)| ensures WellFormed(Put(ms, key, x)[k].val) {
        if k > 0 {
          assert Put(ms, key, x)[k] == t[k - 1];
        }
      }
    }
  }

  lemma {:induction false} KeySetCons(m: Member, t: seq<Member>)
    ensures KeySet([m] + t) == {m.key} + KeySet(t)
  {
    var s := [m] + t;
    forall x | x in s ensures x == m || x in t {}
    forall x | x in t ensures x in s {
      var k :| 0 <= k < |t| && t[k] == x;
      assert s[k + 1] == x;
    }
  }

  /** Keys of `[m] + t` are unique exactly when those of `t` are and `m`'s
      key is not among them. */
  lemma {:induction false} DistinctCons(m: Member, t: seq<Member>)
    ensures DistinctKeys([m] + t) <==> DistinctKeys(t) && m.key !in KeySet(t)
  {
    var s := [m] + t;
    if DistinctKeys(s) {
      forall j, k | 0 <= j < k < |t| ensures t[j].key != t[k].key {
        assert s[j + 1] == t[j] && s[k + 1] == t[k];
      }
      forall x | x in t ensures x.key != m.key {
        var k :| 0 <= k < |t| && t[k] == x;
        assert s[k + 1] == x && s[0] == m;
      }
      assert DistinctKeys(t) && m.key !in KeySet(t);
    }
    if DistinctKeys(t) && m.key !in KeySet(t) {
      forall j, k | 0 <= j < k < |s| ensures s[j].key != s[k].key {
        if j == 0 {
          assert s[k] == t[k - 1];
          assert s[k] in t;
          assert s[k].key in KeySet(t);
        } else {
          assert s[j] == t[j - 1] && s[k] == t[k - 1];
        }
      }
    }
  }

  /** Every object in the tree has unique keys, as an unordered map does. */
  predicate WellFormed(v: Value)
  {
    match v
    case Array(es) => forall k :: 0 <= k < |es| ==> WellFormed(es[k])
    case Object(ms) => DistinctKeys(ms) && forall k :: 0 <= k < |ms| ==> WellFormed(ms[k].val)
    case _ => true
  }
}
