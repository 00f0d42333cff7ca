# json-cpp in Dafny

A model of the single-class JSON library json-cpp (`json.h`, `json.cpp`):

- the dynamically typed value `JSON`, a closed union of Null, Bool, Real, Integer, String, Array and Object;
- its constructors, `type()`, `type_str()`, the `as_*` accessors and `as_number()`;
- the four `operator[]` overloads. The mutable ones turn Null into an empty container and insert missing keys;
- `JSON::parse`, a recursive-descent parser with one character of lookahead over a string stream;
- `to_string` / `m_to_string`, the serializer, compact or indented with tabs.

## Files

| File | Contents |
|---|---|
| `value.dfy` (`JsonValue`) | The value datatype, `Type`, the accessors and the error kinds. Object storage (`object_type`) is a sequence of members with unique keys; `Put` is `map[key] = val`. |
| `lexical.dfy` (`Lexical`) | C-locale `isspace` and `isdigit`, `std::from_chars` into `int64_t`, and `std::to_string(int64_t)`. |
| `parser_spec.dfy` (`ParserSpec`) | The grammar of `JSON::parse` as functions that thread the stream position. Each returns the value and the position after it, or the syntax error thrown. |
| `parser.dfy` (`Parser`) | The parser's lambdas as methods with a cursor and `while` loops. Each is proved equal to its grammar function. |
| `serializer.dfy` (`Serializer`) | The text of a value as a function (`Text`), and `m_to_string`'s append-then-`pop_back` loops as methods proved equal to it. |
| `roundtrip.dfy` (`RoundTrip`) | `parse(to_string(v)) == v`, compact and indented, for every value whose text the serializer writes faithfully. |
| `parser_properties.dfy`, `parser_examples.dfy` | What the parser accepts and rejects. |
| `serializer_properties.dfy` | The layout of the text, and strings that do not read back. |
| `indexing.dfy` (`Indexing`) | The const and mutable `operator[]`, and the class `Json` whose methods update the held value in place. |

Behaviour of `json.cpp` worth noting:

- **Leading `+`.** The dispatch of `parse_value` (json.cpp:246) tests `peek() == '-' || peek() != '+' || isdigit(peek())`. A value starting with `+` is therefore rejected with "unexpected character" (`ParserProperties.PlusRejected`), not read as a signed number. Every other character that starts no value goes to `parse_number`, which rejects it with "expected number" (`ParserProperties.OtherRejected`).
- **Positional indexing of Null.** Mutable positional indexing of Null first turns it into `[]`, then fails the bounds check (json.cpp:29-37). The value is left as `[]` and the error is "out of bounds" (`Indexing.IndexAccessResult`).
- **Whitespace.** `std::ws` also skips `\v` and `\f`.
- **Literals.** `parse_literal` does not rewind after a partial match, so `ntrue` reads as `true` and `nufalse` as `false` (`ParserExamples.LiteralNoRewindTrue`, `ParserExamples.LiteralNoRewindFalse`).
- **Round trip.** It holds for the indented layout as well as the compact one.

## Model

| member | source | states |
|---|---|---|
| `JsonValue.TypeOf` | json.h:35-44 | `type()` reports the tag of exactly the active alternative. It is total, so the trailing throw is unreachable. |
| `JsonValue.TypeStr` | json.h:46-58 | `type_str()` names each alternative: null, boolean, real, integer, string, array, object. |
| `JsonValue.TypeStrInjective` | json.h:46-58 | Different tags have different names. |
| `JsonValue.AsBool` | json.h:60-61 | Succeeds exactly on a Bool, with its payload; otherwise `bad_variant_access`. |
| `JsonValue.AsReal` | json.h:62-63 | Succeeds exactly on a Real, with its payload; otherwise `bad_variant_access`. |
| `JsonValue.AsInteger` | json.h:64-65 | Succeeds exactly on an Integer, with its payload; otherwise `bad_variant_access`. |
| `JsonValue.AsString` | json.h:66-67 | Succeeds exactly on a String, with its payload; otherwise `bad_variant_access`. |
| `JsonValue.AsArray` | json.h:68-69 | Succeeds exactly on an Array, with its elements; otherwise `bad_variant_access`. |
| `JsonValue.AsObject` | json.h:70-71 | Succeeds exactly on an Object, with its members; otherwise `bad_variant_access`. |
| `JsonValue.AsNumber` | json.h:73-75 | An Integer widened to long double, a Real itself, and `bad_variant_access` for every other type. |
| `JsonValue.Lookup` | json.cpp:21-25 | `find(key)` succeeds exactly for a key in the map, and yields the value stored under it. |
| `JsonValue.Put` | json.cpp:162 | `map[key] = val` on the member sequence: the entry under `key` is replaced in place, or a new entry is appended. Its properties are `PutKeySet`, `PutAppends`, `PutLookup`, `PutTwice`, `PutDistinct` and `PutValues`. |
| `JsonValue.PutKeySet` | json.cpp:14 | `map[key] = val` adds `key` to the key set and nothing else. |
| `JsonValue.PutDistinct` | json.cpp:162 | `map[key] = val` keeps keys unique. |
| `JsonValue.PutAppends` | json.cpp:14 | A key not yet present is added as a new entry, and the existing entries are kept. |
| `JsonValue.PutLookup` | json.cpp:162 | After `map[key] = val`, `key` maps to `val` and every other key keeps its value. |
| `JsonValue.PutTwice` | json.cpp:162 | A second write under the same key replaces the first. |
| `JsonValue.PutValues` | json.cpp:162 | Storing a well-formed value keeps every stored value well formed. |
| `Lexical.NatToDecimal` | json.cpp:275 | The digits of a natural number: no leading zero, and they denote the number. |
| `Lexical.IntToString` | json.cpp:275 | `std::to_string(int64_t)`: a '-' exactly for negative numbers, then digits. |
| `Lexical.Narrow` | json.cpp:220-225 | Conversion to `int64_t` succeeds exactly inside its range, and keeps the value. |
| `Lexical.FromChars` | json.cpp:219-225 | `std::from_chars` into `int64_t`: an optional '-' and digits, converted when the value fits. `FromCharsIntToString` and `FromCharsFails` state when it succeeds. |
| `Lexical.FromCharsIntToString` | json.cpp:221 | `from_chars` reads back what `std::to_string(int64_t)` writes. |
| `Lexical.FromCharsFails` | json.cpp:221-223 | An overflowing digit run, or a leading '+', is not converted. |
| `ParserSpec.SkipWs` | json.cpp:230 | `iss >> std::ws` moves forward and stays inside the input. |
| `ParserSpec.SkipWsSpaces` | json.cpp:230 | `std::ws` stops at the first non-whitespace character and skips only whitespace. |
| `ParserSpec.Digits` | json.cpp:192-194 | The digit loop stops at the first non-digit. |
| `ParserSpec.DigitsAreDigits` | json.cpp:192-194 | Everything the digit loop passes over is a digit. |
| `ParserSpec.Consume` | json.cpp:54-62 | `consume_string` consumes the longest common prefix of the literal and the input. It reports success exactly when that is the whole literal; on failure the next character differs. |
| `ParserSpec.Unescape` | json.cpp:91-102 | Exactly the escapes `\b \f \n \r \t \" \\ \/` yield a character; any other yields nothing. |
| `ParserSpec.StringChars` | json.cpp:84-110 | On success the loop of `parse_string` ends just after a closing quote. |
| `ParserSpec.ArrayClose` | json.cpp:132-137 | The end of `parse_array` builds the array of the elements read. |
| `ParserSpec.ObjectClose` | json.cpp:170-175 | The end of `parse_object` builds the object of the members stored. |
| `ParserSpec.ParseLiteral` | json.cpp:64-76 | `parse_literal`: `null`, then `true`, then `false` are tried from where the previous attempt stopped. A success ends after the literal. |
| `ParserSpec.ParseString` | json.cpp:77-112 | `parse_string`: a quote, the characters with their escapes, and the closing quote. A success ends after the opening position. |
| `ParserSpec.ParseNumber` | json.cpp:177-194 | The sign and the integer digits of `parse_number`, with "expected digit" and "unexpected EOF". A success ends after the start. |
| `ParserSpec.NumberFraction` | json.cpp:195-205 | The optional fraction: a '.' needs at least one digit. A success ends at or after the integer digits. |
| `ParserSpec.NumberExponent` | json.cpp:206-227 | The optional exponent with its sign: it needs at least one digit. Then comes the conversion. A success ends at or after the fraction. |
| `ParserSpec.NumberValue` | json.cpp:219-227 | The conversion: an integer lexeme that `from_chars` accepts becomes an Integer, and every other lexeme the Real read by `std::stold`. `ParserProperties.IntegerLexemeValue` states it. |
| `ParserSpec.ParseArray` | json.cpp:113-138 | `parse_array`: '[', whitespace, and either ']' or the element loop. A success ends after the '['. |
| `ParserSpec.ArrayElements` | json.cpp:127-137 | The `push_back` loop of `parse_array`, continued while a ',' follows an element. A success ends after the position it starts from. |
| `ParserSpec.ParseObject` | json.cpp:139-176 | `parse_object`: '{', whitespace, and either '}' or the member loop. A success ends after the '{'. |
| `ParserSpec.ObjectMembers` | json.cpp:151-175 | The member loop of `parse_object`, storing each member with `Put` and continuing while a ',' follows. A success ends after the start. |
| `ParserSpec.ParseMember` | json.cpp:152-163 | One member: a quoted key, whitespace, ':', and a value. A success ends after the start. |
| `ParserSpec.ValueAt` | json.cpp:234-251 | The dispatch of `parse_value` on its first character, including the '+' test. A success ends after that character. |
| `ParserSpec.ParseValue` | json.cpp:229-252 | `parse_value`: whitespace, then "unexpected EOF" at the end of input, otherwise the dispatch. A success ends after the start. |
| `ParserSpec.Parse` | json.cpp:253-259 | `JSON::parse`: one value, then only whitespace. `ParserProperties.ParseResidual` and `ParserProperties.ParseWellFormed` state its properties. |
| `Parser.SkipWs` | json.cpp:230 | The whitespace loop stops where `std::ws` stops. |
| `Parser.ConsumeString` | json.cpp:54-62 | The loop of `consume_string` computes `ParserSpec.Consume`. |
| `Parser.ParseLiteral` | json.cpp:64-76 | `parse_literal`, including the missing rewind, computes `ParserSpec.ParseLiteral`. |
| `Parser.ParseString` | json.cpp:77-112 | The character loop of `parse_string` with its escapes computes `ParserSpec.ParseString`. |
| `Parser.Take` | json.cpp:184 | `str_num += iss.get()` keeps the lexeme equal to the text read since its start. |
| `Parser.TakeDigits` | json.cpp:192-194 | The digit loop appends exactly the run of digits. |
| `Parser.ParseNumber` | json.cpp:177-194 | The sign and integer digits of `parse_number`, with their errors, compute `ParserSpec.ParseNumber`. |
| `Parser.NumberFraction` | json.cpp:195-205 | The fraction of `parse_number` computes `ParserSpec.NumberFraction`. |
| `Parser.NumberExponent` | json.cpp:206-227 | The exponent and the conversion compute `ParserSpec.NumberExponent`. |
| `Parser.ParseValue` | json.cpp:229-252 | The dispatch of `parse_value` computes `ParserSpec.ParseValue`. |
| `Parser.ParseArray` | json.cpp:113-126 | The opening of `parse_array` computes `ParserSpec.ParseArray`. |
| `Parser.ArrayElements` | json.cpp:127-137 | The `push_back` loop of `parse_array` computes `ParserSpec.ArrayElements`. |
| `Parser.ParseObject` | json.cpp:139-150 | The opening of `parse_object` computes `ParserSpec.ParseObject`. |
| `Parser.ObjectMembers` | json.cpp:151-175 | The member loop of `parse_object`, storing with `obj[key] = value`, computes `ParserSpec.ObjectMembers`. |
| `Parser.ParseMember` | json.cpp:152-163 | One member, a quoted key, ':' and a value, computes `ParserSpec.ParseMember`. |
| `Parser.Parse` | json.cpp:253-259 | `JSON::parse` computes `ParserSpec.Parse`. |
| `ParserProperties.SkipWsToEnd` | json.cpp:255-256 | `std::ws` reaches the end exactly when only whitespace is left. |
| `ParserProperties.ParseResidual` | json.cpp:253-258 | After the top-level value, parsing succeeds exactly when only whitespace follows; otherwise the error is residual data. |
| `ParserProperties.ValueAtEof` | json.cpp:230-233 | Where a value is expected and only whitespace is left, the error is an unexpected EOF. |
| `ParserProperties.ParseBlank` | json.cpp:230-233 | An empty or blank text is an unexpected EOF. |
| `ParserProperties.ArrayUnclosed` | json.cpp:118-125 | `[` followed by only whitespace is an unexpected EOF. |
| `ParserProperties.IntegerLexemeValue` | json.cpp:219-225 | An integer lexeme is an Integer when it fits in `int64_t`, otherwise the Real read from it. |
| `ParserProperties.IntegerNumber` | json.cpp:177-225 | An optional '-' and digits, leading zeros allowed, parse as the Integer they denote when it fits, and as a Real when it overflows. |
| `ParserProperties.FractionNumber` | json.cpp:195-227 | A lexeme with a fraction of at least one digit, and no exponent after it, parses as a Real. |
| `ParserProperties.ExponentNumber` | json.cpp:177-227 | A lexeme with an exponent ('e' or 'E', an optional sign and at least one digit), after the integer digits or after a fraction, parses as a Real even when the mantissa is an integer, and the number ends after the exponent's digits. |
| `ParserProperties.FractionNeedsDigit` | json.cpp:196-201 | A '.' not followed by a digit is "expected digit". |
| `ParserProperties.ExponentNeedsDigit` | json.cpp:177-214 | An exponent marker 'e' or 'E', after an optionally negative mantissa with or without a fraction, whose optional sign is not followed by a digit is "expected digit". |
| `ParserProperties.PlusRejected` | json.cpp:245-251 | A value starting with '+' is "unexpected character". |
| `ParserProperties.MinusAlone` | json.cpp:183-191 | A '-' followed by a non-digit is "expected digit"; at the end of input it is "unexpected EOF". |
| `ParserProperties.OtherRejected` | json.cpp:179-181 | Any other character that starts no value is "expected number". |
| `ParserProperties.EscapeInString` | json.cpp:84-111 | An escape between plain text stands for its character, and an unknown escape is dropped with its backslash. |
| `ParserProperties.EscapeAtEnd` | json.cpp:86-89 | A backslash at the end of the input is an unfinished escape sequence. |
| `ParserProperties.QuoteMissing` | json.cpp:107-109 | A string without its closing quote is "expected '\"'". |
| `ParserProperties.EmptyArray` | json.cpp:118-124 | `[]` with only whitespace inside is the empty array. |
| `ParserProperties.EmptyObject` | json.cpp:144-150 | `{}` with only whitespace inside is the empty object. |
| `ParserProperties.ArrayTrailingComma` | json.cpp:127-129 | A comma before ']' is rejected by `parse_number` as "expected number". |
| `ParserProperties.ObjectTrailingComma` | json.cpp:151-154 | A comma before '}' is rejected as "expected '\"'". |
| `ParserProperties.ArrayMissingComma` | json.cpp:127-135 | Elements without a comma between them give "expected ']'". |
| `ParserProperties.ObjectMissingComma` | json.cpp:163-173 | Members without a comma between them give "expected '}'". |
| `ParserProperties.MemberKeyAndColon` | json.cpp:152-159 | A member must start with a quote and its key must be followed by ':'. |
| `ParserProperties.DuplicateKey` | json.cpp:162 | With a duplicate key the last value wins, and the key is stored once. |
| `ParserProperties.ParseWellFormed` | json.cpp:162 | Every object `parse` builds has unique keys, at every depth. |
| `ParserExamples.ArrayTrailingCommaExample` | json.cpp:127-129 | `[1,]` is "expected number". |
| `ParserExamples.ArrayMissingCommaExample` | json.cpp:132-135 | `[1 2]` is "expected ']'". |
| `ParserExamples.UnquotedKeyExample` | json.cpp:152-154 | `{a:1}` is "expected '\"'". |
| `ParserExamples.LiteralNoRewindTrue` | json.cpp:66-71 | `ntrue` reads as true. |
| `ParserExamples.LiteralNoRewindFalse` | json.cpp:66-74 | `nufalse` reads as false. |
| `ParserExamples.LiteralCutShort` | json.cpp:66-75 | `nul` is an invalid literal. |
| `Serializer.Tabs` | json.cpp:280 | `std::string(n, '\t')` is exactly `n` tabs. |
| `Serializer.IfNotCompact` | json.cpp:267-269 | `if_ncompact` is empty in compact mode and its argument otherwise. |
| `Serializer.Break` | json.cpp:280 | The line break before an element: nothing when compact, otherwise a newline and `depth` tabs, all whitespace. |
| `Serializer.Text` | json.cpp:266-302 | The text `m_to_string` writes, by cases on the value. `RoundTrip.RoundTrip` and the `SerializerProperties` lemmas state its properties. |
| `Serializer.JoinPop` | json.cpp:282-284 | The text ends in a comma exactly when there were elements, and `pop_back` then leaves the elements joined by commas. |
| `Serializer.ToStringAt` | json.cpp:266-302 | `m_to_string` computes `Serializer.Text`. |
| `Serializer.ArrayToString` | json.cpp:277-287 | The Array case computes `Serializer.Text` of the array. |
| `Serializer.ArrayElementsText` | json.cpp:278-281 | The element loop writes '[' and each element's line with a trailing comma. |
| `Serializer.ObjectToString` | json.cpp:288-298 | The Object case computes `Serializer.Text` of the object. |
| `Serializer.ObjectMembersText` | json.cpp:289-292 | The member loop writes '{' and each `"key":` line with a trailing comma. |
| `Serializer.ToString` | json.cpp:262-264 | `to_string` computes `Serializer.Text` at depth 0. |
| `SerializerProperties.EmptyContainers` | json.cpp:277-297 | An empty container is `[]`/`{}` when compact, and otherwise the opener, a newline, `depth` tabs and the closer. |
| `SerializerProperties.CompactDepth` | json.cpp:266-297 | The compact text does not depend on the nesting level. |
| `SerializerProperties.CompactArray` | json.cpp:277-287 | Compact array text is `[a,b,c]`. |
| `SerializerProperties.CompactObject` | json.cpp:288-298 | Compact object text is `{"k":v,...}`. |
| `SerializerProperties.IndentedArray` | json.cpp:277-287 | Indented array text puts each element on a new line with one tab more than the array, and the `]` on a line of its own at the array's indentation. |
| `SerializerProperties.IndentedObject` | json.cpp:288-298 | Indented object text puts each `"key": value` member on a new line with one tab more than the object, with a space after the colon, and the `}` on a line of its own. |
| `SerializerProperties.QuoteNotEscaped` | json.cpp:276 | A string holding '"' is written unescaped, and its text parses with residual data. |
| `SerializerProperties.BackslashNotEscaped` | json.cpp:276 | A string holding a lone '\' is written unescaped, and its text misses its closing quote. |
| `SerializerProperties.EscapeReadBack` | json.cpp:276 | A string holding '\' and 'n' reads back as a newline, which is a different value. |
| `RoundTrip.RoundTrip` | json.cpp:253-259 | `parse(to_string(v, compact)) == v` for every value without Reals, without '"' or '\' in strings and keys, and with unique keys. |
| `RoundTrip.ParseText` | json.cpp:229-252 | The text of such a value, wherever it lies, parses back as the value and ends where the text ends. |
| `RoundTrip.IntegerValue` | json.cpp:219-225 | `parse_number` reads `std::to_string(int64_t)` back as the same Integer. |
| `RoundTrip.LiteralValue` | json.cpp:64-74 | `null`, `true` and `false` read back. |
| `RoundTrip.StringValue` | json.cpp:77-112 | A plain string between quotes reads back. |
| `RoundTrip.ArrayText` | json.cpp:113-138 | An array's text, compact or indented, reads back. |
| `RoundTrip.ObjectText` | json.cpp:139-176 | An object's text, compact or indented, reads back. |
| `Indexing.ConstKey` | json.cpp:17-26 | The const key operator succeeds exactly on an object holding the key, with the stored value. It raises a type error on a non-object and a missing-key error otherwise. |
| `Indexing.ConstIndex` | json.cpp:42-51 | The const positional operator succeeds exactly on an array with `index < size`, with that element, `v.elems[index]`. It raises a type error on a non-array and out of bounds otherwise. |
| `Indexing.KeyAccess` | json.cpp:7-15 | `operator[](key)`: Null becomes `{}`, a missing key is inserted with Null, and the designated value is returned. `KeyAccessResult`, `KeyAccessKeeps` and `KeyAccessIdempotent` state its properties. |
| `Indexing.IndexAccess` | json.cpp:28-39 | `operator[](index)`: Null becomes `[]`, then the bounds check. `IndexAccessResult` states its properties. |
| `Indexing.KeyAssign` | json.cpp:7-15 | `j[key] = x`: the key operator, then a store through its reference. `KeyAssignFails` and `KeyAssignLastWins` state its properties. |
| `Indexing.IndexAssign` | json.cpp:28-39 | `j[index] = x`: the positional operator, then a store through its reference. `IndexAssignReplaces` states its properties. |
| `Indexing.KeyAccessResult` | json.cpp:7-15 | The mutable key operator fails exactly on a value that is neither Null nor an object, and then leaves it unchanged. Otherwise it designates the stored value, or Null for a new key, which the const operator then finds. |
| `Indexing.KeyAccessNull` | json.cpp:8-14 | On Null it yields `{key: null}`. |
| `Indexing.KeyAccessKeeps` | json.cpp:14 | It adds `key` to the key set and nothing else, and every other key keeps its value. |
| `Indexing.KeyAccessIdempotent` | json.cpp:7-15 | Indexing twice with the same key changes nothing more. |
| `Indexing.KeyAccessWellFormed` | json.cpp:14 | Keys stay unique. |
| `Indexing.KeyAssignFails` | json.cpp:11-13 | `j[key] = x` fails exactly on a non-Null non-object, with a type error. |
| `Indexing.KeyAssignLastWins` | json.cpp:14 | After `j[key] = x`, `key` holds `x` and every other key keeps its value. |
| `Indexing.KeyAssignWellFormed` | json.cpp:14 | `j[key] = x` keeps keys unique. |
| `Indexing.IndexAccessResult` | json.cpp:28-39 | The mutable positional operator agrees with the const one, except on Null, which becomes `[]` and reports out of bounds. |
| `Indexing.IndexAssignReplaces` | json.cpp:28-39 | `j[index] = x` succeeds exactly in bounds, and replaces that element and no other. |
| `Indexing.IndexAssignWellFormed` | json.cpp:28-39 | Storing a well-formed value by index keeps keys unique. |
| `Indexing.Json.constructor` | json.h:26-27 | `JSON()` and `JSON(nullptr)` hold Null. |
| `Indexing.Json.Of` | json.h:28-33 | The converting constructors hold the given alternative and payload. An object payload has unique keys, as an `object_type` does. |
| `Indexing.Json.Key` | json.cpp:7-15 | `operator[](key)` updates the held value and returns the designated value as `KeyAccess` states. Keys stay unique. |
| `Indexing.Json.SetKey` | json.cpp:7-15 | An assignment through `operator[](key)` stores `KeyAssign`'s value, or leaves the value unchanged on a type error. |
| `Indexing.Json.Index` | json.cpp:28-39 | `operator[](index)` updates the held value and returns the designated value as `IndexAccess` states. |
| `Indexing.Json.SetIndex` | json.cpp:28-39 | An assignment through `operator[](index)` stores `IndexAssign`'s value. On an error the value is what the operator left (`[]` for Null). |

## Left out

- ParserSpec.NumberValue: the `std::out_of_range` that `std::stold` throws for a lexeme outside the range of `long double` (such as `1e99999`, or an integer of thousands of digits) is not modelled; every lexeme converts to a Real.
- ParserProperties.IntegerNumber: for the same reason it claims a Real where the program throws on a lexeme out of the `long double` range.
- ParserProperties.FractionNumber: for the same reason it claims a Real where the program throws on a lexeme out of the `long double` range.
- ParserProperties.ExponentNumber: for the same reason it claims a Real where the program throws on a lexeme out of the `long double` range, such as `1e99999`.
- Floating point. A Real holds a `LongDouble` that records where it came from: the lexeme given to `std::stold`, or an exact `int64_t`. The decimal value `std::stold` computes is not modelled.
- `std::to_string(long double)`. It is a parameter `realText` of the serializer, so no claim is made about Real text, and the round trip excludes Reals.
- References. The mutable `operator[]` returns a reference into the value. The model returns the designated value and models assignment through the reference (`Json.SetKey`, `Json.SetIndex`). Holding a reference across other updates (aliasing) is not modelled.
- The mutable `as_*` accessors. They return writable references; the model has only reading accessors.
- Member order. `unordered_map` iteration order is unspecified. An object is a sequence of members with unique keys, where a new key goes at the end. The serializer writes members in that order; no claim is made that this matches any particular map's order.
- Bytes versus characters. The input is `seq<char>`, not bytes. The parser compares only with ASCII characters, so this is the same behaviour on ASCII input. Locale-dependent `isspace`/`isdigit` are fixed to the C locale.
- `size_t`. An index is a `nat`, with no wrap-around.
- Exception messages. They are error kinds, and the exception classes are folded into one `Error` datatype.
- Stream state. The stream's `eofbit`/`failbit` are not modelled. The model only reads forward, so after the end every peek sees the end either way.
- Resources. Stack depth on deeply nested input and memory exhaustion are not modelled.
- Unreachable throws. The `default` throws of `type()`, `type_str()` and `m_to_string` are unreachable, because the datatype is closed.
