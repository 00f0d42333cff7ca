/** Character classes and integer conversions the parser and the serializer
    rely on: C-locale `isspace` (the set `std::ws` skips) and `isdigit`,
    `std::from_chars` into an `int64_t`, and `std::to_string` of an
    `int64_t`. */
module Lexical {
  import opened JsonValue

  /** C-locale `isspace`: space, tab, newline, vertical tab, form feed and
      carriage return. */
  predicate IsSpace(c: char)
  {
    c == ' ' || c == '\t' || c == '\n' || c == '\U{000B}' || c == '\U{000C}' || c == '\r'
  }

  /** C-locale `isdigit`. */
  predicate IsDigit(c: char)
  {
    '0' <= c <= '9'
  }

  predicate AllDigits(t: string)
  {
    forall k :: 0 <= k < |t| ==> IsDigit(t[k])
  }

  function DigitValue(c: char): (d: nat)
    requires IsDigit(c)
    ensures d < 10
  {
    (c as int - '0' as int) as nat
  }

  function DigitChar(d: nat): (c: char)
    requires d < 10
    ensures IsDigit(c) && DigitValue(c) == d
  {
    ('0' as int + d) as char
  }

  /** The number a run of decimal digits denotes; leading zeros are allowed. */
  function DecValue(t: string): nat
    requires AllDigits(t)
  {
    if t == [] then 0 else DecValue(t[..|t| - 1]) * 10 + DigitValue(t[|t| - 1])
  }

  /** The shortest decimal text of `n`: digits only, no leading zero, and
      denoting `n`. */
  function NatToDecimal(n: nat): (t: string)
    ensures |t| > 0 && AllDigits(t)
    ensures DecValue(t) == n
    ensures t[0] == '0' ==> n == 0
  {
    if n < 10 then [DigitChar(n)]
    else
      var front := NatToDecimal(n / 10);
      var t := front + [DigitChar(n % 10)];
      assert t[..|t| - 1] == front;
      t
  }

  /** `std::to_string(int64_t)`: an optional '-' followed by the magnitude's
      shortest decimal text. */
  function IntToString(n: Int64): (t: string)
    ensures |t| > 0 && (IsDigit(t[0]) || t[0] == '-')
    ensures t[0] == '-' <==> n < 0
  {
    if n < 0 then "-" + NatToDecimal(-(n as int)) else NatToDecimal(n as nat)
  }

  /** `x` as an `int64_t`, or None when it does not fit. */
  function Narrow(x: int): (r: Option<Int64>)
    ensures r.Some? <==> -0x8000_0000_0000_0000 <= x < 0x8000_0000_0000_0000
    ensures r.Some? ==> r.value as int == x
  {
    if -0x8000_0000_0000_0000 <= x < 0x8000_0000_0000_0000 then Some(x as Int64) else None
  }

  /** `std::from_chars` into an `int64_t`, applied to a whole lexeme: an
      optional '-' and at least one digit give their value when it fits;
      an overflow, or any other form (a leading '+' among them), fails. */
  function FromChars(t: string): Option<Int64>
  {
    if |t| > 1 && t[0] == '-' && AllDigits(t[1..]) then Narrow(-(DecValue(t[1..]) as int))
    else if |t| > 0 && AllDigits(t) then Narrow(DecValue(t))
    else None
  }

  /** `from_chars` reads back what `to_string` wrote. */
  lemma {:induction false} FromCharsIntToString(n: Int64)
    ensures FromChars(IntToString(n)) == Some(n)
  {
    var t := IntToString(n);
    if n < 0 {
      assert t[1..] == NatToDecimal(-(n as int));
    } else {
      assert t == NatToDecimal(n as nat);
    }
  }

  /** A digit run whose value exceeds the `int64_t` range, or a lexeme with a
      leading '+', is not converted. */
  lemma {:induction false} FromCharsFails(t: string)
    requires |t| > 0
    requires (AllDigits(t) && DecValue(t) >= 0x8000_0000_0000_0000) || t[0] == '+'
    ensures FromChars(t) == None
  {
  }
}
