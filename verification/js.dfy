/**
  The small part of JavaScript's value semantics that the catalog and the form
  validators rely on: `typeof`, `Number(...)`, comparisons that are false on NaN,
  and the decimal text a template literal `${n}` produces for an integer.
 */
module Js {

  datatype Option<+T> = None | Some(value: T)

  /** A JavaScript value as far as this server looks at it. A number is a real,
      or None for NaN. A string and an object carry what `Number(...)` yields for
      them: string-to-number parsing is not modelled, its result is an input. */
  datatype JsValue =
    | JsString(text: string, numeric: Option<real>)
    | JsNumber(num: Option<real>)
    | JsBoolean(flag: bool)
    | JsNull
    | JsUndefined
    | JsObject(numeric: Option<real>)

  /** The `typeof` operator. */
  function TypeOf(v: JsValue): string
  {
    match v
    case JsString(_, _) => "string"
    case JsNumber(_) => "number"
    case JsBoolean(_) => "boolean"
    case JsNull => "object"
    case JsUndefined => "undefined"
    case JsObject(_) => "object"
  }

  /** The numeric value `Number(v)` yields, None standing for NaN. */
  function NumberValue(v: JsValue): Option<real>
  {
    match v
    case JsString(_, n) => n
    case JsNumber(n) => n
    case JsBoolean(b) => Some(if b then 1.0 else 0.0)
    case JsNull => Some(0.0)
    case JsUndefined => None
    case JsObject(n) => n
  }

  /** `Number(v)`: always a number, possibly NaN. */
  function ToNumber(v: JsValue): (r: JsValue)
    ensures TypeOf(r) == "number"
    ensures v.JsNumber? ==> r == v
    ensures r.num == NumberValue(v)
  {
    JsNumber(NumberValue(v))
  }

  /** `n >= bound` on a JavaScript number: false when n is NaN. */
  predicate AtLeast(n: Option<real>, bound: real)
  {
    n.Some? && n.value >= bound
  }

  /** `n <= bound` on a JavaScript number: false when n is NaN. */
  predicate AtMost(n: Option<real>, bound: real)
  {
    n.Some? && n.value <= bound
  }

  /** `n < bound` on a JavaScript number: false when n is NaN. */
  predicate Below(n: Option<real>, bound: real)
  {
    n.Some? && n.value < bound
  }

  predicate IsDigit(c: char)
  {
    '0' <= c <= '9'
  }

  predicate AllDigits(s: string)
  {
    forall i :: 0 <= i < |s| ==> IsDigit(s[i])
  }

  function DigitChar(d: int): (c: char)
    requires 0 <= d < 10
    ensures IsDigit(c)
    ensures (c as int) - ('0' as int) == d
  {
    (('0' as int) + d) as char
  }

  /** Decimal digits of a natural number, most significant first, no leading zero. */
  function NatToDecimal(n: nat): (s: string)
    ensures 1 <= |s|
    ensures AllDigits(s)
    ensures |s| > 1 ==> s[0] != '0'
    decreases n
  {
    if n < 10 then [DigitChar(n)]
    else NatToDecimal(n / 10) + [DigitChar(n % 10)]
  }

  /** The number a string of decimal digits denotes. */
  function DecimalValue(s: string): nat
    requires AllDigits(s)
  {
    if |s| == 0 then 0
    else DecimalValue(s[..|s| - 1]) * 10 + ((s[|s| - 1] as int) - ('0' as int))
  }

  /** The text of an integer in a template literal: `${n}`. */
  function IntToString(n: int): (s: string)
    ensures 1 <= |s|
    ensures n >= 0 <==> IsDigit(s[0])
    ensures forall i :: 0 <= i < |s| ==> s[i] != '/'
  {
    if n < 0 then "-" + NatToDecimal(-n) else NatToDecimal(n)
  }

  /** Reads back the text IntToString produces; None when it is not such a text. */
  function ParseInt(s: string): Option<int>
  {
    if |s| > 0 && s[0] == '-' && AllDigits(s[1..]) then Some(0 - DecimalValue(s[1..]) as int)
    else if AllDigits(s) then Some(DecimalValue(s))
    else None
  }

  lemma {:induction false} DecimalRoundTrip(n: nat)
    ensures DecimalValue(NatToDecimal(n)) == n
    decreases n
  {
    if n >= 10 {
      var s := NatToDecimal(n);
      DecimalRoundTrip(n / 10);
      assert s[..|s| - 1] == NatToDecimal(n / 10);
    }
  }

  /** Rendering an integer as text loses nothing. */
  lemma IntToStringRoundTrip(n: int)
    ensures ParseInt(IntToString(n)) == Some(n)
  {
    if n < 0 {
      assert IntToString(n)[1..] == NatToDecimal(-n);
      DecimalRoundTrip(-n);
    } else {
      DecimalRoundTrip(n);
    }
  }

  /** Distinct integers get distinct texts. */
  lemma IntToStringInjective(a: int, b: int)
    requires IntToString(a) == IntToString(b)
    ensures a == b
  {
    IntToStringRoundTrip(a);
    IntToStringRoundTrip(b);
  }
}
