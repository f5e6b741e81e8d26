/** JavaScript values and the coercions the dependency runner relies on:
    truthiness of `||` and `if`, loose equality `==`, and `String(n)` of an
    integer when it is concatenated into a message. */
module Js {

  /** A nullable value: `None` stands for JavaScript's `null`. */
  datatype Option<+T> = None | Some(value: T)

  /** The primitive values that a declaration field or an exit code can hold. */
  datatype JsValue = Undefined | Null | Num(n: int)

  /** Node reports `child.exitCode` as `null` until the child exits with a code. */
  function Nullable(code: Option<int>): (v: JsValue)
    ensures v != Undefined
    ensures v == Null <==> code.None?
    ensures code.Some? ==> v.Num? && v.n == code.value
  {
    match code
    case None => Null
    case Some(n) => Num(n)
  }

  /** Truthiness of a nullable number (`child.exitCode`, a timeout, a port). */
  predicate CodeTruthy(code: Option<int>)
  {
    code.Some? && code.value != 0
  }

  /** Truthiness of a nullable string (`child.signalCode`, a declared signal). */
  predicate TextTruthy(s: Option<string>)
  {
    s.Some? && s.value != ""
  }

  /** Loose equality `a == b`: `null` and `undefined` are equal to each other
      and to nothing else; numbers compare by value. */
  predicate LooseEquals(a: JsValue, b: JsValue)
  {
    match (a, b)
    case (Num(x), Num(y)) => x == y
    case (Num(_), _) => false
    case (_, Num(_)) => false
    case _ => true
  }

  /** Loose equality is strict equality except that it identifies the two
      nullish values. */
  lemma LooseEqualsCharacterised(a: JsValue, b: JsValue)
    ensures LooseEquals(a, b) <==> a == b || (!a.Num? && !b.Num?)
  {
  }

  /** Against a number, loose equality is exact numeric equality. */
  lemma LooseEqualsNumber(x: int, v: JsValue)
    ensures LooseEquals(v, Num(x)) <==> v == Num(x)
    ensures LooseEquals(Num(x), v) <==> v == Num(x)
  {
  }

  // ---------------------------------------------------------------------
  // Decimal rendering of integers, as `"..." + n` does it.

  predicate IsDigit(c: char)
  {
    '0' <= c <= '9'
  }

  predicate IsDigits(s: string)
  {
    forall i :: 0 <= i < |s| ==> IsDigit(s[i])
  }

  function DigitChar(d: nat): (c: char)
    requires d < 10
    ensures IsDigit(c)
    ensures c as int - '0' as int == d
  {
    ('0' as int + d) as char
  }

  /** The shortest decimal numeral of `n`. */
  function NatToDecimal(n: nat): (s: string)
    ensures |s| >= 1
    ensures IsDigits(s)
    ensures s[0] == '0' ==> n == 0 && |s| == 1
    decreases n
  {
    if n < 10 then [DigitChar(n)] else NatToDecimal(n / 10) + [DigitChar(n % 10)]
  }

  /** The value of a decimal numeral, most significant digit first. */
  function DecimalValue(s: string): nat
    requires IsDigits(s)
  {
    if s == [] then 0 else DecimalValue(s[..|s| - 1]) * 10 + (s[|s| - 1] as int - '0' as int)
  }

  /** Reading back the numeral of `n` gives `n`. */
  lemma {:induction false} DecimalRoundTrip(n: nat)
    ensures DecimalValue(NatToDecimal(n)) == n
  {
    if n >= 10 {
      var s := NatToDecimal(n);
      var prefix := NatToDecimal(n / 10);
      assert s[..|s| - 1] == prefix;
      DecimalRoundTrip(n / 10);
    }
  }

  /** `String(n)` for an integer `n`. */
  function NumberToString(n: int): (s: string)
    ensures |s| >= 1
    ensures s[0] == '-' <==> n < 0
    ensures n >= 0 ==> IsDigits(s)
    ensures n < 0 ==> IsDigits(s[1..])
  {
    if n < 0 then "-" + NatToDecimal(-n) else NatToDecimal(n)
  }

  /** Different integers print differently, so a message that embeds an
      exit code determines that code. */
  lemma NumberToStringInjective(a: int, b: int)
    requires NumberToString(a) == NumberToString(b)
    ensures a == b
  {
    if a < 0 {
      assert NumberToString(a)[1..] == NatToDecimal(-a);
      assert NumberToString(b)[1..] == NatToDecimal(-b);
      DecimalRoundTrip(-a);
      DecimalRoundTrip(-b);
    } else {
      DecimalRoundTrip(a);
      DecimalRoundTrip(b);
    }
  }
}
