/**
 * The few JavaScript value notions the relay's logic depends on:
 * possibly-undefined values, truthiness of strings, `a || b` fallbacks,
 * template-literal interpolation and the decimal text of integers.
 */
module JsValues {

  /** A value that may be `undefined` (or `null`) in the JavaScript source. */
  datatype Option<+T> = None | Some(value: T)

  /** The outcome of a computation that may throw. */
  datatype Result<+T, +E> = Ok(value: T) | Err(error: E)

  /** JavaScript truthiness of a possibly-undefined string: only `undefined` and `""` are falsy. */
  predicate Truthy(o: Option<string>) {
    o.Some? && o.value != ""
  }

  /** The JavaScript expression `o || fallback` on a possibly-undefined string. */
  function OrElse(o: Option<string>, fallback: string): string {
    if Truthy(o) then o.value else fallback
  }

  /** `${o}` in a template literal: `undefined` is rendered as the text "undefined". */
  function Interpolate(o: Option<string>): string {
    match o
    case Some(s) => s
    case None => "undefined"
  }

  /** The smaller of two integers (the clamping `slice` does on its end index). */
  function Min(a: int, b: int): int {
    if a <= b then a else b
  }

  predicate IsDigit(c: char) {
    '0' <= c <= '9'
  }

  function DigitChar(d: nat): (c: char)
    requires d < 10
    ensures IsDigit(c) && (c as int) - ('0' as int) == d
  {
    (('0' as int) + d) as char
  }

  /** The decimal text JavaScript produces for a non-negative integer: digits, no leading zero. */
  function NatText(n: nat): (r: string)
    ensures |r| >= 1
    ensures forall i | 0 <= i < |r| :: IsDigit(r[i])
    ensures |r| > 1 ==> r[0] != '0'
    decreases n
  {
    if n < 10 then [DigitChar(n)] else NatText(n / 10) + [DigitChar(n % 10)]
  }

  function DigitValue(c: char): (d: nat)
    requires IsDigit(c)
    ensures d < 10
  {
    (c as int) - ('0' as int)
  }

  /** The integer a string of decimal digits denotes. */
  function DigitsValue(s: string): nat
    requires forall i | 0 <= i < |s| :: IsDigit(s[i])
    decreases |s|
  {
    if s == [] then 0
    else DigitsValue(s[..|s| - 1]) * 10 + DigitValue(s[|s| - 1])
  }

  /** Reading the decimal text of `n` back gives `n`: NatText loses no information. */
  lemma {:induction false} NatTextRoundTrip(n: nat)
    ensures DigitsValue(NatText(n)) == n
    decreases n
  {
    if n >= 10 {
      var t := NatText(n);
      assert t[..|t| - 1] == NatText(n / 10);
      NatTextRoundTrip(n / 10);
    }
  }

  /** The decimal text of an integer, with a leading '-' when negative. */
  function IntText(v: int): (r: string)
    ensures |r| >= 1
    ensures (v < 0) <==> r[0] == '-'
  {
    if v < 0 then "-" + NatText(-v) else NatText(v)
  }
}
