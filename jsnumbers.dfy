/** The JavaScript built-ins that the time helpers rely on, for the values
    they meet there: `Number` on a string of decimal digits, `String` on an
    integer, `padStart(2, "0")`, `Math.floor`, the `%` operator and
    `toFixed(0)`. Numbers are exact reals; IEEE-754 rounding is not modelled. */
module JsNumbers {

  predicate IsDigit(c: char) {
    '0' <= c <= '9'
  }

  predicate AllDigits(s: string) {
    forall i :: 0 <= i < |s| ==> IsDigit(s[i])
  }

  function DigitChar(d: nat): (c: char)
    requires d < 10
    ensures IsDigit(c) && c as int - '0' as int == d
  {
    ('0' as int + d) as char
  }

  /** `Number(s)` for a string of decimal digits; leading zeros are allowed
      and the empty string reads as 0, as in JavaScript. */
  function DigitsValue(s: string): (n: nat)
    requires AllDigits(s)
  {
    if s == [] then 0
    else DigitsValue(s[..|s| - 1]) * 10 + (s[|s| - 1] as int - '0' as int)
  }

  /** `String(n)` for a natural number: its decimal digits, with no leading
      zero (NatToStringReadsBack shows they read back as `n`). */
  function NatToString(n: nat): (s: string)
    ensures 1 <= |s|
  {
    if n < 10 then [DigitChar(n)] else NatToString(n / 10) + [DigitChar(n % 10)]
  }

  /** `Number(String(n)) == n`, and only 0 is written with a leading zero. */
  lemma {:induction false} NatToStringReadsBack(n: nat)
    ensures AllDigits(NatToString(n))
    ensures DigitsValue(NatToString(n)) == n
    ensures NatToString(n)[0] == '0' ==> n == 0
  {
    if n >= 10 {
      var prefix := NatToString(n / 10);
      var s := prefix + [DigitChar(n % 10)];
      NatToStringReadsBack(n / 10);
      assert s[..|s| - 1] == prefix;
    }
  }

  /** `String(i)` (or a template literal) for an integer. */
  function IntToString(i: int): string {
    if i < 0 then "-" + NatToString(-i) else NatToString(i)
  }

  /** `s.padStart(2, "0")`: zeros in front up to length 2. */
  function PadStart2(s: string): (r: string)
    ensures |r| == if |s| < 2 then 2 else |s|
  {
    if |s| >= 2 then s else if |s| == 1 then "0" + s else "00"
  }

  /** Padding keeps `s` as the suffix, adds only zeros, and so keeps the
      number a digit string reads as. */
  lemma PadStart2Spec(s: string)
    ensures PadStart2(s)[|PadStart2(s)| - |s|..] == s
    ensures forall i :: 0 <= i < |PadStart2(s)| - |s| ==> PadStart2(s)[i] == '0'
    ensures AllDigits(s) ==> AllDigits(PadStart2(s)) && DigitsValue(PadStart2(s)) == DigitsValue(s)
  {
    LeadingZeroIgnored(s);
    LeadingZeroIgnored("0" + s);
    if |s| == 0 {
      assert "0" + ("0" + s) == "00";
    }
  }

  lemma {:induction false} LeadingZeroIgnored(s: string)
    ensures AllDigits(s) ==> DigitsValue("0" + s) == DigitsValue(s)
  {
    if AllDigits(s) && s != [] {
      var t := "0" + s;
      assert t[..|t| - 1] == "0" + s[..|s| - 1];
      LeadingZeroIgnored(s[..|s| - 1]);
    } else if AllDigits(s) {
      assert "0" + s == "0";
      assert "0"[..0] == [];
    }
  }

  /** `Math.floor(x)`: the greatest integer not above `x`. */
  function Floor(x: real): (n: int)
    ensures n as real <= x < n as real + 1.0
  {
    x.Floor
  }

  /** Truncation toward zero, as JavaScript's `%` rounds its quotient. */
  function Truncate(x: real): (n: int)
    ensures x >= 0.0 ==> n as real <= x < n as real + 1.0
    ensures x < 0.0 ==> n as real - 1.0 < x <= n as real
  {
    if x >= 0.0 then x.Floor else -((-x).Floor)
  }

  /** `x % 60` on numbers: the remainder of the quotient truncated toward
      zero, so it takes the sign of `x`. (The time helpers only ever divide
      by 60.) */
  function Remainder60(x: real): (r: real)
    ensures x >= 0.0 ==> 0.0 <= r < 60.0
    ensures x < 0.0 ==> -60.0 < r <= 0.0
    ensures ((x - r) / 60.0).Floor as real == (x - r) / 60.0
  {
    var q := Truncate(x / 60.0);
    assert (x - (x - 60.0 * q as real)) / 60.0 == q as real;
    x - 60.0 * q as real
  }

  /** The integer `toFixed(0)` picks for a non-negative `y`: the nearest one,
      the larger of two equally near. */
  function RoundHalfUp(y: real): (n: nat)
    requires y >= 0.0
    ensures y - 0.5 < n as real <= y + 0.5
  {
    (y + 0.5).Floor
  }

  /** `x.toFixed(0)` for |x| below 10^21: a minus sign for negative `x`,
      then the magnitude rounded half up. */
  function ToFixed0(x: real): string {
    if x < 0.0 then "-" + NatToString(RoundHalfUp(-x)) else NatToString(RoundHalfUp(x))
  }
}
