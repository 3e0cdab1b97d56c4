/**
 * JavaScript text and the number-to-text conversions the formatter relies on:
 * `Number.prototype.toString(radix)` and `BigInt.prototype.toString(radix)` on
 * integers, `String.prototype.toUpperCase` on their output, and
 * `String.fromCharCode`.
 */
module Numerals {

  /** A UTF-16 code unit; a JavaScript string is a sequence of these. */
  type CodeUnit = u: int | 0 <= u < 0x1_0000

  type Text = seq<CodeUnit>

  /** The digit for `d`: '0'..'9', then 'a'..'z' (or 'A'..'Z' when `upper`). */
  function Digit(d: nat, upper: bool): CodeUnit
    requires d < 36
  {
    if d < 10 then '0' as int + d
    else (if upper then 'A' as int else 'a' as int) + (d - 10)
  }

  /** The value of a digit of either case; 36 for a unit that is no digit at all. */
  function DigitValue(u: CodeUnit): nat
  {
    if '0' as int <= u <= '9' as int then u - '0' as int
    else if 'a' as int <= u <= 'z' as int then u - 'a' as int + 10
    else if 'A' as int <= u <= 'Z' as int then u - 'A' as int + 10
    else 36
  }

  /** Positional value of a digit string, most significant digit first. */
  function DigitsValue(t: Text, radix: nat): nat
  {
    if t == [] then 0 else DigitsValue(t[..|t| - 1], radix) * radix + DigitValue(t[|t| - 1])
  }

  /** The value of a numeral with an optional leading minus sign. */
  function NumeralValue(t: Text, radix: nat): int
  {
    if |t| > 0 && t[0] == '-' as int then 0 - DigitsValue(t[1..], radix) else DigitsValue(t, radix)
  }

  /** Nonempty digits of the radix, all in one case, with no leading zero. */
  predicate CanonicalDigits(t: Text, radix: nat, upper: bool)
    requires radix <= 36
  {
    && |t| >= 1
    && (forall k :: 0 <= k < |t| ==> DigitValue(t[k]) < radix && t[k] == Digit(DigitValue(t[k]), upper))
    && (|t| > 1 ==> t[0] != '0' as int)
  }

  /** A numeral as `toString(radix)` writes an integer: an optional minus sign, then
      canonical digits, and never "-0". No prefix such as "0x" or a leading "0". */
  predicate IsNumeral(t: Text, radix: nat, upper: bool)
    requires radix <= 36
  {
    if |t| > 0 && t[0] == '-' as int then CanonicalDigits(t[1..], radix, upper) && t[1..] != ['0' as int]
    else CanonicalDigits(t, radix, upper)
  }

  lemma DigitsValueSnoc(t: Text, u: CodeUnit, radix: nat)
    ensures DigitsValue(t + [u], radix) == DigitsValue(t, radix) * radix + DigitValue(u)
  {
    assert (t + [u])[..|t|] == t;
  }

  lemma DigitRoundTrip(d: nat, upper: bool)
    requires d < 36
    ensures DigitValue(Digit(d, upper)) == d
    ensures Digit(d, upper) != '-' as int
    ensures Digit(d, upper) == '0' as int <==> d == 0
  {
  }

  /** A single digit "0" is worth nothing. */
  lemma ZeroDigitsValue(radix: nat)
    ensures DigitsValue(['0' as int], radix) == 0
  {
    DigitsValueSnoc([], '0' as int, radix);
    assert [] + ['0' as int] == ['0' as int];
  }

  lemma CanonicalSnoc(high: Text, d: nat, radix: nat)
    requires 2 <= radix <= 36 && d < radix
    requires CanonicalDigits(high, radix, false) && high != ['0' as int]
    ensures CanonicalDigits(high + [Digit(d, false)], radix, false)
  {
    DigitRoundTrip(d, false);
    var t := high + [Digit(d, false)];
    forall k | 0 <= k < |t|
      ensures DigitValue(t[k]) < radix && t[k] == Digit(DigitValue(t[k]), false)
    {
      if k < |high| {
        assert t[k] == high[k];
      }
    }
  }

  lemma DivMod(n: nat, radix: nat)
    requires 2 <= radix
    ensures n / radix * radix + n % radix == n
    ensures n >= radix ==> 0 < n / radix < n
    ensures n % radix < radix
  {
    var q, r := n / radix, n % radix;
    assert n == q * radix + r && 0 <= r < radix;
    if n >= radix {
      assert q * radix > 0;
      PositiveFactor(q, radix);
      assert q * radix == q * 2 + q * (radix - 2);
      PositiveFactor(q, radix - 1);
    }
  }

  /** A product with a positive factor is positive only when the other is. */
  lemma PositiveFactor(q: int, a: int)
    requires a > 0 && q >= 0
    ensures q * a > 0 <==> q > 0
    ensures q * a >= q
  {
  }

  /** A single digit is the canonical numeral of its value. */
  lemma SingleDigit(n: nat, radix: nat)
    requires 2 <= radix <= 36 && n < radix
    ensures CanonicalDigits([Digit(n, false)], radix, false)
    ensures DigitsValue([Digit(n, false)], radix) == n
  {
    DigitRoundTrip(n, false);
    DigitsValueSnoc([], Digit(n, false), radix);
    assert [] + [Digit(n, false)] == [Digit(n, false)];
  }

  /** Appending the last digit of `n` to the numeral of `n / radix` gives the
      numeral of `n`. */
  lemma AppendDigit(high: Text, n: nat, radix: nat)
    requires 2 <= radix <= 36 && n >= radix
    requires CanonicalDigits(high, radix, false) && DigitsValue(high, radix) == n / radix
    ensures CanonicalDigits(high + [Digit(n % radix, false)], radix, false)
    ensures DigitsValue(high + [Digit(n % radix, false)], radix) == n
  {
    DivMod(n, radix);
    DigitRoundTrip(n % radix, false);
    DigitsValueSnoc(high, Digit(n % radix, false), radix);
    ZeroDigitsValue(radix);
    CanonicalSnoc(high, n % radix, radix);
  }

  /** `n` in the given radix with lower-case digits, as `toString(radix)` writes it. */
  function NatToText(n: nat, radix: nat): (t: Text)
    requires 2 <= radix <= 36
    ensures CanonicalDigits(t, radix, false)
    ensures DigitsValue(t, radix) == n
    decreases n
  {
    if n < radix then
      SingleDigit(n, radix);
      [Digit(n, false)]
    else
      DivMod(n, radix);
      var high := NatToText(n / radix, radix);
      AppendDigit(high, n, radix);
      high + [Digit(n % radix, false)]
  }

  /** `v` in the given radix, with a minus sign when negative: the text
      `Number.prototype.toString(radix)` or `BigInt.prototype.toString(radix)` gives. */
  function IntToText(v: int, radix: nat): (t: Text)
    requires 2 <= radix <= 36
    ensures IsNumeral(t, radix, false)
    ensures NumeralValue(t, radix) == v
    ensures |t| > 0 && (t[0] == '-' as int <==> v < 0)
  {
    if v < 0 then
      var digits := NatToText(-v, radix);
      ZeroDigitsValue(radix);
      var t := ['-' as int] + digits;
      assert t[1..] == digits;
      t
    else
      var t := NatToText(v, radix);
      DigitRoundTrip(DigitValue(t[0]), false);
      t
  }

  /** Canonical digits other than "0" are worth more than nothing. */
  lemma {:induction false} CanonicalPositive(t: Text, radix: nat)
    requires 2 <= radix <= 36 && CanonicalDigits(t, radix, false) && t != ['0' as int]
    ensures DigitsValue(t, radix) > 0
    decreases |t|
  {
    var last := t[|t| - 1];
    DigitRoundTrip(DigitValue(last), false);
    if |t| == 1 {
      assert t == [last];
    } else {
      var high := t[..|t| - 1];
      assert high[0] == t[0];
      assert forall k :: 0 <= k < |high| ==> high[k] == t[k];
      CanonicalPositive(high, radix);
      PositiveFactor(DigitsValue(high, radix), radix);
    }
  }

  /** A positive multiple of `a` is at least `a`. */
  lemma AtLeastOnce(x: int, a: nat)
    requires x >= 1
    ensures x * a >= a
  {
    assert x * a == (x - 1) * a + a;
  }

  /** Division by the radix takes the last digit off. */
  lemma ShiftDigit(h: nat, d: nat, radix: nat)
    requires 2 <= radix && d < radix
    ensures (h * radix + d) / radix == h && (h * radix + d) % radix == d
  {
    var n := h * radix + d;
    DivMod(n, radix);
    var q, r := n / radix, n % radix;
    assert (q - h) * radix == q * radix - h * radix;
    assert (h - q) * radix == h * radix - q * radix;
    if q > h {
      AtLeastOnce(q - h, radix);
    } else if q < h {
      AtLeastOnce(h - q, radix);
    }
  }

  /** Canonical digits are what `NatToText` writes for their value: the
      representation is unique. */
  lemma {:induction false} CanonicalIsNatToText(t: Text, radix: nat)
    requires 2 <= radix <= 36 && CanonicalDigits(t, radix, false)
    ensures NatToText(DigitsValue(t, radix), radix) == t
    decreases |t|
  {
    if |t| == 1 {
      OneCanonicalDigit(t, radix);
    } else {
      var high := t[..|t| - 1];
      assert high[0] == t[0];
      assert forall k :: 0 <= k < |high| ==> high[k] == t[k];
      CanonicalIsNatToText(high, radix);
      LastCanonicalDigit(t, radix);
    }
  }

  lemma OneCanonicalDigit(t: Text, radix: nat)
    requires 2 <= radix <= 36 && CanonicalDigits(t, radix, false) && |t| == 1
    ensures NatToText(DigitsValue(t, radix), radix) == t
  {
    var d := DigitValue(t[0]);
    assert t[..0] == [];
    assert DigitsValue(t, radix) == d;
    assert t == [Digit(d, false)];
  }

  /** The inductive step: a canonical numeral is the one written for its
      value when the numeral without its last digit is. */
  lemma LastCanonicalDigit(t: Text, radix: nat)
    requires 2 <= radix <= 36 && CanonicalDigits(t, radix, false) && |t| > 1
    requires CanonicalDigits(t[..|t| - 1], radix, false)
    requires NatToText(DigitsValue(t[..|t| - 1], radix), radix) == t[..|t| - 1]
    ensures NatToText(DigitsValue(t, radix), radix) == t
  {
    var high, last := t[..|t| - 1], t[|t| - 1];
    var d := DigitValue(last);
    assert last == Digit(d, false);
    assert high[0] == t[0];
    CanonicalPositive(high, radix);
    var h := DigitsValue(high, radix);
    var n := DigitsValue(t, radix);
    assert high + [last] == t;
    LastDigitOff(n, h, d, radix);
    AppendLastDigit(n, h, d, radix, high);
  }

  lemma AppendLastDigit(n: nat, h: nat, d: nat, radix: nat, high: Text)
    requires 2 <= radix <= 36 && n >= radix && n / radix == h && n % radix == d
    requires NatToText(h, radix) == high
    ensures NatToText(n, radix) == high + [Digit(d, false)]
  {
    NatToTextStep(n, radix);
  }

  lemma LastDigitOff(n: nat, h: nat, d: nat, radix: nat)
    requires 2 <= radix && d < radix && h >= 1 && n == h * radix + d
    ensures n >= radix && n / radix == h && n % radix == d
  {
    ShiftDigit(h, d, radix);
    AtLeastOnce(h, radix);
  }

  /** `NatToText` of a number of two digits or more: the last digit after the others. */
  lemma NatToTextStep(n: nat, radix: nat)
    requires 2 <= radix <= 36 && n >= radix
    ensures NatToText(n, radix) == NatToText(n / radix, radix) + [Digit(n % radix, false)]
  {
  }

  /** `IntToText` inverts `NumeralValue` on lower-case numerals: every
      numeral is the one `toString(radix)` writes for its value. */
  lemma NumeralRoundTrip(t: Text, radix: nat)
    requires 2 <= radix <= 36 && IsNumeral(t, radix, false)
    ensures IntToText(NumeralValue(t, radix), radix) == t
  {
    if |t| > 0 && t[0] == '-' as int {
      NegativeRoundTrip(t, radix);
    } else {
      CanonicalIsNatToText(t, radix);
    }
  }

  lemma NegativeRoundTrip(t: Text, radix: nat)
    requires 2 <= radix <= 36 && |t| > 1 && t[0] == '-' as int
    requires CanonicalDigits(t[1..], radix, false) && t[1..] != ['0' as int]
    ensures IntToText(0 - DigitsValue(t[1..], radix), radix) == t
  {
    var digits := t[1..];
    CanonicalPositive(digits, radix);
    CanonicalIsNatToText(digits, radix);
    assert ['-' as int] + digits == t;
  }

  function ToUpper(u: CodeUnit): CodeUnit
  {
    if 'a' as int <= u <= 'z' as int then u - 32 else u
  }

  /** `String.prototype.toUpperCase` on text made of ASCII characters. */
  function UpperCase(t: Text): (r: Text)
    ensures |r| == |t|
    ensures forall k :: 0 <= k < |t| ==> r[k] == ToUpper(t[k])
  {
    seq(|t|, k requires 0 <= k < |t| => ToUpper(t[k]))
  }

  lemma {:induction false} UpperCaseDigitsValue(t: Text, radix: nat)
    ensures DigitsValue(UpperCase(t), radix) == DigitsValue(t, radix)
    decreases |t|
  {
    if t != [] {
      var n := |t| - 1;
      assert UpperCase(t)[..n] == UpperCase(t[..n]);
      UpperCaseDigitsValue(t[..n], radix);
    }
  }

  /** Upper-casing canonical lower-case digits gives canonical upper-case digits. */
  lemma UpperCaseCanonical(t: Text, radix: nat)
    requires 2 <= radix <= 36
    requires CanonicalDigits(t, radix, false)
    ensures CanonicalDigits(UpperCase(t), radix, true)
  {
    var u := UpperCase(t);
    forall k | 0 <= k < |u|
      ensures DigitValue(u[k]) < radix && u[k] == Digit(DigitValue(u[k]), true)
    {
      assert t[k] == Digit(DigitValue(t[k]), false);
    }
  }

  /** Upper-casing a lower-case numeral gives the upper-case numeral of the same value. */
  lemma UpperCaseNumeral(t: Text, radix: nat)
    requires 2 <= radix <= 36
    requires IsNumeral(t, radix, false)
    ensures IsNumeral(UpperCase(t), radix, true)
    ensures NumeralValue(UpperCase(t), radix) == NumeralValue(t, radix)
    ensures |t| > 0 && (UpperCase(t)[0] == '-' as int <==> t[0] == '-' as int)
  {
    var u := UpperCase(t);
    if |t| > 0 && t[0] == '-' as int {
      assert u[1..] == UpperCase(t[1..]);
      UpperCaseCanonical(t[1..], radix);
      UpperCaseDigitsValue(t[1..], radix);
    } else {
      UpperCaseCanonical(t, radix);
      UpperCaseDigitsValue(t, radix);
    }
  }

  /** `String.fromCharCode(v)`: the one code unit `v` modulo 2^16. */
  function FromCharCode(v: int): (t: Text)
    ensures |t| == 1 && (t[0] - v) % 0x1_0000 == 0
  {
    [v % 0x1_0000]
  }
}
