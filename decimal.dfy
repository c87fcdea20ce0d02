/**
  The part of Python's `float(text)` the migration relies on: an optional
  sign and a decimal numeral with at most one point, surrounded by optional
  whitespace.  The value is the exact rational the numeral denotes.
*/
module Decimal {
  import opened Wrappers
  import opened Text

  predicate IsDigit(c: char) {
    '0' <= c <= '9'
  }

  predicate AllDigits(s: string) {
    forall k | 0 <= k < |s| :: IsDigit(s[k])
  }

  function DigitValue(c: char): nat
    requires IsDigit(c)
  {
    c as int - '0' as int
  }

  /** The number a run of decimal digits denotes (0 for no digits). */
  function DigitsValue(s: string): nat
    requires AllDigits(s)
    decreases |s|
  {
    if |s| == 0 then 0 else DigitsValue(s[..|s| - 1]) * 10 + DigitValue(s[|s| - 1])
  }

  function Pow10(n: nat): (p: nat)
    ensures p > 0
  {
    if n == 0 then 1 else 10 * Pow10(n - 1)
  }

  /** The value of the numeral with integer digits `whole` and fraction digits `frac`. */
  function NumeralValue(whole: string, frac: string): real
    requires AllDigits(whole) && AllDigits(frac)
  {
    DigitsValue(whole) as real + DigitsValue(frac) as real / Pow10(|frac|) as real
  }

  /**
    An unsigned numeral: digits, optionally followed by a point and more
    digits, with at least one digit in all ("12", "12.", ".5", "12.5").
  */
  function ParseUnsigned(s: string): Option<real> {
    var i := IndexOf(s, '.');
    var whole := s[..i];
    var frac := if i < |s| then s[i + 1..] else [];
    if AllDigits(whole) && AllDigits(frac) && |whole| + |frac| > 0 then
      Some(NumeralValue(whole, frac))
    else None
  }

  /** `float(text)` on the numerals above, with an optional sign, after `strip()`. */
  function ParseFloat(text: string): Option<real> {
    var t := Strip(text);
    if |t| > 0 && t[0] == '-' then
      match ParseUnsigned(t[1..])
      case Some(x) => Some(-x)
      case None => None
    else if |t| > 0 && t[0] == '+' then ParseUnsigned(t[1..])
    else ParseUnsigned(t)
  }

  /**
    The numerals `ParseUnsigned` accepts are exactly the strings made of
    digits and at most one point that hold at least one digit.
  */
  lemma ParseUnsignedAccepts(s: string)
    ensures ParseUnsigned(s).Some? <==>
      && (forall k | 0 <= k < |s| :: IsDigit(s[k]) || s[k] == '.')
      && (forall j, k | 0 <= j < k < |s| :: !(s[j] == '.' && s[k] == '.'))
      && (exists k | 0 <= k < |s| :: IsDigit(s[k]))
  {
    var i := IndexOf(s, '.');
    var whole := s[..i];
    var frac := if i < |s| then s[i + 1..] else [];
    assert forall k | 0 <= k < i :: s[k] == whole[k];
    assert forall k | i < k < |s| :: s[k] == frac[k - i - 1];
    if ParseUnsigned(s).Some? {
      assert |whole| > 0 ==> IsDigit(s[0]);
      assert |whole| == 0 ==> IsDigit(s[i + 1]);
    }
  }

  /** A numeral written as digits, a point and digits is read back as its value. */
  lemma ParseNumeral(whole: string, frac: string)
    requires AllDigits(whole) && AllDigits(frac) && |whole| + |frac| > 0
    ensures ParseUnsigned(whole + "." + frac) == Some(NumeralValue(whole, frac))
  {
    var s := whole + "." + frac;
    assert IndexOf(s, '.') == |whole| by {
      assert s[|whole|] == '.';
      assert s[..|whole|] == whole;
    }
    assert s[..|whole|] == whole;
    assert s[|whole| + 1..] == frac;
  }

  /** A numeral, signed or not, has no surrounding whitespace for `strip()` to remove. */
  lemma NumeralStripped(whole: string, frac: string)
    requires AllDigits(whole) && AllDigits(frac)
    ensures Strip(whole + "." + frac) == whole + "." + frac
    ensures Strip("-" + whole + "." + frac) == "-" + whole + "." + frac
  {
    var s := whole + "." + frac;
    var n := "-" + s;
    assert !IsSpace(s[0]) && !IsSpace(s[|s| - 1]) by {
      assert |whole| > 0 ==> s[0] == whole[0];
      assert |frac| > 0 ==> s[|s| - 1] == frac[|frac| - 1];
    }
    StripUnchanged(s);
    assert n[|n| - 1] == s[|s| - 1];
    StripUnchanged(n);
    assert "-" + whole + "." + frac == n;
  }

  /** `float()` reads a numeral back as its value. */
  lemma ParseFloatNumeral(whole: string, frac: string)
    requires AllDigits(whole) && AllDigits(frac) && |whole| + |frac| > 0
    ensures ParseFloat(whole + "." + frac) == Some(NumeralValue(whole, frac))
  {
    var s := whole + "." + frac;
    ParseNumeral(whole, frac);
    NumeralStripped(whole, frac);
    assert |whole| > 0 ==> s[0] == whole[0];
  }

  /** After a minus sign, `float()` reads a numeral as its negated value. */
  lemma ParseFloatNegative(whole: string, frac: string)
    requires AllDigits(whole) && AllDigits(frac) && |whole| + |frac| > 0
    ensures ParseFloat("-" + whole + "." + frac) == Some(-NumeralValue(whole, frac))
  {
    var s := whole + "." + frac;
    ParseNumeral(whole, frac);
    NumeralStripped(whole, frac);
    assert ("-" + s)[1..] == s;
    assert "-" + whole + "." + frac == "-" + s;
  }
}
