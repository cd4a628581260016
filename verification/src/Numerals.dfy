/** Decimal numerals as byte strings: the common ground of the JSON number
    code and of the ASN.1 big-integer printer. */
module Numerals {
  import opened Bytes

  function Digit(d: nat): (b: byte)
    requires d < 10
    ensures IsDigit(b) && b - ZERO == d
  {
    ZERO + d
  }

  /** The decimal numeral of n, without leading zeros. */
  function Decimal(n: nat): (s: bytes)
    ensures |s| > 0 && AllDigits(s)
  {
    if n < 10 then [Digit(n)] else Decimal(n / 10) + [Digit(n % 10)]
  }

  /** The numeral of an integer. */
  function IntegerText(i: int): (t: bytes)
    ensures |t| > 0
  {
    if i < 0 then [MINUS] + Decimal(-i) else Decimal(i)
  }

  /** The number a string of digits denotes (most significant digit first). */
  function DigitsValue(s: bytes): nat
    requires AllDigits(s)
  {
    if s == [] then 0
    else
      assert IsDigit(s[|s| - 1]);
      10 * DigitsValue(s[..|s| - 1]) + (s[|s| - 1] - ZERO)
  }

  lemma {:induction false} DecimalValue(n: nat)
    ensures DigitsValue(Decimal(n)) == n
  {
    var s := Decimal(n);
    if n >= 10 {
      DecimalValue(n / 10);
      assert s[..|s| - 1] == Decimal(n / 10);
    }
  }

  lemma {:induction false} DecimalHasNoLeadingZero(n: nat)
    ensures Decimal(n)[0] == ZERO <==> n == 0
  {
    if n >= 10 {
      DecimalHasNoLeadingZero(n / 10);
    }
  }

  function Pow10(k: nat): (p: nat)
    ensures p > 0
  {
    if k == 0 then 1 else 10 * Pow10(k - 1)
  }

  /** Digits appended to a digit string shift its value left. */
  lemma {:induction false} DigitsValueConcat(s: bytes, t: bytes)
    requires AllDigits(s) && AllDigits(t)
    ensures AllDigits(s + t)
    ensures DigitsValue(s + t) == DigitsValue(s) * Pow10(|t|) + DigitsValue(t)
  {
    if t == [] {
      assert s + t == s;
    } else {
      var t' := t[..|t| - 1];
      DigitsValueConcat(s, t');
      assert (s + t)[..|s + t| - 1] == s + t';
      calc {
        DigitsValue(s + t);
        10 * DigitsValue(s + t') + (t[|t| - 1] - ZERO);
        10 * (DigitsValue(s) * Pow10(|t'|) + DigitsValue(t')) + (t[|t| - 1] - ZERO);
        { assert 10 * (DigitsValue(s) * Pow10(|t'|)) == DigitsValue(s) * (10 * Pow10(|t'|)); }
        DigitsValue(s) * Pow10(|t|) + DigitsValue(t);
      }
    }
  }
}
