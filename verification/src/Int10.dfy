/** Int10: a non-negative big integer in limbs of thirteen decimal digits, in numbers that
    are IEEE doubles (exact up to 2^53). */
module Int10Numbers {
  import opened Bytes
  import opened Numerals

  const LIMB := 10_000_000_000_000
  const LIMB_DIGITS := 13
  const EXACT := 0x20_0000_0000_0000

  // ---------------------------------------------------------------- limbs

  /** The number the limbs stand for, the least significant limb first. */
  function LimbsValue(b: seq<int>): int {
    if b == [] then 0 else b[0] + LIMB * LimbsValue(b[1..])
  }

  predicate AreLimbs(b: seq<int>) {
    forall k :: 0 <= k < |b| ==> 0 <= b[k] < LIMB
  }

  /** What a limb times m plus a carry leaves in the limb, and what it carries on. */
  function Low(limb: nat, m: nat, c: nat): nat {
    (limb * m + c) % LIMB
  }

  function High(limb: nat, m: nat, c: nat): nat {
    (limb * m + c) / LIMB
  }

  /** The limbs of b times m plus the carry c. */
  function MulAddLimbs(b: seq<int>, m: nat, c: nat): seq<int>
    requires AreLimbs(b)
  {
    if b == [] then (if c > 0 then [c] else [])
    else [Low(b[0], m, c)] + MulAddLimbs(b[1..], m, High(b[0], m, c))
  }

  lemma CarryBound(limb: nat, m: nat, c: nat)
    requires limb < LIMB && 1 <= m <= 256 && c <= 255
    ensures limb * m + c < 256 * LIMB < EXACT && (limb * m + c) / LIMB <= 255
  {
    TimesAtMost(limb, m);
    DividedAtMost(limb * m + c);
  }

  lemma TimesAtMost(limb: nat, m: nat)
    requires limb < LIMB && 1 <= m <= 256
    ensures 0 <= limb * m <= (LIMB - 1) * 256
  {
    Product(limb, m);
    Product(LIMB - 1 - limb, m);
    assert (LIMB - 1 - limb) * m == (LIMB - 1) * m - limb * m;
  }

  lemma Product(x: nat, y: nat)
    ensures x * y >= 0
  {
  }

  lemma DividedAtMost(t: nat)
    requires t < 256 * LIMB
    ensures t / LIMB <= 255
  {
  }

  lemma {:induction false} MulAddValue(b: seq<int>, m: nat, c: nat)
    requires AreLimbs(b) && 1 <= m <= 256 && c <= 255
    ensures var r := MulAddLimbs(b, m, c);
      LimbsValue(r) == LimbsValue(b) * m + c && AreLimbs(r) && |b| <= |r| <= |b| + 1
    ensures var r := MulAddLimbs(b, m, c);
      |r| > |b| || (b != [] && b[|b| - 1] > 0) ==> r[|r| - 1] > 0
  {
    hide Low, High;
    if b != [] {
      StepBound(b[0], m, c);
      MulAddValue(b[1..], m, High(b[0], m, c));
      LowLimb(b[0], LimbsValue(b[1..]), m, c);
      assert MulAddLimbs(b, m, c)[1..] == MulAddLimbs(b[1..], m, High(b[0], m, c));
    }
  }

  lemma StepBound(limb: nat, m: nat, c: nat)
    requires limb < LIMB && 1 <= m <= 256 && c <= 255
    ensures Low(limb, m, c) < LIMB && High(limb, m, c) <= 255
    ensures limb > 0 && High(limb, m, c) == 0 ==> Low(limb, m, c) > 0
  {
    CarryBound(limb, m, c);
    if limb > 0 { assert limb * m >= limb; }
  }

  lemma LowLimb(limb: nat, high: int, m: nat, c: nat)
    ensures Low(limb, m, c) + LIMB * (high * m + High(limb, m, c)) == (limb + LIMB * high) * m + c
  {
    var t := limb * m + c;
    assert LIMB * (t / LIMB) + t % LIMB == t;
    assert LIMB * (high * m) == (LIMB * high) * m;
    assert (limb + LIMB * high) * m == limb * m + (LIMB * high) * m;
  }

  // ---------------------------------------------------------------- division of doubles

  /** x is t / LIMB rounded to a double: exact when the quotient is an integer, and off by at
      most one part in 2^53 otherwise. */
  predicate Rounded(t: nat, x: real) {
    && (t % LIMB == 0 ==> x == (t / LIMB) as real)
    && -(t as real) <= (x * LIMB as real - t as real) * EXACT as real <= t as real
  }

  /** Truncating the rounded quotient gives the integer quotient. */
  lemma TruncationIsExact(t: nat, x: real)
    requires t < 256 * LIMB && Rounded(t, x)
    ensures x.Floor == t / LIMB
  {
    var q, r := t / LIMB, t % LIMB;
    assert t as real == q as real * LIMB as real + r as real;
  }

  lemma ExactIsRounded(t: nat)
    ensures Rounded(t, t as real / LIMB as real)
  {
    if t % LIMB == 0 {
      assert t as real == (t / LIMB) as real * LIMB as real;
    }
  }

  /** 0|(t / max): whatever double the division gives, its integer part is the quotient. */
  method TruncatedQuotient(t: nat) returns (c: nat)
    requires t < 256 * LIMB
    ensures c == t / LIMB
  {
    ExactIsRounded(t);
    var x: real :| Rounded(t, x);
    TruncationIsExact(t, x);
    c := x.Floor;
  }

  // ---------------------------------------------------------------- printing

  /** The thirteen digits of a limb: (max + limb).toString().substring(1). */
  function PaddedLimb(limb: int): bytes
    requires 0 <= limb < LIMB
  {
    Decimal(LIMB + limb)[1..]
  }

  lemma {:induction false} DecimalShift(v: nat, low: nat, k: nat)
    requires v > 0 && low < Pow10(k)
    ensures Decimal(v * Pow10(k) + low) == Decimal(v) + Decimal(Pow10(k) + low)[1..]
  {
    hide Decimal;
    if k == 0 {
      OneDigit();
      assert Decimal(v) + [] == Decimal(v);
    } else {
      var p := Pow10(k - 1);
      var n, one := v * Pow10(k) + low, Pow10(k) + low;
      ShiftParts(v, low, p);
      ShiftParts(1, low, p);
      DecimalShift(v, low / 10, k - 1);
      TailOfSum(Decimal(one / 10), Decimal(v), [Digit(low % 10)]);
    }
  }

  lemma OneDigit()
    ensures Decimal(1) == [Digit(1)]
  {
  }

  /** The numeral of v * 10p + low, by its last digit. */
  lemma ShiftParts(v: nat, low: nat, p: nat)
    requires v > 0 && p > 0
    ensures var n := v * (10 * p) + low;
      n >= 10 && n / 10 == v * p + low / 10 && Decimal(n) == Decimal(n / 10) + [Digit(low % 10)]
  {
    hide Decimal;
    var q := v * p;
    assert v * (10 * p) == 10 * q;
    Product(v - 1, p);
    assert (v - 1) * p == q - p;
    LastDigitOf(10 * q + low, low % 10);
  }

  lemma {:induction false} LastDigitOf(n: nat, d: nat)
    requires n >= 10 && d < 10 && n % 10 == d
    ensures Decimal(n) == Decimal(n / 10) + [Digit(d)]
  {
  }

  lemma TailOfSum(a: bytes, v: bytes, d: bytes)
    requires a != []
    ensures v + (a + d)[1..] == v + a[1..] + d
  {
  }

  lemma LimbIsPow10()
    ensures Pow10(LIMB_DIGITS) == LIMB
  {
    assert Pow10(5) == 10_0000 by { assert Pow10(2) == 100; }
    assert Pow10(8) == 1000 * Pow10(5);
    assert Pow10(11) == 1000 * Pow10(8);
    assert Pow10(13) == 100 * Pow10(11);
  }

  lemma LimbAppended(v: nat, limb: nat)
    requires v > 0 && limb < LIMB
    ensures Decimal(v * LIMB + limb) == Decimal(v) + PaddedLimb(limb)
  {
    hide Decimal, Pow10;
    LimbIsPow10();
    DecimalShift(v, limb, LIMB_DIGITS);
  }

  lemma {:induction false} LimbsPositive(b: seq<int>)
    requires AreLimbs(b) && b != [] && b[|b| - 1] > 0
    ensures LimbsValue(b) > 0
  {
    if |b| > 1 { LimbsPositive(b[1..]); }
  }

  lemma LimbsStep(b: seq<int>, k: nat)
    requires k < |b|
    ensures LimbsValue(b[k..]) == b[k] + LIMB * LimbsValue(b[k + 1..])
    ensures k + 1 == |b| ==> LimbsValue(b[k..]) == b[k]
  {
    assert b[k..][1..] == b[k + 1..];
  }

  // ---------------------------------------------------------------- the class

  class Int10 {
    var buf: seq<int>

    /** Limbs without a leading zero limb, or one negative limb. */
    ghost predicate Valid()
      reads this
    {
      && buf != []
      && (AreLimbs(buf) || (|buf| == 1 && -EXACT <= buf[0] < 0))
      && (|buf| > 1 ==> buf[|buf| - 1] > 0)
    }

    ghost function Value(): int
      reads this
    {
      LimbsValue(buf)
    }

    constructor (value: int)
      requires -EXACT <= value < LIMB
      ensures Valid() && Value() == value
    {
      buf := [value];
      new;
      OneLimbValue(buf);
    }

    /** The number becomes m times itself plus c. The product of a negative number must stay within
        the exact range of a double, as it is never split into limbs. */
    method MulAdd(m: nat, c0: nat)
      requires Valid() && 1 <= m <= 256 && c0 <= 255
      requires -EXACT <= Value() * m
      modifies this
      ensures Valid() && Value() == old(Value()) * m + c0
    {
      hide MulAddLimbs, LimbsValue, Low, High;
      if buf[0] < 0 {
        MulAddNegative(m, c0);
        return;
      }
      ghost var was := buf;
      ghost var whole := MulAddLimbs(was, m, c0);
      MulAddValue(was, m, c0);
      MulAddEnds(was, m, c0);
      var b, l, c, i := buf, |buf|, c0, 0;
      while i < l
        invariant 0 <= i <= l == |b| == |was| && 0 <= c <= 255 && b[i..] == was[i..]
        invariant b[..i] + MulAddLimbs(was[i..], m, c) == whole
      {
        MulAddStep(b, was, i, m, c);
        var t;
        t, c := LimbTimes(b[i], m, c);
        b := b[i := t];
        i := i + 1;
      }
      MulAddEnds(was, m, c);
      assert b[..i] == b;
      if c > 0 { b := b + [c]; }
      assert b == whole;
      buf := b;
    }

    /** The body of the loop: what stays in the limb, and the carry. No number reaches 2^53. */
    static method LimbTimes(limb: nat, m: nat, c: nat) returns (t: nat, carry: nat)
      requires limb < LIMB && 1 <= m <= 256 && c <= 255
      ensures t == Low(limb, m, c) && carry == High(limb, m, c) && carry <= 255
    {
      CarryBound(limb, m, c);
      t := limb * m + c;
      assert t < EXACT;
      if t < LIMB { return t, 0; }
      carry := TruncatedQuotient(t);
      t := t - carry * LIMB;
    }

    lemma {:induction false} MulAddEnds(was: seq<int>, m: nat, c: nat)
      requires AreLimbs(was)
      ensures [] + MulAddLimbs(was[0..], m, c) == MulAddLimbs(was, m, c)
      ensures MulAddLimbs(was[|was|..], m, c) == if c > 0 then [c] else []
    {
      assert was[0..] == was;
    }

    lemma {:induction false} MulAddStep(b: seq<int>, was: seq<int>, i: nat, m: nat, c: nat)
      requires i < |was| == |b| && AreLimbs(was) && b[i..] == was[i..]
      ensures b[i] == was[i]
      ensures var b' := b[i := Low(was[i], m, c)];
        && b[..i] + MulAddLimbs(was[i..], m, c) == b'[..i + 1] + MulAddLimbs(was[i + 1..], m, High(was[i], m, c))
        && b'[i + 1..] == was[i + 1..]
    {
      hide Low, High;
      assert b[i] == b[i..][0] && was[i] == was[i..][0];
      assert was[i..][1..] == was[i + 1..];
      assert b[i := Low(was[i], m, c)][i + 1..] == b[i..][1..];
    }

    lemma {:induction false} OneLimbValue(b: seq<int>)
      requires |b| == 1
      ensures LimbsValue(b) == b[0]
    {
      assert b[1..] == [];
    }

    /** The same loop on the one limb of a negative number: t < max, so nothing is carried. */
    method MulAddNegative(m: nat, c0: nat)
      requires Valid() && buf[0] < 0 && 1 <= m <= 256 && c0 <= 255
      requires -EXACT <= Value() * m
      modifies this
      ensures Valid() && Value() == old(Value()) * m + c0
    {
      hide LimbsValue;
      OneLimbValue(buf);
      var t := buf[0] * m + c0;
      assert buf[0] * m <= -1;
      buf := [t];
      OneLimbValue(buf);
    }

    /** toString in base 10. */
    method ToString() returns (s: bytes)
      requires Valid()
      ensures s == IntegerText(Value())
    {
      hide Decimal, LimbsValue, PaddedLimb;
      var b := buf;
      LimbsStep(b, |b| - 1);
      s := IntegerText(b[|b| - 1]);
      var i := |b| - 1;
      while i > 0
        invariant 0 <= i < |b| && b == buf && s == IntegerText(LimbsValue(b[i..]))
        invariant |b| > 1 ==> LimbsValue(b[i..]) > 0
      {
        i := i - 1;
        LimbsStep(b, i);
        LimbAppended(LimbsValue(b[i + 1..]), b[i]);
        s := s + PaddedLimb(b[i]);
      }
      assert b[0..] == b;
    }

    /** valueOf, as far as a double is exact. */
    method ValueOf() returns (v: int)
      requires Valid() && Value() <= EXACT
      ensures v == Value()
    {
      var b := buf;
      v := 0;
      var i := |b|;
      assert b[|b|..] == [];
      while i > 0
        invariant 0 <= i <= |b| && b == buf && v == LimbsValue(b[i..])
      {
        i := i - 1;
        LimbsStep(b, i);
        v := v * LIMB + b[i];
      }
      assert b[0..] == b;
    }

    /** simplify: a number when one limb is enough, the object itself otherwise. */
    method Simplify() returns (isNumber: bool, n: int)
      requires Valid()
      ensures isNumber <==> Value() < LIMB
      ensures isNumber ==> n == Value()
    {
      isNumber, n := |buf| == 1, buf[0];
      LimbsStep(buf, 0);
      assert buf[0..] == buf;
      if |buf| > 1 { LimbsPositive(buf[1..]); }
    }
  }

  /** A number is below the limb size exactly when one limb holds it, and its numeral has no
      leading zero. */
  lemma {:induction false} ToStringIsNumeral(b: seq<int>)
    requires AreLimbs(b) && b != [] && (|b| > 1 ==> b[|b| - 1] > 0)
    ensures LimbsValue(b) >= 0 && DigitsValue(Decimal(LimbsValue(b))) == LimbsValue(b)
    ensures Decimal(LimbsValue(b))[0] == ZERO <==> LimbsValue(b) == 0
  {
    if |b| > 1 { LimbsPositive(b); } else { LimbsStep(b, 0); assert b[0..] == b; }
    DecimalValue(LimbsValue(b));
    DecimalHasNoLeadingZero(LimbsValue(b));
  }

  /** The limbs are numbers below 10^13, the largest power whose products with 256 stay exact in a double. */
  lemma LimbsAreExact()
    ensures LIMB == 10_000_000_000_000 && EXACT == 9_007_199_254_740_992
    ensures 256 * LIMB < EXACT <= 256 * (10 * LIMB)
    ensures Pow10(LIMB_DIGITS) == LIMB
  {
    assert Pow10(5) == 10_0000 by { assert Pow10(2) == 100; }
    assert Pow10(10) == 10_0000 * Pow10(5) by { assert Pow10(8) == 1000 * Pow10(5); }
    assert Pow10(13) == 1000 * Pow10(10);
  }
}
