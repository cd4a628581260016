/** The byte stream of the ASN.1 decoder, and its printers of integers and object identifiers. */
module Asn1Numbers {
  import opened Answers
  import opened Bytes
  import opened Numerals
  import opened Int10Numbers

  // ---------------------------------------------------------------- two's complement

  function Pow256(k: nat): (p: nat)
    ensures p > 0
  {
    if k == 0 then 1 else 256 * Pow256(k - 1)
  }

  /** The octets as an unsigned number, most significant first. */
  function Unsigned(c: bytes): nat {
    if c == [] then 0 else 256 * Unsigned(c[..|c| - 1]) + c[|c| - 1]
  }

  /** The octets behind a sign bit `neg` that may have been dropped. */
  function Signed(neg: bool, c: bytes): int {
    Unsigned(c) - if neg then Pow256(|c|) else 0
  }

  /** The value of the contents octets of an integer (X.690 section 8.3.3). */
  function TwosComplement(c: bytes): int {
    Signed(c != [] && c[0] > 127, c)
  }

  /** The octet that only repeats the sign. */
  function Pad(neg: bool): byte {
    if neg then 255 else 0
  }

  lemma {:induction false} UnsignedFirst(c: bytes)
    requires c != []
    ensures Unsigned(c) == c[0] * Pow256(|c| - 1) + Unsigned(c[1..])
    decreases |c|
  {
    if |c| > 1 {
      var init := c[..|c| - 1];
      UnsignedFirst(init);
      assert init[1..] == c[1..][..|c| - 2];
      assert c[1..][|c| - 2] == c[|c| - 1];
      assert 256 * (c[0] * Pow256(|c| - 2)) == c[0] * (256 * Pow256(|c| - 2));
    } else {
      assert c[1..] == [] && c[..0] == [];
    }
  }

  lemma {:induction false} UnsignedBound(c: bytes)
    ensures Unsigned(c) < Pow256(|c|)
  {
    if c != [] { UnsignedBound(c[..|c| - 1]); }
  }

  /** An octet that repeats the sign does not change the value. */
  lemma SkipPad(neg: bool, c: bytes)
    requires c != [] && c[0] == Pad(neg)
    ensures Signed(neg, c) == Signed(neg, c[1..])
  {
    UnsignedFirst(c);
    assert |c[1..]| == |c| - 1;
  }

  lemma SignedStep(neg: bool, c: bytes, b: byte)
    ensures Signed(neg, c + [b]) == Signed(neg, c) * 256 + b
  {
    assert (c + [b])[..|c|] == c;
  }

  lemma SignedOne(neg: bool, b: byte)
    ensures Signed(neg, [b]) == b - (if neg then 256 else 0)
  {
    SignedStep(neg, [], b);
    assert [] + [b] == [b];
  }

  /** More octets only take a negative number further down. */
  lemma {:induction false} SignedPrefix(neg: bool, c: bytes, i: nat)
    requires i <= |c|
    ensures Signed(false, c[..i]) >= 0
    ensures Signed(true, c[..i]) < 0 && Signed(true, c) <= Signed(true, c[..i])
    decreases |c| - i
  {
    UnsignedBound(c[..i]);
    if i == |c| {
      assert c[..i] == c;
    } else {
      assert c[..i + 1] == c[..i] + [c[i]];
      SignedStep(true, c[..i], c[i]);
      SignedPrefix(neg, c, i + 1);
    }
  }

  // ---------------------------------------------------------------- bit lengths

  function Pow2(k: nat): (p: nat)
    ensures p > 0
  {
    if k == 0 then 1 else 2 * Pow2(k - 1)
  }

  predicate InRange(n: int, bits: nat) {
    0 - Pow2(bits) <= n < Pow2(bits)
  }

  /** The least number of bits behind the sign bit that hold n. */
  function BitLength(n: int): nat
    decreases if n < 0 then -n else n
  {
    if n == 0 || n == -1 then 0 else 1 + BitLength(n / 2)
  }

  lemma {:induction false} BitLengthIsLeast(n: int)
    ensures InRange(n, BitLength(n)) && (BitLength(n) > 0 ==> !InRange(n, BitLength(n) - 1))
    decreases if n < 0 then -n else n
  {
    if n != 0 && n != -1 {
      BitLengthIsLeast(n / 2);
      if BitLength(n / 2) > 0 { assert Pow2(BitLength(n) - 1) == 2 * Pow2(BitLength(n / 2) - 1); }
    }
  }

  lemma {:induction false} RangesNest(n: int, k: nat, m: nat)
    requires k <= m && InRange(n, k)
    ensures InRange(n, m)
    decreases m - k
  {
    if k < m { RangesNest(n, k + 1, m); }
  }

  lemma {:induction false} LeastIsUnique(n: int, bits: nat)
    requires InRange(n, bits) && (bits > 0 ==> !InRange(n, bits - 1))
    ensures bits == BitLength(n)
  {
    BitLengthIsLeast(n);
    if bits < BitLength(n) { RangesNest(n, bits, BitLength(n) - 1); }
    if BitLength(n) < bits { RangesNest(n, BitLength(n), bits - 1); }
  }

  lemma {:induction false} Pow2Split(j: nat, k: nat)
    ensures Pow2(j + k) == Pow2(j) * Pow2(k)
  {
    Pow2Step(j);
    if j > 0 {
      Pow2Step(j + k);
      hide Pow2;
      Pow2Split(j - 1, k);
      TwiceProduct(Pow2(j - 1), Pow2(k));
    }
  }

  lemma Pow2Step(k: nat)
    ensures Pow2(k) == if k == 0 then 1 else 2 * Pow2(k - 1)
  {
  }

  lemma TwiceProduct(a: nat, b: nat)
    ensures 2 * (a * b) == (2 * a) * b
  {
  }

  lemma {:induction false} Pow256IsPow2(k: nat)
    ensures Pow256(k) == Pow2(8 * k)
  {
    if k > 0 {
      Pow256IsPow2(k - 1);
      Pow2Split(8, 8 * (k - 1));
      EightBits();
    }
  }

  lemma EightBits()
    ensures Pow2(8) == 256
  {
    assert Pow2(4) == 16;
    assert Pow2(8) == 16 * Pow2(4);
  }

  /** The first octet as a magnitude: its bits as they differ from the sign. */
  function Magnitude(neg: bool, v: byte): nat {
    if neg then 255 - v else v
  }

  /** The bit length by the first significant octet: eight bits for each octet, less the
      leading bits of the first one that repeat the sign. */
  lemma BitsOfOctets(neg: bool, c: bytes, k: nat)
    requires c != [] && k < 8 && Pow2(7 - k) <= Magnitude(neg, c[0]) < Pow2(8 - k)
    ensures BitLength(Signed(neg, c)) == 8 * |c| - k
  {
    hide Pow256, Pow2, BitLength, Unsigned;
    var p, w, rest := Pow256(|c| - 1), Magnitude(neg, c[0]), Unsigned(c[1..]);
    UnsignedFirst(c);
    UnsignedBound(c[1..]);
    Pow256IsPow2(|c| - 1);
    Pow2Split(8 - k, 8 * (|c| - 1));
    Pow2Split(7 - k, 8 * (|c| - 1));
    Pow256Step(|c|);
    var r := if neg then p - 1 - rest else rest;
    Scaled(w, Pow2(7 - k), Pow2(8 - k), p, r);
    FromMagnitude(neg, c[0], p, rest);
    LeastIsUnique(Signed(neg, c), 8 * |c| - k);
  }

  lemma Pow256Step(k: nat)
    requires k > 0
    ensures Pow256(k) == 256 * Pow256(k - 1)
  {
  }

  lemma FromMagnitude(neg: bool, v: byte, p: nat, rest: nat)
    requires rest < p
    ensures v * p + rest - (if neg then 256 * p else 0)
      == if neg then -1 - (Magnitude(neg, v) * p + (p - 1 - rest)) else Magnitude(neg, v) * p + rest
  {
    if neg {
      var w := Magnitude(neg, v);
      assert v == 255 - w;
      assert (255 - w) * p == 255 * p - w * p;
    }
  }

  lemma Scaled(w: nat, low: nat, high: nat, p: nat, rest: nat)
    requires low <= w < high && rest < p
    ensures low * p <= w * p + rest < high * p
  {
    assert low * p <= w * p by { Product(w - low, p); assert (w - low) * p == w * p - low * p; }
    assert w * p + p <= high * p by {
      Product(high - 1 - w, p);
      assert (high - 1 - w) * p == high * p - p - w * p;
    }
  }

  // ---------------------------------------------------------------- integers

  const BIT_NOTE: bytes := [SPACE, 98, 105, 116, RPAREN, LF]

  /** An integer as it is shown: its numeral, behind its bit length when that is above 32. */
  function ShownInteger(n: int): bytes {
    (if BitLength(n) > 32 then [LPAREN] + Decimal(BitLength(n)) + BIT_NOTE else []) + IntegerText(n)
  }

  /** Whether bit 7 of s differs from the sign. */
  predicate TopBitDiffers(s: nat, neg: bool) {
    (s / 128) % 2 != if neg then 1 else 0
  }

  lemma TopBit(neg: bool, v: byte, k: nat)
    requires k < 8 && Magnitude(neg, v) < Pow2(8 - k)
    ensures TopBitDiffers(v * Pow2(k), neg) <==> Magnitude(neg, v) >= Pow2(7 - k)
  {
    EightBits();
    assert Pow2(0) == 1 && Pow2(1) == 2 && Pow2(2) == 4 && Pow2(3) == 8;
    assert Pow2(4) == 16 && Pow2(5) == 32 && Pow2(6) == 64 && Pow2(7) == 128;
  }

  // ---------------------------------------------------------------- object identifiers

  /** The subidentifiers of the contents octets, with n read so far of the next one, and
      whether the octets end within one. */
  function Subidentifiers(c: bytes, n: nat, open: bool): (seq<nat>, bool) {
    if c == [] then ([], open)
    else
      var m := n * 128 + c[0] % 128;
      if c[0] < 128 then
        var rest := Subidentifiers(c[1..], 0, false);
        ([m] + rest.0, rest.1)
      else Subidentifiers(c[1..], m, true)
  }

  const INCOMPLETE: bytes := [DOT, 105, 110, 99, 111, 109, 112, 108, 101, 116, 101]

  function FirstArc(n: nat): (m: nat)
    ensures m * 40 <= n
  {
    if n < 80 then (if n < 40 then 0 else 1) else 2
  }

  /** The two arcs of the first subidentifier (X.690 section 8.19.4). */
  function FirstArcs(n: nat): bytes {
    Decimal(FirstArc(n)) + [DOT] + Decimal(n - FirstArc(n) * 40)
  }

  function DottedTail(ids: seq<nat>): bytes {
    if ids == [] then [] else [DOT] + Decimal(ids[0]) + DottedTail(ids[1..])
  }

  function Dotted(ids: seq<nat>): bytes {
    if ids == [] then [] else FirstArcs(ids[0]) + DottedTail(ids[1..])
  }

  /** maxLength of the printers. */
  datatype Limit = Infinity | AtMost(n: nat)

  /** A text, or its beginning with an ellipsis behind it. */
  datatype Shown = Full(s: bytes) | Cut(s: bytes)

  predicate Exceeds(s: bytes, max: Limit) {
    max.AtMost? && |s| > max.n
  }

  /** What parseOID shows of contents octets inside the stream. */
  function ShownOid(c: bytes, max: Limit): Shown {
    var (ids, open) := Subidentifiers(c, 0, false);
    if Exceeds(Dotted(ids), max) then Cut(Dotted(ids)[..max.n])
    else Full(Dotted(ids) + if open then INCOMPLETE else [])
  }

  lemma {:induction false} DottedTailAppend(a: seq<nat>, b: seq<nat>)
    ensures DottedTail(a + b) == DottedTail(a) + DottedTail(b)
  {
    if a == [] {
      assert a + b == b;
    } else {
      assert (a + b)[1..] == a[1..] + b;
      DottedTailAppend(a[1..], b);
    }
  }

  lemma {:induction false} DottedAppend(a: seq<nat>, b: seq<nat>)
    requires a != []
    ensures Dotted(a + b) == Dotted(a) + DottedTail(b)
  {
    assert (a + b)[1..] == a[1..] + b;
    DottedTailAppend(a[1..], b);
  }

  /** One more subidentifier behind those that are printed. */
  lemma {:induction false} DottedOneMore(done: seq<nat>, n: nat)
    ensures done == [] ==> Dotted(done + [n]) == FirstArcs(n)
    ensures done != [] ==> Dotted(done + [n]) == Dotted(done) + ([DOT] + Decimal(n))
  {
    assert [n][1..] == [];
    if done == [] {
      assert done + [n] == [n];
    } else {
      DottedAppend(done, [n]);
    }
  }

  lemma SubidentifiersStep(c: bytes, n: nat, open: bool)
    requires c != []
    ensures var m := n * 128 + c[0] % 128;
      Subidentifiers(c, n, open) ==
        if c[0] < 128 then ([m] + Subidentifiers(c[1..], 0, false).0, Subidentifiers(c[1..], 0, false).1)
        else Subidentifiers(c[1..], m, true)
  {
  }

  // ---------------------------------------------------------------- the encoder of X.690 section 8.19

  /** The octets of n in base 128, all with bit 8 set. */
  function Continued(n: nat): bytes {
    (if n < 128 then [] else Continued(n / 128)) + [128 + n % 128]
  }

  /** n in base 128, with bit 8 set in all octets but the last. */
  function Base128(n: nat): bytes {
    (if n < 128 then [] else Continued(n / 128)) + [n % 128]
  }

  function EncodedTail(arcs: seq<nat>): bytes {
    if arcs == [] then [] else Base128(arcs[0]) + EncodedTail(arcs[1..])
  }

  /** The contents octets of an object identifier. */
  function EncodedOid(arcs: seq<nat>): bytes
    requires |arcs| >= 2
  {
    Base128(40 * arcs[0] + arcs[1]) + EncodedTail(arcs[2..])
  }

  /** The arcs that may start an object identifier. */
  predicate IsOid(arcs: seq<nat>) {
    |arcs| >= 2 && arcs[0] <= 2 && (arcs[0] < 2 ==> arcs[1] < 40)
  }

  lemma {:induction false} ContinuedReads(n: nat, rest: bytes, open: bool)
    ensures Subidentifiers(Continued(n) + rest, 0, open) == Subidentifiers(rest, n, true)
    decreases n
  {
    var last := [128 + n % 128] + rest;
    assert last[1..] == rest;
    if n < 128 {
      assert Continued(n) + rest == last;
    } else {
      assert Continued(n) + rest == Continued(n / 128) + last;
      ContinuedReads(n / 128, last, open);
    }
    SubidentifiersStep(last, n / 128, if n < 128 then open else true);
  }

  lemma {:induction false} Base128Reads(n: nat, rest: bytes)
    ensures Subidentifiers(Base128(n) + rest, 0, false)
         == ([n] + Subidentifiers(rest, 0, false).0, Subidentifiers(rest, 0, false).1)
  {
    hide Subidentifiers, Continued;
    var last := [n % 128] + rest;
    assert last[1..] == rest;
    if n < 128 {
      assert Base128(n) + rest == last;
    } else {
      assert Base128(n) + rest == Continued(n / 128) + last;
      ContinuedReads(n / 128, last, false);
    }
    SubidentifiersStep(last, n / 128, n >= 128);
  }

  lemma {:induction false} EncodedTailReads(arcs: seq<nat>)
    ensures Subidentifiers(EncodedTail(arcs), 0, false) == (arcs, false)
  {
    hide Base128;
    if arcs != [] {
      EncodedTailReads(arcs[1..]);
      Base128Reads(arcs[0], EncodedTail(arcs[1..]));
      assert [arcs[0]] + arcs[1..] == arcs;
    }
  }

  /** An encoded object identifier is shown as its arcs with dots between them. */
  lemma OidRoundTrip(arcs: seq<nat>)
    requires IsOid(arcs)
    ensures ShownOid(EncodedOid(arcs), Infinity) == Full(Decimal(arcs[0]) + DottedTail(arcs[1..]))
    ensures Subidentifiers(EncodedOid(arcs), 0, false) == ([40 * arcs[0] + arcs[1]] + arcs[2..], false)
  {
    hide Base128, Subidentifiers, Decimal;
    var n, rest := 40 * arcs[0] + arcs[1], arcs[2..];
    EncodedTailReads(rest);
    Base128Reads(n, EncodedTail(rest));
    var ids := [n] + rest;
    assert ids[1..] == rest;
    assert arcs[1..][1..] == rest;
    ArcsOf(arcs[0], arcs[1]);
    assert Dotted(ids) == Decimal(arcs[0]) + DottedTail(arcs[1..]);
  }

  lemma {:induction false} ArcsOf(x: nat, y: nat)
    requires x <= 2 && (x < 2 ==> y < 40)
    ensures FirstArcs(40 * x + y) == Decimal(x) + [DOT] + Decimal(y)
  {
    hide Decimal, FirstArc;
    FirstArcOf(x, y);
  }

  lemma FirstArcOf(x: nat, y: nat)
    requires x <= 2 && (x < 2 ==> y < 40)
    ensures FirstArc(40 * x + y) == x
  {
  }

  /** How far parseOID has come: k octets are read, n and `open` tell of the subidentifier
      under way, and s shows the ones before, which are `done`. */
  ghost predicate OidState(c: bytes, k: nat, n: nat, open: bool, s: bytes, done: seq<nat>, max: Limit) {
    && k <= |c|
    && Subidentifiers(c, 0, false)
         == (done + Subidentifiers(c[k..], n, open).0, Subidentifiers(c[k..], n, open).1)
    && s == Dotted(done) && (s == [] <==> done == []) && !Exceeds(s, max)
  }

  lemma OidStart(c: bytes, max: Limit)
    ensures OidState(c, 0, 0, false, [], [], max)
  {
    hide Subidentifiers;
    assert c[0..] == c;
    assert [] + Subidentifiers(c, 0, false).0 == Subidentifiers(c, 0, false).0;
  }

  lemma OidContinue(c: bytes, k: nat, n: nat, open: bool, s: bytes, done: seq<nat>, max: Limit)
    requires OidState(c, k, n, open, s, done, max) && k < |c| && c[k] >= 128
    ensures OidState(c, k + 1, n * 128 + c[k] % 128, true, s, done, max)
  {
    hide Subidentifiers, Dotted;
    SubidentifiersStep(c[k..], n, open);
    assert c[k..][1..] == c[k + 1..];
  }

  /** A finished subidentifier is shown; a text that is too long now is the beginning of what
      the whole contents show. */
  lemma {:induction false} OidFinish(c: bytes, k: nat, n: nat, open: bool, s: bytes, done: seq<nat>, max: Limit)
    requires OidState(c, k, n, open, s, done, max) && k < |c| && c[k] < 128
    ensures var id := n * 128 + c[k] % 128;
      var s' := s + if s == [] then FirstArcs(id) else [DOT] + Decimal(id);
      && (s == [] ==> Subidentifiers(c, 0, false).0 != [] && Subidentifiers(c, 0, false).0[0] == id)
      && (if Exceeds(s', max) then Exceeds(Dotted(Subidentifiers(c, 0, false).0), max) && ShownOid(c, max) == Cut(s'[..max.n])
          else OidState(c, k + 1, 0, false, s', done + [id], max))
  {
    hide Subidentifiers, Dotted, FirstArcs, Decimal, ShownOid;
    var id, rest := n * 128 + c[k] % 128, Subidentifiers(c[k + 1..], 0, false);
    var s' := s + if s == [] then FirstArcs(id) else [DOT] + Decimal(id);
    SubidentifiersStep(c[k..], n, open);
    assert c[k..][1..] == c[k + 1..];
    BehindNothing(FirstArcs(id));
    FinishedArc(done, id, rest.0, max);
    OidTooLong(c, max);
  }

  lemma BehindNothing(t: bytes)
    ensures [] + t == t
  {
  }

  lemma {:induction false} OidTooLong(c: bytes, max: Limit)
    ensures var s := Dotted(Subidentifiers(c, 0, false).0);
      Exceeds(s, max) ==> ShownOid(c, max) == Cut(s[..max.n])
  {
    hide Subidentifiers, Dotted;
  }

  lemma {:induction false} OidEnd(c: bytes, n: nat, open: bool, s: bytes, done: seq<nat>, max: Limit)
    requires OidState(c, |c|, n, open, s, done, max)
    ensures !Exceeds(Dotted(Subidentifiers(c, 0, false).0), max)
    ensures ShownOid(c, max) == Full(s + if open then INCOMPLETE else [])
  {
    hide Dotted;
    assert c[|c|..] == [] && done + [] == done;
  }

  lemma {:induction false} FinishedArc(done: seq<nat>, id: nat, rest: seq<nat>, max: Limit)
    ensures var ids, next := done + ([id] + rest), done + [id];
      && next + rest == ids && (done == [] ==> ids[0] == id)
      && Dotted(next) == (if done == [] then FirstArcs(id) else Dotted(done) + ([DOT] + Decimal(id)))
      && Dotted(next) != []
      && (Exceeds(Dotted(next), max) ==>
            Exceeds(Dotted(ids), max) && Dotted(ids)[..max.n] == Dotted(next)[..max.n])
  {
    hide Dotted, Decimal, DottedTail;
    var next := done + [id];
    assert next + rest == done + ([id] + rest);
    DottedOneMore(done, id);
    DottedAppend(next, rest);
  }

  class Stream {
    const enc: bytes
    var pos: nat

    constructor (enc: bytes, pos: nat)
      ensures this.enc == enc && this.pos == pos
    {
      this.enc := enc;
      this.pos := pos;
    }

    /** get(): the position moves on before the bounds are checked. */
    method Next() returns (r: Answer<byte>)
      modifies this
      ensures pos == old(pos) + 1
      ensures r == if old(pos) < |enc| then Gives(enc[old(pos)]) else Throws
    {
      r := Get(pos);
      pos := pos + 1;
    }

    /** get(pos) */
    method Get(p: nat) returns (r: Answer<byte>)
      ensures r == if p < |enc| then Gives(enc[p]) else Throws
    {
      if p >= |enc| { return Throws; }
      return Gives(enc[p]);
    }

    /** What can be read of start..end. */
    ghost function Available(start: nat, end: nat): bytes
      requires start <= end
    {
      if start >= |enc| then [] else if end <= |enc| then enc[start..end] else enc[start..]
    }

    lemma AvailableAt(start: nat, end: nat, i: nat)
      requires start <= i < end
      ensures i < |enc| <==> i - start < |Available(start, end)|
      ensures i < |enc| ==> Available(start, end)[i - start] == enc[i]
    {
    }

    lemma AvailableEnds(start: nat, end: nat)
      requires start <= end
      ensures |Available(start, end)| <= end - start
      ensures |Available(start, end)| == end - start <==> end <= |enc| || start == end
    {
    }

    /** The loop over the bits of the first octet: --len for each that repeats the sign. */
    method TrimBits(v: byte, neg: bool, len: nat) returns (bits: nat)
      requires v != Pad(neg) && len >= 8
      ensures len - 8 < bits <= len
      ensures var k := len - bits; Pow2(7 - k) <= Magnitude(neg, v) < Pow2(8 - k)
    {
      var s: nat := v;
      ghost var k := 0;
      bits := len;
      EightBits();
      TopBit(neg, v, 0);
      while !TopBitDiffers(s, neg)
        invariant k < 8 && bits == len - k && s == v * Pow2(k) && Magnitude(neg, v) < Pow2(8 - k)
        decreases 8 - k
      {
        TopBit(neg, v, k);
        NotAllSign(neg, v, k);
        s := s * 2;
        bits := bits - 1;
        k := k + 1;
      }
      TopBit(neg, v, k);
    }

    lemma NotAllSign(neg: bool, v: byte, k: nat)
      requires v != Pad(neg) && k < 8 && Magnitude(neg, v) < Pow2(7 - k)
      ensures k < 7 && v * Pow2(k + 1) == v * Pow2(k) * 2
    {
      assert Pow2(0) == 1;
      TimesTwo(v, Pow2(k));
    }

    lemma TimesTwo(v: nat, p: nat)
      ensures v * (2 * p) == v * p * 2
    {
    }

    /** parseInteger. Contents with octets left are shown by value, however they are padded;
        contents that reach beyond the stream throw; for no contents at all the next octet
        decides. A negative number must be in the exact range of a double. */
    method ParseInteger(start0: nat, end: nat) returns (r: Answer<bytes>)
      requires start0 <= end && -EXACT <= TwosComplement(Available(start0, end))
      ensures start0 < end <= |enc| ==> r == Gives(ShownInteger(TwosComplement(enc[start0..end])))
      ensures start0 < end && |enc| < end ==> r == Throws
      ensures start0 == end ==>
        r == if end < |enc| then Gives(IntegerText(if enc[end] > 127 then -1 else 0)) else Throws
    {
      hide Unsigned, BitLength, Pow256, IntegerText;
      var first := Get(start0);
      if first.Throws? { return Throws; }
      var neg := first.value > 127;
      var ok, start, v := SkipPadding(start0, end, neg);
      if !ok { return Throws; }
      var len: int := end - start;
      if len == 0 {
        if start0 < end { NothingLeft(start0, end, neg); }
        return Gives(IntegerText(if neg then -1 else 0));
      }
      if start0 < end { RestBound(start0, start, end, neg); }
      r := ShowOctets(start, end, v, neg);
    }

    /** The part of parseInteger behind the octets that were skipped. */
    method ShowOctets(start: nat, end: nat, v: byte, neg: bool) returns (r: Answer<bytes>)
      requires start < end ==> start < |enc| && v == enc[start] && v != Pad(neg)
      requires start >= end ==> v == Pad(neg)
      requires start < end ==> forall i :: start <= i <= end && i <= |enc| ==> -EXACT <= Signed(neg, enc[start..i])
      ensures start < end ==>
        r == if end <= |enc| then Gives(ShownInteger(Signed(neg, enc[start..end]))) else Throws
      ensures start >= end ==> r == Gives(IntegerText(if neg then -1 else 0))
    {
      hide Signed, BitLength, Pow2, IntegerText;
      var len: int := end - start;
      var s: bytes := [];
      if len > 4 {
        var bits := TrimBits(v, neg, len * 8);
        s := [LPAREN] + Decimal(bits) + BIT_NOTE;
        if end <= |enc| { BitsOfOctets(neg, enc[start..end], len * 8 - bits); }
      } else if start < end <= |enc| {
        FewOctets(neg, enc[start..end]);
      }
      var n := AddOctets(start, end, v, neg);
      if n.Throws? { return Throws; }
      assert [] + n.value == n.value;
      return Gives(s + n.value);
    }

    /** The loop that skips the octets that only repeat the sign. */
    method SkipPadding(start0: nat, end: nat, neg: bool) returns (ok: bool, start: nat, v: byte)
      requires start0 <= end && start0 < |enc| && neg == (enc[start0] > 127)
      ensures end <= |enc| ==> ok
      ensures ok && start0 == end ==> if v == Pad(neg) then start == end + 1 else start == end
      ensures ok && start0 < end ==> start0 <= start <= end
      ensures ok && start0 < end ==> (start == end ==> end <= |enc|)
      ensures ok && start < end ==> start < |enc| && v == enc[start] && v != Pad(neg)
      ensures ok && start0 < end ==>
        Signed(neg, Available(start, end)) == TwosComplement(Available(start0, end))
    {
      start, v, ok := start0, enc[start0], true;
      assert start0 < end ==> Available(start0, end)[0] == enc[start0];
      while v == Pad(neg)
        invariant start0 == start || start < end
        invariant start < |enc| && start0 <= start && v == enc[start]
        invariant start0 < end ==> start < end
        invariant start0 < end ==> Signed(neg, Available(start, end)) == TwosComplement(Available(start0, end))
        decreases |enc| - start
      {
        if start < end {
          SkipPad(neg, Available(start, end));
          assert Available(start, end)[1..] == Available(start + 1, end);
        }
        start := start + 1;
        if start >= end { return; }
        var next := Get(start);
        if next.Throws? { return false, start, v; }
        v := next.value;
      }
    }

    lemma NothingLeft(start: nat, end: nat, neg: bool)
      requires start < end <= |enc|
      requires Signed(neg, Available(end, end)) == TwosComplement(Available(start, end))
      ensures ShownInteger(TwosComplement(enc[start..end])) == IntegerText(if neg then -1 else 0)
    {
      assert Available(end, end) == [];
      assert Signed(neg, []) == if neg then -1 else 0;
      assert ShownInteger(0) == IntegerText(0) && ShownInteger(-1) == IntegerText(-1);
    }

    lemma FewOctets(neg: bool, c: bytes)
      requires |c| <= 4
      ensures BitLength(Signed(neg, c)) <= 32
    {
      var n := Signed(neg, c);
      UnsignedBound(c);
      Pow256IsPow2(|c|);
      RangesNest(n, 8 * |c|, 32);
      BitLengthIsLeast(n);
      if BitLength(n) > 32 { RangesNest(n, 32, BitLength(n) - 1); }
    }

    /** No prefix of the remaining octets goes below the exact range. */
    lemma RestBound(start0: nat, start: nat, end: nat, neg: bool)
      requires start0 <= start < end && start < |enc|
      requires Signed(neg, Available(start, end)) == TwosComplement(Available(start0, end))
      requires -EXACT <= TwosComplement(Available(start0, end))
      ensures forall i :: start <= i <= end && i <= |enc| ==> -EXACT <= Signed(neg, enc[start..i])
    {
      var c := Available(start, end);
      forall i | start <= i <= end && i <= |enc| ensures -EXACT <= Signed(neg, enc[start..i]) {
        SignedPrefix(neg, c, i - start);
        assert c[..i - start] == enc[start..i];
      }
    }

    /** The loop that adds the octets up, from the first significant one on. */
    method AddOctets(start: nat, end: nat, v: byte, neg: bool) returns (r: Answer<bytes>)
      requires start < end ==> start < |enc| && v == enc[start]
      requires start >= end ==> v == Pad(neg)
      requires start < end ==> forall i :: start <= i <= end && i <= |enc| ==> -EXACT <= Signed(neg, enc[start..i])
      ensures start < end ==>
        r == if end <= |enc| then Gives(IntegerText(Signed(neg, enc[start..end]))) else Throws
      ensures start >= end ==> r == Gives(IntegerText(if neg then -1 else 0))
    {
      hide Signed, IntegerText;
      var n := new Int10(if neg then v - 256 else v);
      var i := start + 1;
      SignedOne(neg, v);
      if start < end { assert enc[start..start + 1] == [v]; }
      while i < end
        invariant start + 1 <= i && fresh(n) && n.Valid()
        invariant start < end ==> i <= end && i <= |enc| && n.Value() == Signed(neg, enc[start..i])
        invariant start >= end ==> n.Value() == if neg then -1 else 0
      {
        var b := Get(i);
        if b.Throws? { return Throws; }
        OneMoreOctet(start, i, neg);
        ProductInRange(n.Value(), b.value);
        n.MulAdd(256, b.value);
        i := i + 1;
      }
      var s := n.ToString();
      return Gives(s);
    }

    /** The exact range ends at a multiple of 256, so the product is inside when the sum is. */
    lemma ProductInRange(n: int, b: byte)
      requires -EXACT <= n * 256 + b
      ensures -EXACT <= n * 256
    {
    }

    lemma OneMoreOctet(start: nat, i: nat, neg: bool)
      requires start <= i < |enc|
      ensures Signed(neg, enc[start..i + 1]) == Signed(neg, enc[start..i]) * 256 + enc[i]
    {
      assert enc[start..i + 1] == enc[start..i] + [enc[i]];
      SignedStep(neg, enc[start..i], enc[i]);
    }

    /** parseOID. A limit that the arcs exceed cuts the text there and then; contents that
        reach beyond the stream throw otherwise. The first subidentifier must be in the exact
        range of a double. */
    method ParseOID(start: nat, end: nat, max: Limit) returns (r: Answer<Shown>)
      requires start <= end
      requires var ids := Subidentifiers(Available(start, end), 0, false).0; ids != [] ==> ids[0] <= EXACT
      ensures var c := Available(start, end);
        r == if start < end && |enc| < end && !Exceeds(Dotted(Subidentifiers(c, 0, false).0), max) then Throws
             else Gives(ShownOid(c, max))
    {
      hide Subidentifiers, Dotted, ShownOid, OidState, FirstArcs, Available, Decimal, LimbsValue;
      AvailableEnds(start, end);
      var s: bytes := [];
      var bits: nat := 0;
      var n := new Int10(0);
      ghost var c := Available(start, end);
      ghost var done: seq<nat> := [];
      OidStart(c, max);
      var i := start;
      while i < end
        invariant start <= i <= end && i - start <= |c| && fresh(n) && n.Valid() && n.Value() >= 0
        invariant OidState(c, i - start, n.Value(), bits > 0, s, done, max)
      {
        AvailableAt(start, end, i);
        var b := Get(i);
        if b.Throws? {
          OidEnd(c, n.Value(), bits > 0, s, done, max);
          return Throws;
        }
        var v := b.value;
        ghost var open, before := bits > 0, n.Value();
        n.MulAdd(128, v % 128);
        bits := bits + 7;
        if v < 128 {
          OidFinish(c, i - start, before, open, s, done, max);
          var text := ArcText(n, s == []);
          s := s + text;
          done := done + [n.Value()];
          if max.AtMost? && |s| > max.n { return Gives(Cut(s[..max.n])); }
          n := new Int10(0);
          bits := 0;
        } else {
          OidContinue(c, i - start, before, open, s, done, max);
        }
        i := i + 1;
      }
      OidEnd(c, n.Value(), bits > 0, s, done, max);
      s := s + if bits > 0 then INCOMPLETE else [];
      return Gives(Full(s));
    }

    /** The text of a finished subidentifier; the first one gives two arcs. */
    static method ArcText(n: Int10, first: bool) returns (text: bytes)
      requires n.Valid() && n.Value() >= 0 && (first ==> n.Value() <= EXACT)
      ensures text == if first then FirstArcs(n.Value()) else [DOT] + Decimal(n.Value())
    {
      if first {
        var isNumber, k := n.Simplify();
        if !isNumber { k := n.ValueOf(); }
        var m := FirstArc(k);
        text := Decimal(m) + [DOT] + Decimal(k - m * 40);
      } else {
        text := n.ToString();
        text := [DOT] + text;
      }
    }
  }

  // ---------------------------------------------------------------- the texts

  /** An integer is shown as its numeral; with more than 32 bits behind the sign bit, "(n bit)" and a
      line feed stand in front of it. */
  lemma {:induction false} ShownExactly(n: int)
    ensures ShownInteger(n) ==
      if 0 - Pow2(32) <= n < Pow2(32) then IntegerText(n)
      else Ascii("(") + Decimal(BitLength(n)) + Ascii(" bit)\n") + IntegerText(n)
  {
    hide Pow2, Decimal, IntegerText;
    BitLengthIsLeast(n);
    if BitLength(n) <= 32 { RangesNest(n, BitLength(n), 32); }
    if InRange(n, 32) && BitLength(n) > 32 { RangesNest(n, 32, BitLength(n) - 1); }
    assert BIT_NOTE == Ascii(" bit)\n") && [LPAREN] == Ascii("(");
  }

  /** The first subidentifier is 40 times an arc 0, 1 or 2 and the second arc, which is below 40 unless
      the first is 2. */
  lemma ArcsExactly(n: nat)
    ensures FirstArcs(n) ==
      if n < 40 then Ascii("0.") + Decimal(n) else if n < 80 then Ascii("1.") + Decimal(n - 40)
      else Ascii("2.") + Decimal(n - 80)
    ensures INCOMPLETE == Ascii(".incomplete")
  {
    hide Decimal;
    assert Decimal(0) == [48] && Decimal(1) == [49] && Decimal(2) == [50] by { OneDigit(); }
    assert Ascii("0.") == [48] + [DOT] && Ascii("1.") == [49] + [DOT] && Ascii("2.") == [50] + [DOT];
  }

  lemma OneDigit()
    ensures Decimal(0) == [48] && Decimal(1) == [49] && Decimal(2) == [50]
  {
  }
}
