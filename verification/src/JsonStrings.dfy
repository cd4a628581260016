/** Reading back quoted strings, \u escapes and integer numerals. */
module JsonStrings {
  import opened Bytes
  import opened Numerals
  import opened JsonValue
  import opened JsonLexer
  import opened JsonText
  import opened JsonDecode

  // ---------------------------------------------------------------- quoted strings

  /** One escape is passed over by readString as a whole. */
  lemma StringEndOverEscape(doc: bytes, p: nat, b: byte)
    requires At(doc, p, Escape(b)) && p + |Escape(b)| < |doc|
    ensures StringEnd(doc, p) == StringEnd(doc, p + |Escape(b)|)
  {
    AtIndex(doc, p, Escape(b));
    if |Escape(b)| == 6 {
      StringEndOverPlain(doc, p + 2, 4);
    }
  }

  lemma {:induction false} StringEndOverPlain(doc: bytes, p: nat, n: nat)
    requires p + n <= |doc|
    requires forall k :: p <= k < p + n ==> doc[k] != BACKSLASH && doc[k] != QUOTE
    ensures StringEnd(doc, p) == StringEnd(doc, p + n)
    decreases n
  {
    if n > 0 { StringEndOverPlain(doc, p + 1, n - 1); }
  }

  lemma {:induction false} StringEndOverEscapes(doc: bytes, p: nat, s: bytes)
    requires At(doc, p, EscapeAll(s) + [QUOTE])
    ensures StringEnd(doc, p) == (true, p + |EscapeAll(s)| + 1)
    decreases |s|
  {
    hide Escape, At, StringEnd;
    if s == [] {
      assert EscapeAll(s) + [QUOTE] == [QUOTE];
      StringEndAtQuote(doc, p);
    } else {
      assert EscapeAll(s) + [QUOTE] == Escape(s[0]) + (EscapeAll(s[1..]) + [QUOTE]);
      AtConcat(doc, p, Escape(s[0]), EscapeAll(s[1..]) + [QUOTE]);
      AtBounds(doc, p + |Escape(s[0])|, EscapeAll(s[1..]) + [QUOTE]);
      StringEndOverEscape(doc, p, s[0]);
      StringEndOverEscapes(doc, p + |Escape(s[0])|, s[1..]);
    }
  }

  lemma {:induction false} StringEndAtQuote(doc: bytes, p: nat)
    requires At(doc, p, [QUOTE])
    ensures StringEnd(doc, p) == (true, p + 1)
  {
    AtIndex(doc, p, [QUOTE]);
    assert doc[p + 0] == QUOTE;
  }

  /** One turn of the loop over the digits of a \u escape. */
  lemma HexLoopUnfold(doc: bytes, p: nat, n: nat, unicode: nat)
    requires p + n <= |doc|
    ensures n == 0 ==> HexLoop(doc, p, n, unicode) == HexValue(unicode, p)
    ensures n > 0 ==>
      var d := HexDigitValue(doc[p]);
      HexLoop(doc, p, n, unicode) ==
        if d < 0 then HexError(HexDigitExpected, p + 1) else HexLoop(doc, p + 1, n - 1, unicode * 16 + d)
  {
  }

  /** Four hexadecimal digits with values a, b, c, d are decoded to the number they denote. */
  lemma FourHexDigits(doc: bytes, p: nat, end: nat, a: nat, b: nat, c: nat, d: nat)
    requires p + 4 <= end <= |doc|
    requires HexDigitValue(doc[p]) == a && HexDigitValue(doc[p + 1]) == b
    requires HexDigitValue(doc[p + 2]) == c && HexDigitValue(doc[p + 3]) == d
    ensures DecodeEscape(doc, p, end) == HexValue(((a * 16 + b) * 16 + c) * 16 + d, p + 4)
  {
    hide HexLoop, HexDigitValue;
    HexLoopUnfold(doc, p, 4, 0);
    HexLoopUnfold(doc, p + 1, 3, a);
    HexLoopUnfold(doc, p + 2, 2, a * 16 + b);
    HexLoopUnfold(doc, p + 3, 1, (a * 16 + b) * 16 + c);
    HexLoopUnfold(doc, p + 4, 0, ((a * 16 + b) * 16 + c) * 16 + d);
  }

  lemma HexDigitRoundTrip(d: nat)
    requires d < 16
    ensures HexDigitValue(HexDigit(d)) == d
  {
  }

  /** One turn of the loop of decodeString: a byte that stands for itself. */
  lemma DecodePlain(doc: bytes, p: nat, end: nat, acc: bytes)
    requires p < end <= |doc| && doc[p] != QUOTE && doc[p] != BACKSLASH
    ensures DecodeLoop(doc, p, end, acc) == DecodeLoop(doc, p + 1, end, acc + [doc[p]])
  {
    hide DecodeCodePoint, Utf8, Unescape;
  }

  /** One turn: a one-letter escape. */
  lemma DecodeShort(doc: bytes, p: nat, end: nat, acc: bytes)
    requires p + 2 <= end <= |doc| && doc[p] == BACKSLASH && doc[p + 1] != LOWER_U && Unescape(doc[p + 1]) >= 0
    ensures Unescape(doc[p + 1]) < 256
    ensures DecodeLoop(doc, p, end, acc) == DecodeLoop(doc, p + 2, end, acc + [Unescape(doc[p + 1])])
  {
    hide DecodeCodePoint, Utf8;
  }

  /** One turn: a code point in one or two \u escapes. */
  lemma {:induction false} DecodeUnicode(doc: bytes, p: nat, end: nat, acc: bytes, u: nat, q: nat)
    requires p + 2 <= end <= |doc| && doc[p] == BACKSLASH && doc[p + 1] == LOWER_U
    requires DecodeCodePoint(doc, p + 2, end) == HexValue(u, q)
    ensures q <= end && DecodeLoop(doc, p, end, acc) == DecodeLoop(doc, q, end, acc + Utf8(u))
  {
    hide DecodeCodePoint, Utf8, Unescape;
  }

  lemma EscapeShapes(b: byte)
    ensures var e := Escape(b);
      if |e| == 6 then b <= 0x1F && e == [BACKSLASH, LOWER_U, ZERO, ZERO, HexDigit(b / 16), HexDigit(b % 16)]
      else if |e| == 2 then e[0] == BACKSLASH && e[1] != LOWER_U && Unescape(e[1]) == b
      else e == [b] && b != QUOTE && b != BACKSLASH
  {
    hide HexDigit;
  }

  /** One escape is decoded to the byte it stands for. */
  lemma DecodeLoopOverEscape(doc: bytes, p: nat, end: nat, acc: bytes, b: byte)
    requires At(doc, p, Escape(b)) && p + |Escape(b)| <= end <= |doc|
    ensures DecodeLoop(doc, p, end, acc) == DecodeLoop(doc, p + |Escape(b)|, end, acc + [b])
  {
    hide DecodeLoop, DecodeCodePoint, HexDigit, Escape, At;
    AtIndex(doc, p, Escape(b));
    EscapeShapes(b);
    var e := Escape(b);
    assert doc[p + 0] == e[0];
    if |e| == 6 {
      assert doc[p + 1] == e[1] && doc[p + 2] == e[2] && doc[p + 3] == e[3] && doc[p + 4] == e[4] && doc[p + 5] == e[5];
      ControlEscapeDecodes(doc, p, end, b);
      DecodeUnicode(doc, p, end, acc, b, p + 6);
      assert Utf8(b) == [b];
    } else if |e| == 2 {
      assert doc[p + 1] == e[1];
      DecodeShort(doc, p, end, acc);
    } else {
      DecodePlain(doc, p, end, acc);
    }
  }

  lemma ControlEscapeDecodes(doc: bytes, p: nat, end: nat, b: byte)
    requires b <= 0x1F && p + 6 <= end <= |doc|
    requires doc[p + 2] == doc[p + 3] == ZERO && doc[p + 4] == HexDigit(b / 16) && doc[p + 5] == HexDigit(b % 16)
    ensures DecodeCodePoint(doc, p + 2, end) == HexValue(b, p + 6)
  {
    HexDigitRoundTrip(b / 16);
    HexDigitRoundTrip(b % 16);
    FourHexDigits(doc, p + 2, end, 0, 0, b / 16, b % 16);
    hide DecodeEscape, HexDigit;
  }

  lemma {:induction false} DecodeLoopOverEscapes(doc: bytes, p: nat, end: nat, acc: bytes, s: bytes)
    requires At(doc, p, EscapeAll(s)) && end == p + |EscapeAll(s)|
    ensures DecodeLoop(doc, p, end, acc) == Text(acc + s)
    decreases |s|
  {
    hide Escape;
    if s == [] {
      assert acc + s == acc;
    } else {
      hide DecodeLoop;
      AtConcat(doc, p, Escape(s[0]), EscapeAll(s[1..]));
      DecodeLoopOverEscape(doc, p, end, acc, s[0]);
      DecodeLoopOverEscapes(doc, p + |Escape(s[0])|, end, acc + [s[0]], s[1..]);
      assert acc + [s[0]] + s[1..] == acc + s;
    }
  }

  /** For every byte string s, the reader consumes exactly the quoted form of s and
      decodes it to s. */
  lemma QuotedRoundTrip(doc: bytes, p: nat, s: bytes)
    requires At(doc, p, Quoted(s))
    ensures ReadToken(doc, p) == Token(StringToken, p, p + |Quoted(s)|)
    ensures DecodeString(doc, p, p + |Quoted(s)|) == Text(s)
  {
    hide EscapeAll, StringEnd, DecodeLoop;
    AtIndex(doc, p, Quoted(s));
    assert Quoted(s) == [QUOTE] + (EscapeAll(s) + [QUOTE]);
    AtConcat(doc, p, [QUOTE], EscapeAll(s) + [QUOTE]);
    AtConcat(doc, p + 1, EscapeAll(s), [QUOTE]);
    StringEndOverEscapes(doc, p + 1, s);
    DecodeLoopOverEscapes(doc, p + 1, p + |Quoted(s)| - 1, [], s);
    assert [] + s == s;
  }

  /** Different strings have different quoted forms. */
  lemma QuotedInjective(s: bytes, t: bytes)
    requires Quoted(s) == Quoted(t)
    ensures s == t
  {
    QuotedRoundTrip(Quoted(s), 0, s);
    QuotedRoundTrip(Quoted(t), 0, t);
  }

  // ---------------------------------------------------------------- numerals

  lemma IntegerRoundTrip(i: int)
    requires MIN_LARGEST_INT <= i <= MAX_LARGEST_UINT
    ensures DecodeNumber(IntegerText(i)) == Integer(Retag(i))
  {
    var t := IntegerText(i);
    if i < 0 {
      assert t[1..] == Decimal(-i);
      DecimalValue(-i);
    } else {
      assert IsDigit(t[0]);
      DecimalValue(i);
    }
  }

  /** The parts of a number in RFC 8259 section 6: minus, int, frac and exp. */
  predicate IsIntPart(i: bytes) {
    i == [ZERO] || (i != [] && AllDigits(i) && i[0] != ZERO)
  }

  predicate IsFraction(f: bytes) {
    f == [] || (|f| >= 2 && f[0] == DOT && AllDigits(f[1..]))
  }

  predicate IsExponent(e: bytes) {
    if e == [] then true
    else
      var digits := if |e| > 1 && e[1] in {PLUS, MINUS} then e[2..] else e[1..];
      e[0] in {69, 101} && digits != [] && AllDigits(digits)
  }

  predicate AreNumberParts(text: bytes, m: bytes, i: bytes, f: bytes, e: bytes) {
    text == m + i + f + e && m in {[], [MINUS]} && IsIntPart(i) && IsFraction(f) && IsExponent(e)
  }

  ghost predicate IsRfcNumber(text: bytes) {
    exists m, i, f, e :: AreNumberParts(text, m, i, f, e)
  }

  /** The text without its minus sign. */
  function Digits(text: bytes): bytes {
    if text != [] && text[0] == MINUS then text[1..] else text
  }

  /** What decodeNumber takes for an integer is a number of RFC 8259 section 6 exactly when it has
      a digit and no leading zero in front of another one. */
  lemma IntegersOfTheGrammar(text: bytes)
    requires DecodeNumber(text).Integer?
    ensures IsRfcNumber(text) <==>
      var d := Digits(text); d != [] && (d[0] == ZERO ==> |d| == 1)
  {
    var d := Digits(text);
    assert AllDigits(d);
    if d != [] && (d[0] == ZERO ==> |d| == 1) {
      var m := if |d| < |text| then [MINUS] else [];
      assert text == m + d + [] + [];
      assert AreNumberParts(text, m, d, [], []);
    }
    if IsRfcNumber(text) {
      var m, i, f, e :| AreNumberParts(text, m, i, f, e);
      IntegerParts(text, m, i, f, e);
    }
  }

  lemma IntegerParts(text: bytes, m: bytes, i: bytes, f: bytes, e: bytes)
    requires AreNumberParts(text, m, i, f, e) && AllDigits(Digits(text))
    ensures f == [] && e == [] && Digits(text) == i
  {
    DigitsBehindFirst(text);
    PartsInText(text, m, i, f, e);
  }

  lemma DigitsBehindFirst(text: bytes)
    requires AllDigits(Digits(text))
    ensures forall k :: 1 <= k < |text| ==> IsDigit(text[k])
  {
    var d := Digits(text);
    assert forall k :: 1 <= k < |text| ==> text[k] == d[k - (|text| - |d|)];
  }

  /** A fraction or an exponent puts a character that is no digit behind the first. */
  lemma PartsInText(text: bytes, m: bytes, i: bytes, f: bytes, e: bytes)
    requires AreNumberParts(text, m, i, f, e)
    ensures f != [] || e != [] ==> exists k :: 1 <= k < |text| && !IsDigit(text[k])
    ensures f == [] && e == [] ==> Digits(text) == i
  {
    var n := |m| + |i|;
    if f != [] {
      assert text[n] == f[0];
    } else if e != [] {
      assert text[n] == e[0];
    } else {
      assert text == m + i;
      assert m == [] ==> IsDigit(i[0]);
    }
  }

  /** The two ways past the grammar: a minus sign alone is 0, and leading zeros do not count. */
  lemma NumbersBeyondTheGrammar()
    ensures DecodeNumber([MINUS]) == Integer(Int(0)) && !IsRfcNumber([MINUS])
    ensures DecodeNumber([ZERO, NINE]) == Integer(Int(9)) && !IsRfcNumber([ZERO, NINE])
  {
    assert [MINUS][1..] == [];
    assert DigitsValue([ZERO, NINE]) == 9 by {
      assert [ZERO, NINE][..1] == [ZERO] && [ZERO][..0] == [];
      assert DigitsValue([ZERO]) == 0;
    }
    IntegersOfTheGrammar([MINUS]);
    IntegersOfTheGrammar([ZERO, NINE]);
  }

  lemma IntegerTokenReads(doc: bytes, p: nat, i: int)
    requires At(doc, p, IntegerText(i)) && NumberStops(doc, p + |IntegerText(i)|)
    ensures ReadToken(doc, p) == Token(NumberToken, p, p + |IntegerText(i)|)
  {
    var t := IntegerText(i);
    AtIndex(doc, p, t);
    assert doc[p] == t[0] && (IsDigit(t[0]) || t[0] == MINUS);
    forall k | p + 1 <= k < p + |t| ensures IsDigit(doc[k]) {
      assert doc[k] == t[k - p];
    }
    IntegerTokenEnd(doc, p + 1, |t| - 1);
  }

  // ---------------------------------------------------------------- unicode escapes

  /** The Unicode scalar values: code points that are no surrogates. */
  predicate IsScalar(cp: nat) {
    cp <= 0x10FFFF && !(0xD800 <= cp <= 0xDFFF)
  }

  /** A hexadecimal digit of either case. */
  predicate IsHexOf(c: byte, d: nat) {
    HexDigitValue(c) == d
  }

  /** `w` is \uXXXX for the 16-bit unit u, in digits of either case. */
  predicate IsUnitEscape(w: bytes, u: nat) {
    && |w| == 6 && w[0] == BACKSLASH && w[1] == LOWER_U
    && IsHexOf(w[2], u / 0x1000) && IsHexOf(w[3], u / 0x100 % 16)
    && IsHexOf(w[4], u / 16 % 16) && IsHexOf(w[5], u % 16)
  }

  /** `w` escapes the scalar value cp as RFC 8259 section 7 has it: one unit, or a
      surrogate pair above 0xFFFF. */
  predicate IsScalarEscape(w: bytes, cp: nat) {
    if cp <= 0xFFFF then IsUnitEscape(w, cp)
    else
      && |w| == 12
      && IsUnitEscape(w[..6], 0xD800 + (cp - 0x10000) / 0x400)
      && IsUnitEscape(w[6..], 0xDC00 + (cp - 0x10000) % 0x400)
  }

  /** The texts escape the scalar values, one each. */
  predicate AreEscapes(ws: seq<bytes>, cps: seq<nat>) {
    if ws == [] || cps == [] then ws == [] && cps == []
    else IsScalar(cps[0]) && IsScalarEscape(ws[0], cps[0]) && AreEscapes(ws[1..], cps[1..])
  }

  function Concat(parts: seq<bytes>): bytes {
    if parts == [] then [] else parts[0] + Concat(parts[1..])
  }

  function Utf8All(cps: seq<nat>): bytes {
    if cps == [] then [] else Utf8(cps[0]) + Utf8All(cps[1..])
  }

  lemma Hexadecimal(u: nat)
    requires u <= 0xFFFF
    ensures ((u / 0x1000 * 16 + u / 0x100 % 16) * 16 + u / 16 % 16) * 16 + u % 16 == u
    ensures u / 0x1000 < 16
  {
    assert u / 0x100 == u / 0x1000 * 16 + u / 0x100 % 16;
    assert u / 16 == u / 0x100 * 16 + u / 16 % 16;
  }

  lemma UnitEscapeDecodes(doc: bytes, p: nat, end: nat, w: bytes, u: nat)
    requires u <= 0xFFFF && IsUnitEscape(w, u) && At(doc, p, w) && p + 6 <= end <= |doc|
    ensures doc[p] == BACKSLASH && doc[p + 1] == LOWER_U
    ensures DecodeEscape(doc, p + 2, end) == HexValue(u, p + 6)
  {
    AtIndex(doc, p, w);
    hide At, DecodeEscape, HexDigitValue;
    Hexadecimal(u);
    FourHexDigits(doc, p + 2, end, u / 0x1000, u / 0x100 % 16, u / 16 % 16, u % 16);
  }

  lemma Surrogates(cp: nat)
    requires 0xFFFF < cp <= 0x10FFFF
    ensures var hi, lo := 0xD800 + (cp - 0x10000) / 0x400, 0xDC00 + (cp - 0x10000) % 0x400;
      && 0xD800 <= hi <= 0xDBFF && lo <= 0xDFFF
      && 0x10000 + hi % 0x400 * 0x400 + lo % 0x400 == cp
  {
    var x := cp - 0x10000;
    var a, b := x / 0x400, x % 0x400;
    assert a < 0x400 && x == a * 0x400 + b;
    assert (54 * 0x400 + a) % 0x400 == a;
    assert (55 * 0x400 + b) % 0x400 == b;
  }

  lemma ScalarEscapeDecodes(doc: bytes, p: nat, end: nat, w: bytes, cp: nat)
    requires IsScalar(cp) && IsScalarEscape(w, cp) && At(doc, p, w) && p + |w| <= end <= |doc|
    ensures |w| >= 6 && doc[p] == BACKSLASH && doc[p + 1] == LOWER_U
    ensures DecodeCodePoint(doc, p + 2, end) == HexValue(cp, p + |w|)
  {
    hide DecodeEscape, IsHexOf;
    if cp <= 0xFFFF {
      UnitEscapeDecodes(doc, p, end, w, cp);
    } else {
      assert w == w[..6] + w[6..];
      AtConcat(doc, p, w[..6], w[6..]);
      Surrogates(cp);
      PairDecodes(doc, p, end, w[..6], w[6..], 0xD800 + (cp - 0x10000) / 0x400, 0xDC00 + (cp - 0x10000) % 0x400);
    }
  }

  lemma PairDecodes(doc: bytes, p: nat, end: nat, v: bytes, w: bytes, hi: nat, lo: nat)
    requires 0xD800 <= hi <= 0xDBFF && lo <= 0xFFFF && p + 12 <= end <= |doc|
    requires IsUnitEscape(v, hi) && At(doc, p, v) && IsUnitEscape(w, lo) && At(doc, p + 6, w)
    ensures doc[p] == BACKSLASH && doc[p + 1] == LOWER_U
    ensures DecodeCodePoint(doc, p + 2, end) == HexValue(0x10000 + hi % 0x400 * 0x400 + lo % 0x400, p + 12)
  {
    UnitEscapeDecodes(doc, p, end, v, hi);
    UnitEscapeDecodes(doc, p + 6, end, w, lo);
    hide DecodeEscape, IsUnitEscape, At;
  }

  lemma DecodeOneEscape(doc: bytes, p: nat, end: nat, acc: bytes, w: bytes, cp: nat)
    requires IsScalar(cp) && IsScalarEscape(w, cp) && At(doc, p, w) && p + |w| <= end <= |doc|
    ensures DecodeLoop(doc, p, end, acc) == DecodeLoop(doc, p + |w|, end, acc + Utf8(cp))
  {
    ScalarEscapeDecodes(doc, p, end, w, cp);
    hide DecodeCodePoint, Utf8, DecodeLoop;
    DecodeUnicode(doc, p, end, acc, cp, p + |w|);
  }

  lemma {:induction false} DecodeAtEnd(doc: bytes, end: nat, acc: bytes)
    requires end <= |doc|
    ensures DecodeLoop(doc, end, end, acc) == Text(acc)
  {
  }

  /** A string of escaped scalar values decodes to their UTF-8. */
  lemma {:induction false} EscapedScalarsDecode(doc: bytes, p: nat, end: nat, acc: bytes, ws: seq<bytes>, cps: seq<nat>)
    requires AreEscapes(ws, cps) && At(doc, p, Concat(ws)) && end == p + |Concat(ws)|
    ensures DecodeLoop(doc, p, end, acc) == Text(acc + Utf8All(cps))
    decreases |ws|
  {
    hide DecodeLoop, Utf8, IsScalar, IsScalarEscape;
    if ws == [] {
      DecodeAtEnd(doc, end, acc);
      assert acc + [] == acc;
    } else {
      AtConcat(doc, p, ws[0], Concat(ws[1..]));
      hide At;
      DecodeOneEscape(doc, p, end, acc, ws[0], cps[0]);
      EscapedScalarsDecode(doc, p + |ws[0]|, end, acc + Utf8(cps[0]), ws[1..], cps[1..]);
      Assoc(acc, Utf8(cps[0]), Utf8All(cps[1..]));
    }
  }

  lemma Assoc(a: bytes, b: bytes, c: bytes)
    ensures a + b + c == a + (b + c)
  {
  }

  /** The decoder of one UTF-8 sequence as RFC 3629 section 4 defines the well-formed
      ones: shortest form, no surrogates, at most U+10FFFF; -1 for anything else. */
  function Utf8Decode(s: bytes): int {
    if |s| == 1 then
      if s[0] <= 0x7F then s[0] else -1
    else if |s| == 2 && IsTail(s[1]) then
      if 0xC2 <= s[0] <= 0xDF then (Bits(s[0]) - 0xC0) * 0x40 + TailBits(s[1]) else -1
    else if |s| == 3 && IsTail(s[1]) && IsTail(s[2]) then
      if 0xE0 <= s[0] <= 0xEF && (s[0] == 0xE0 ==> s[1] >= 0xA0) && (s[0] == 0xED ==> s[1] <= 0x9F) then
        (Bits(s[0]) - 0xE0) * 0x1000 + TailBits(s[1]) * 0x40 + TailBits(s[2])
      else -1
    else if |s| == 4 && IsTail(s[1]) && IsTail(s[2]) && IsTail(s[3]) then
      if 0xF0 <= s[0] <= 0xF4 && (s[0] == 0xF0 ==> s[1] >= 0x90) && (s[0] == 0xF4 ==> s[1] <= 0x8F) then
        (Bits(s[0]) - 0xF0) * 0x40000 + TailBits(s[1]) * 0x1000 + TailBits(s[2]) * 0x40 + TailBits(s[3])
      else -1
    else -1
  }

  function Bits(b: byte): int {
    b
  }

  function TailBits(b: byte): int {
    b - 0x80
  }

  predicate IsTail(b: byte) {
    0x80 <= b <= 0xBF
  }

  /** codePointToUTF8 writes the well-formed sequence of every scalar value, and of
      nothing else. */
  lemma Utf8RoundTrip(cp: nat)
    ensures Utf8Decode(Utf8(cp)) == cp <==> IsScalar(cp)
  {
    if cp <= 0x7F {
      assert Utf8(cp) == [cp];
    } else if cp <= 0x7FF {
      Utf8Two(cp);
    } else if cp <= 0xFFFF {
      Utf8Three(cp);
    } else if cp <= 0x10FFFF {
      Utf8Four(cp);
    } else {
      assert Utf8(cp) == [];
    }
  }

  lemma Utf8Two(cp: nat)
    requires 0x7F < cp <= 0x7FF
    ensures Utf8Decode(Utf8(cp)) == cp
  {
    var a, b: int := cp / 0x40, cp % 0x40;
    assert Utf8(cp) == [0xC0 + a, 0x80 + b];
  }

  lemma Utf8Three(cp: nat)
    requires 0x7FF < cp <= 0xFFFF
    ensures Utf8Decode(Utf8(cp)) == cp <==> IsScalar(cp)
  {
    var a, b, c: int := cp / 0x1000, cp / 0x40 % 0x40, cp % 0x40;
    assert Utf8(cp) == [0xE0 + a, 0x80 + b, 0x80 + c] by { hide Utf8Decode; }
    Utf8ThreeBytes(cp, a, b, c);
  }

  lemma Utf8ThreeBytes(cp: nat, a: nat, b: nat, c: nat)
    requires a < 16 && b < 0x40 && c < 0x40 && 0x7FF < cp == a * 0x1000 + b * 0x40 + c
    ensures Utf8Decode([0xE0 + a, 0x80 + b, 0x80 + c]) == cp <==> IsScalar(cp)
  {
  }

  lemma FourSextets(cp: nat)
    requires cp <= 0x10FFFF
    ensures cp == cp / 0x40000 * 0x40000 + cp / 0x1000 % 0x40 * 0x1000 + cp / 0x40 % 0x40 * 0x40 + cp % 0x40
    ensures cp / 0x40000 < 5
  {
    assert cp / 0x1000 == cp / 0x40000 * 0x40 + cp / 0x1000 % 0x40;
    assert cp / 0x40 == cp / 0x1000 * 0x40 + cp / 0x40 % 0x40;
  }

  lemma Utf8Four(cp: nat)
    requires 0xFFFF < cp <= 0x10FFFF
    ensures Utf8Decode(Utf8(cp)) == cp
  {
    FourSextets(cp);
    Utf8FourBytes(cp, cp / 0x40000, cp / 0x1000 % 0x40, cp / 0x40 % 0x40, cp % 0x40);
    hide Utf8Decode;
  }

  lemma Utf8FourBytes(cp: nat, a: nat, b: nat, c: nat, d: nat)
    requires a < 5 && b < 0x40 && c < 0x40 && d < 0x40
    requires 0xFFFF < cp == a * 0x40000 + b * 0x1000 + c * 0x40 + d <= 0x10FFFF
    ensures Utf8Decode([0xF0 + a, 0x80 + b, 0x80 + c, 0x80 + d]) == cp
  {
  }
}
