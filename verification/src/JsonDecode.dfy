/** What decodeNumber, decodeString and their helpers compute, as functions. */
module JsonDecode {
  import opened Bytes
  import opened Numerals
  import opened JsonValue
  import opened JsonLexer
  import opened JsonText

  datatype ErrorKind =
    | ValueExpected
    | MissingColon
    | MissingCommaOrBrace
    | MissingBraceOrName
    | MissingCommaOrBracket
    | NotANumber
    | EmptyEscape
    | BadEscape
    | SurrogateTooShort
    | SecondSurrogateExpected
    | FourDigitsExpected
    | HexDigitExpected
    | RootMustBeContainer

  /** One entry of the error list; `extra` is the second location, if any. */
  datatype ErrorInfo = ErrorInfo(kind: ErrorKind, token: Token, extra: Maybe)

  datatype Maybe = Nowhere | Somewhere(pos: nat)

  // ---------------------------------------------------------------- numbers

  datatype Number = Integer(v: Value) | Double

  /** The number of a numeral of one optional '-' and digits: the exact integer when it is in
      the 64-bit range, and a double otherwise, as for any other text. */
  function DecodeNumber(text: bytes): Number {
    var negative := text != [] && text[0] == MINUS;
    var digits := if negative then text[1..] else text;
    if !AllDigits(digits) then Double
    else
      var n: int := DigitsValue(digits);
      if negative && n <= -MIN_LARGEST_INT then Integer(Int(-n))
      else if !negative && n <= MAX_LARGEST_UINT then Integer(Retag(n))
      else Double
  }

  // ---------------------------------------------------------------- strings

  datatype Hex = HexValue(unicode: nat, pos: nat) | HexError(kind: ErrorKind, pos: nat)

  function HexDigitValue(c: byte): (d: int)
    ensures -1 <= d < 16
  {
    if ZERO <= c <= NINE then c - ZERO
    else if 97 <= c <= 102 then c - 97 + 10
    else if 65 <= c <= 70 then c - 65 + 10
    else -1
  }

  /** The loop of decodeUnicodeEscapeSequence with `n` digits to go. */
  function HexLoop(doc: bytes, p: nat, n: nat, unicode: nat): (r: Hex)
    requires p + n <= |doc|
    ensures p <= r.pos <= p + n
    ensures r.HexValue? ==> r.pos == p + n
    decreases n
  {
    if n == 0 then HexValue(unicode, p)
    else
      var d := HexDigitValue(doc[p]);
      if d < 0 then HexError(HexDigitExpected, p + 1)
      else HexLoop(doc, p + 1, n - 1, unicode * 16 + d)
  }

  /** decodeUnicodeEscapeSequence: four hexadecimal digits before `end`. */
  function DecodeEscape(doc: bytes, p: nat, end: nat): (r: Hex)
    requires p <= end <= |doc|
    ensures p <= r.pos <= end
    ensures r.HexValue? ==> r.pos == p + 4
  {
    if end - p < 4 then HexError(FourDigitsExpected, p) else HexLoop(doc, p, 4, 0)
  }

  predicate IsHighSurrogate(u: nat) {
    0xD800 <= u <= 0xDBFF
  }

  /** decodeUnicodeCodePoint: one escape, or a high surrogate and a second escape. */
  function DecodeCodePoint(doc: bytes, p: nat, end: nat): (r: Hex)
    requires p <= end <= |doc|
    ensures p <= r.pos <= end
    ensures r.HexValue? ==> p < r.pos
  {
    var first := DecodeEscape(doc, p, end);
    if first.HexError? || !IsHighSurrogate(first.unicode) then first
    else if end - first.pos < 6 then HexError(SurrogateTooShort, first.pos)
    else if doc[first.pos] != BACKSLASH then HexError(SecondSurrogateExpected, first.pos + 1)
    else if doc[first.pos + 1] != LOWER_U then HexError(SecondSurrogateExpected, first.pos + 2)
    else
      var second := DecodeEscape(doc, first.pos + 2, end);
      if second.HexError? then second
      else HexValue(0x10000 + first.unicode % 0x400 * 0x400 + second.unicode % 0x400, second.pos)
  }

  /** codePointToUTF8: the masks and shifts of the source written as mod and div. */
  function Utf8(cp: nat): bytes {
    if cp <= 0x7F then [cp]
    else if cp <= 0x7FF then [0xC0 + cp / 0x40 % 0x20, 0x80 + cp % 0x40]
    else if cp <= 0xFFFF then
      [0xE0 + cp / 0x1000 % 0x10, 0x80 + cp / 0x40 % 0x40, 0x80 + cp % 0x40]
    else if cp <= 0x10FFFF then
      [0xF0 + cp / 0x40000 % 8, 0x80 + cp / 0x1000 % 0x40, 0x80 + cp / 0x40 % 0x40, 0x80 + cp % 0x40]
    else []
  }

  datatype Text = Text(s: bytes) | BadText(kind: ErrorKind, pos: nat)

  /** What a one-letter escape stands for, or -1. */
  function Unescape(e: byte): int {
    if e == QUOTE || e == SLASH || e == BACKSLASH then e
    else if e == LOWER_B then 8
    else if e == LOWER_F then 12
    else if e == LOWER_N then LF
    else if e == LOWER_R then CR
    else if e == LOWER_T then TAB
    else -1
  }

  /** The loop of decodeString from `p` to `end`, with `acc` decoded so far. */
  function DecodeLoop(doc: bytes, p: nat, end: nat, acc: bytes): Text
    requires p <= end <= |doc|
    decreases end - p
  {
    if p == end || doc[p] == QUOTE then Text(acc)
    else if doc[p] != BACKSLASH then DecodeLoop(doc, p + 1, end, acc + [doc[p]])
    else if p + 1 == end then BadText(EmptyEscape, end)
    else if doc[p + 1] == LOWER_U then
      var u := DecodeCodePoint(doc, p + 2, end);
      if u.HexError? then BadText(u.kind, u.pos)
      else DecodeLoop(doc, u.pos, end, acc + Utf8(u.unicode))
    else
      var c := Unescape(doc[p + 1]);
      if c < 0 then BadText(BadEscape, p + 2) else DecodeLoop(doc, p + 2, end, acc + [c])
  }

  /** decodeString on the string token at start..end (quotes included). */
  function DecodeString(doc: bytes, start: nat, end: nat): Text
    requires start + 2 <= end <= |doc|
  {
    DecodeLoop(doc, start + 1, end - 1, [])
  }

  // ---------------------------------------------------------------- the tables

  /** The eight short escapes. */
  lemma UnescapeTable(e: byte)
    ensures Unescape(e) ==
      if e in {34, 47, 92} then e
      else if e == 98 then 8 else if e == 102 then 12 else if e == 110 then 10 else if e == 114 then 13
      else if e == 116 then 9 else -1
  {
  }

  /** The hexadecimal digits, of either case. */
  lemma HexDigitTable(c: byte)
    ensures HexDigitValue(c) ==
      if 48 <= c <= 57 then c - 48 else if 65 <= c <= 70 then c - 65 + 10 else if 97 <= c <= 102 then c - 97 + 10 else -1
  {
  }
}
