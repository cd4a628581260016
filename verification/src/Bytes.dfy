/** Bytes and byte strings, the texts every module of this project works on. */
module Bytes {

  type byte = b: int | 0 <= b < 256
  type bytes = seq<byte>

  const NUL: byte := 0
  const TAB: byte := 9
  const LF: byte := 10
  const CR: byte := 13
  const SPACE: byte := 32
  const QUOTE: byte := 34      // "
  const LPAREN: byte := 40     // (
  const RPAREN: byte := 41     // )
  const PLUS: byte := 43       // +
  const COMMA: byte := 44      // ,
  const MINUS: byte := 45      // -
  const DOT: byte := 46        // .
  const SLASH: byte := 47      // /
  const STAR: byte := 42       // *
  const ZERO: byte := 48       // 0
  const NINE: byte := 57       // 9
  const COLON: byte := 58      // :
  const SEMICOLON: byte := 59  // ;
  const EQUALS: byte := 61     // =
  const AT: byte := 64         // @
  const LBRACKET: byte := 91   // [
  const BACKSLASH: byte := 92  // \
  const RBRACKET: byte := 93   // ]
  const UNDERSCORE: byte := 95 // _
  const LBRACE: byte := 123    // {
  const RBRACE: byte := 125    // }

  const CRLF: bytes := [CR, LF]

  /** The bytes of an ASCII text. */
  function Ascii(s: string): (t: bytes)
    requires forall i :: 0 <= i < |s| ==> s[i] as int < 128
    ensures |t| == |s| && forall i :: 0 <= i < |s| ==> t[i] == s[i] as int
  {
    seq(|s|, i requires 0 <= i < |s| => s[i] as int)
  }

  predicate IsDigit(b: byte) {
    ZERO <= b <= NINE
  }

  predicate AllDigits(s: bytes) {
    forall i :: 0 <= i < |s| ==> IsDigit(s[i])
  }

  /** The byte a C reader sees at `p`: past the end it is the terminating NUL. */
  function ByteAt(doc: bytes, p: nat): byte {
    if p < |doc| then doc[p] else NUL
  }

  /** `w` stands in `doc` at offset `p`. */
  predicate At(doc: bytes, p: nat, w: bytes) {
    p + |w| <= |doc| && doc[p..p + |w|] == w
  }

  lemma AtConcat(doc: bytes, p: nat, a: bytes, b: bytes)
    ensures At(doc, p, a + b) <==> At(doc, p, a) && At(doc, p + |a|, b)
  {
    if At(doc, p, a + b) {
      assert doc[p..p + |a|] == doc[p..p + |a + b|][..|a|] == a;
      assert doc[p + |a|..p + |a| + |b|] == doc[p..p + |a + b|][|a|..] == b;
    }
    if At(doc, p, a) && At(doc, p + |a|, b) {
      assert doc[p..p + |a + b|] == doc[p..p + |a|] + doc[p + |a|..p + |a| + |b|];
    }
  }

  lemma AtBounds(doc: bytes, p: nat, w: bytes)
    requires At(doc, p, w)
    ensures p + |w| <= |doc|
  {
  }

  lemma AtIndex(doc: bytes, p: nat, w: bytes)
    requires At(doc, p, w)
    ensures forall k :: 0 <= k < |w| ==> doc[p + k] == w[k]
  {
    forall k | 0 <= k < |w| ensures doc[p + k] == w[k] {
      assert doc[p..p + |w|][k] == doc[p + k];
    }
  }

  predicate NulFree(s: bytes) {
    NUL !in s
  }

  /** What a C string function sees of `s`: the part before the first NUL. */
  function UptoNul(s: bytes): (t: bytes)
    ensures t <= s && NulFree(t)
    ensures |t| < |s| ==> s[|t|] == NUL
  {
    if s == [] || s[0] == NUL then [] else [s[0]] + UptoNul(s[1..])
  }

  lemma {:induction false} UptoNulOfNulFree(s: bytes)
    ensures UptoNul(s) == s <==> NulFree(s)
  {
    var t := UptoNul(s);
    assert |t| < |s| ==> s[|t|] in s;
  }

  /** n copies of a space. */
  function Spaces(n: nat): (s: bytes)
    ensures |s| == n && forall i :: 0 <= i < n ==> s[i] == SPACE
  {
    seq(n, _ => SPACE)
  }

  predicate IsUpper(b: byte) { 65 <= b <= 90 }

  /** C-locale tolower. */
  function LowerByte(b: byte): byte {
    if IsUpper(b) then b + 32 else b
  }

  function Lower(s: bytes): (t: bytes)
    ensures |t| == |s| && forall i :: 0 <= i < |s| ==> t[i] == LowerByte(s[i])
  {
    seq(|s|, i requires 0 <= i < |s| => LowerByte(s[i]))
  }

  /** C-locale isspace. */
  predicate IsSpace(b: byte) {
    b == SPACE || 9 <= b <= 13
  }

  /** The constants are the ASCII codes of these characters. */
  lemma CodesAreAscii()
    ensures [TAB, LF, CR, SPACE, QUOTE, LPAREN, RPAREN] == Ascii("\t\n\r \"()")
    ensures [PLUS, COMMA, MINUS, DOT, SLASH, STAR, ZERO, NINE] == Ascii("+,-./*09")
    ensures [COLON, SEMICOLON, EQUALS, AT, LBRACKET, BACKSLASH, RBRACKET] == Ascii(":;=@[\\]")
    ensures [UNDERSCORE, LBRACE, RBRACE] == Ascii("_{}") && CRLF == Ascii("\r\n") && NUL == 0
  {
  }

  /** The classes of bytes: capitals, white space and digits of the C locale. */
  lemma ClassesAreC(b: byte)
    ensures IsUpper(b) <==> 'A' as int <= b <= 'Z' as int
    ensures IsDigit(b) <==> '0' as int <= b <= '9' as int
    ensures IsSpace(b) <==> b in {32, 9, 10, 11, 12, 13}
    ensures LowerByte(b) == if 65 <= b <= 90 then b + 32 else b
  {
  }
}
