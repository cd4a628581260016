/** What the reader's scanning methods compute, as functions of the document and
    a cursor. The reader of JsonReader is proved against these functions. */
module JsonLexer {
  import opened Bytes

  datatype TokenType =
    | ObjectBegin | ObjectEnd | ArrayBegin | ArrayEnd
    | StringToken | NumberToken | TrueToken | FalseToken | NullToken
    | ArraySeparator | MemberSeparator | CommentToken | EndOfStream | ErrorToken

  datatype Token = Token(kind: TokenType, start: nat, end: nat)

  const RUE: bytes := [114, 117, 101]
  const ALSE: bytes := [97, 108, 115, 101]
  const ULL: bytes := [117, 108, 108]

  predicate IsBlank(b: byte) {
    b == SPACE || b == TAB || b == CR || b == LF
  }

  /** skipSpaces: the first offset at or after `p` that holds no blank. */
  function SkipSpaces(doc: bytes, p: nat): (q: nat)
    requires p <= |doc|
    ensures p <= q <= |doc|
    ensures forall k :: p <= k < q ==> IsBlank(doc[k])
    ensures q < |doc| ==> !IsBlank(doc[q])
    decreases |doc| - p
  {
    if p < |doc| && IsBlank(doc[p]) then SkipSpaces(doc, p + 1) else p
  }

  /** getNextChar: the cursor after reading one byte (it stays at the end). */
  function Next(doc: bytes, p: nat): (q: nat)
    requires p <= |doc|
    ensures p <= q <= |doc|
  {
    if p < |doc| then p + 1 else p
  }

  /** match: whether `pattern` stands at the cursor. */
  predicate Matches(doc: bytes, p: nat, pattern: bytes) {
    At(doc, p, pattern)
  }

  /** readString from behind the opening quote: where it stops, and whether on a quote. */
  function StringEnd(doc: bytes, p: nat): (r: (bool, nat))
    requires p <= |doc|
    ensures p <= r.1 <= |doc|
    ensures r.0 ==> p < r.1 && doc[r.1 - 1] == QUOTE
    decreases |doc| - p
  {
    if p == |doc| then (false, p)
    else if doc[p] == BACKSLASH then
      var q := Next(doc, p + 1);
      if q == |doc| then (false, q) else StringEnd(doc, q)
    else if doc[p] == QUOTE then (true, p + 1)
    else StringEnd(doc, p + 1)
  }

  function SkipDigits(doc: bytes, p: nat): (q: nat)
    requires p <= |doc|
    ensures p <= q <= |doc|
    ensures forall k :: p <= k < q ==> IsDigit(doc[k])
    ensures q < |doc| ==> !IsDigit(doc[q])
    decreases |doc| - p
  {
    if p < |doc| && IsDigit(doc[p]) then SkipDigits(doc, p + 1) else p
  }

  const LOWER_E: byte := 101
  const UPPER_E: byte := 69

  function FractionEnd(doc: bytes, p: nat): (q: nat)
    requires p <= |doc|
    ensures p <= q <= |doc|
  {
    if ByteAt(doc, p) == DOT then SkipDigits(doc, p + 1) else p
  }

  function ExponentEnd(doc: bytes, p: nat): (q: nat)
    requires p <= |doc|
    ensures p <= q <= |doc|
  {
    var c := ByteAt(doc, p);
    if c == LOWER_E || c == UPPER_E then
      var d := ByteAt(doc, p + 1);
      if d == PLUS || d == MINUS then SkipDigits(doc, p + 2) else SkipDigits(doc, p + 1)
    else p
  }

  /** readNumber from behind the first byte of the number. */
  function NumberEnd(doc: bytes, p: nat): (q: nat)
    requires p <= |doc|
    ensures p <= q <= |doc|
  {
    ExponentEnd(doc, FractionEnd(doc, SkipDigits(doc, p)))
  }

  /** The loop of readCStyleComment: it stops behind a '*' that a '/' follows, or at the end. */
  function CCommentLoop(doc: bytes, p: nat): (q: nat)
    requires p <= |doc|
    ensures p <= q <= |doc|
    decreases |doc| - p
  {
    if p == |doc| then p
    else if doc[p] == STAR && ByteAt(doc, p + 1) == SLASH then p + 1
    else CCommentLoop(doc, p + 1)
  }

  /** The loop of readCppStyleComment: it stops behind the end of the line. */
  function CppCommentEnd(doc: bytes, p: nat): (q: nat)
    requires p <= |doc|
    ensures p <= q <= |doc|
    decreases |doc| - p
  {
    if p == |doc| then p
    else if doc[p] == LF then p + 1
    else if doc[p] == CR then
      if p + 1 < |doc| && doc[p + 1] == LF then p + 2 else p + 1
    else CppCommentEnd(doc, p + 1)
  }

  /** readComment from behind the '/': success and the new cursor. */
  function CommentEnd(doc: bytes, p: nat): (r: (bool, nat))
    requires p <= |doc|
    ensures p <= r.1 <= |doc|
  {
    var c := ByteAt(doc, p);
    var q := Next(doc, p);
    if c == STAR then
      var e := CCommentLoop(doc, q);
      (ByteAt(doc, e) == SLASH, Next(doc, e))
    else if c == SLASH then (true, CppCommentEnd(doc, q))
    else (false, q)
  }

  /** The token that starts with byte `c`, whose rest stands at `p`. */
  function TokenRest(doc: bytes, c: byte, p: nat): (r: (TokenType, nat))
    requires p <= |doc|
    ensures p <= r.1 <= |doc|
    ensures r.0 == StringToken ==> p < r.1
    ensures r.0 == EndOfStream <==> c == NUL
  {
    if c == LBRACE then (ObjectBegin, p)
    else if c == RBRACE then (ObjectEnd, p)
    else if c == LBRACKET then (ArrayBegin, p)
    else if c == RBRACKET then (ArrayEnd, p)
    else if c == QUOTE then
      var s := StringEnd(doc, p);
      (if s.0 then StringToken else ErrorToken, s.1)
    else if c == SLASH then
      var s := CommentEnd(doc, p);
      (if s.0 then CommentToken else ErrorToken, s.1)
    else if IsDigit(c) || c == MINUS then (NumberToken, NumberEnd(doc, p))
    else if c == 116 then
      if Matches(doc, p, RUE) then (TrueToken, p + 3) else (ErrorToken, p)
    else if c == 102 then
      if Matches(doc, p, ALSE) then (FalseToken, p + 4) else (ErrorToken, p)
    else if c == 110 then
      if Matches(doc, p, ULL) then (NullToken, p + 3) else (ErrorToken, p)
    else if c == COMMA then (ArraySeparator, p)
    else if c == COLON then (MemberSeparator, p)
    else if c == NUL then (EndOfStream, p)
    else (ErrorToken, p)
  }

  /** readToken: the next token; the new cursor is its end. */
  function ReadToken(doc: bytes, p: nat): (t: Token)
    requires p <= |doc|
    ensures p <= t.start <= t.end <= |doc|
    ensures t.start < |doc| ==> t.start < t.end
    ensures t.start == |doc| ==> t.kind == EndOfStream
    ensures t.kind == StringToken ==> t.start + 2 <= t.end
  {
    var start := SkipSpaces(doc, p);
    var r := TokenRest(doc, ByteAt(doc, start), Next(doc, start));
    Token(r.0, start, r.1)
  }

  /** The next token that is no comment. */
  function SkipComments(doc: bytes, p: nat): (t: Token)
    requires p <= |doc|
    ensures p <= t.start <= t.end <= |doc|
    ensures t.start < |doc| ==> t.start < t.end
    ensures t.start == |doc| ==> t.kind == EndOfStream
    ensures t.kind != CommentToken
    ensures t.kind == StringToken ==> t.start + 2 <= t.end
    decreases |doc| - p
  {
    var t := ReadToken(doc, p);
    if t.kind == CommentToken then SkipComments(doc, t.end) else t
  }

  /** recoverFromError: the cursor behind the first token of kind `kind`, or behind
      the end of the stream. */
  function Recover(doc: bytes, p: nat, kind: TokenType): (q: nat)
    requires p <= |doc|
    ensures p <= q <= |doc|
    decreases |doc| - p
  {
    var t := ReadToken(doc, p);
    if t.kind == kind || t.kind == EndOfStream then t.end else Recover(doc, t.end, kind)
  }

  // ---------------------------------------------------------------- reading known text

  lemma {:induction false} SkipSpacesOver(doc: bytes, p: nat, n: nat)
    requires p + n <= |doc|
    requires forall k :: p <= k < p + n ==> IsBlank(doc[k])
    ensures SkipSpaces(doc, p) == SkipSpaces(doc, p + n)
    decreases n
  {
    if n > 0 { SkipSpacesOver(doc, p + 1, n - 1); }
  }

  lemma {:induction false} SkipDigitsOver(doc: bytes, p: nat, n: nat)
    requires p + n <= |doc|
    requires forall k :: p <= k < p + n ==> IsDigit(doc[k])
    ensures SkipDigits(doc, p) == SkipDigits(doc, p + n)
    decreases n
  {
    if n > 0 { SkipDigitsOver(doc, p + 1, n - 1); }
  }

  /** No byte that could continue a number stands at `p`. */
  predicate NumberStops(doc: bytes, p: nat) {
    var c := ByteAt(doc, p);
    !IsDigit(c) && c != DOT && c != LOWER_E && c != UPPER_E
  }

  lemma IntegerTokenEnd(doc: bytes, p: nat, n: nat)
    requires p + n <= |doc|
    requires forall k :: p <= k < p + n ==> IsDigit(doc[k])
    requires NumberStops(doc, p + n)
    ensures NumberEnd(doc, p) == p + n
  {
    SkipDigitsOver(doc, p, n);
  }
}
