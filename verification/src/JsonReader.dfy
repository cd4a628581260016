/** The class Reader: a cursor over the document, a stack of open values, an error
    list and a depth counter, changed in place by every method. */
module JsonReader {
  import opened Bytes
  import opened Numerals
  import opened JsonValue
  import L = JsonLexer
  import P = JsonParse
  import A = JsonAccepted
  import opened JsonLexer
  import opened JsonText
  import opened JsonDecode
  import opened JsonStrings

  /** Once the value reaches the threshold, only one small last digit may follow. */
  lemma {:induction false} TooBig(digits: bytes, k: nat, max: nat)
    requires AllDigits(digits) && k < |digits| && max >= 100
    requires var v := DigitsValue(digits[..k]);
      v > max / 10 || (v == max / 10 && (k + 1 < |digits| || digits[k] - ZERO > max % 10))
    ensures DigitsValue(digits) > max
  {
    var head, tail := digits[..k + 1], digits[k + 1..];
    assert digits == head + tail;
    assert head[..|head| - 1] == digits[..k];
    DigitsValueConcat(head, tail);
    if tail != [] {
      assert Pow10(|tail|) == 10 * Pow10(|tail| - 1);
      ScaledUp(DigitsValue(head), Pow10(|tail|));
    }
  }

  lemma OneMoreDigit(digits: bytes, k: nat)
    requires k < |digits| && AllDigits(digits[..k]) && IsDigit(digits[k])
    ensures AllDigits(digits[..k + 1])
    ensures DigitsValue(digits[..k + 1]) == 10 * DigitsValue(digits[..k]) + (digits[k] - ZERO)
  {
    assert digits[..k + 1][..k] == digits[..k];
  }

  lemma NotAllDigits(digits: bytes, k: nat)
    requires k < |digits| && !IsDigit(digits[k])
    ensures !AllDigits(digits)
  {
  }

  /** The guard of decodeNumber keeps the next value below the limit. */
  lemma StaysBelow(value: nat, digit: nat, max: nat)
    requires digit < 10 && (value < max / 10 || (value == max / 10 && digit <= max % 10))
    ensures value * 10 + digit <= max
  {
  }

  /** The limit decodeNumber works with: the magnitude of the least or of the largest integer. */
  function MaxInteger(negative: bool): LargestUInt {
    if negative then MAX_LARGEST_INT + 1 else MAX_LARGEST_UINT
  }

  /** DecodeNumber by sign and digits. */
  lemma {:induction false} DecodedFrom(text: bytes, negative: bool, digits: bytes)
    requires negative <==> text != [] && text[0] == MINUS
    requires digits == if negative then text[1..] else text
    ensures !AllDigits(digits) || DigitsValue(digits) > MaxInteger(negative) ==> DecodeNumber(text) == Double
    ensures AllDigits(digits) && DigitsValue(digits) <= MaxInteger(negative) ==>
      var n: int := DigitsValue(digits);
      DecodeNumber(text) == Integer(if negative then Int(-n) else Retag(n))
  {
    hide DigitsValue, AllDigits;
  }

  lemma ScaledUp(h: nat, p: nat)
    requires p >= 10
    ensures h * p >= 10 * h
  {
  }

  class Reader {
    const allowComments: bool
    const strictRoot: bool
    const isDouble: bytes -> bool
    var document: bytes
    var current: nat
    var nodes: seq<Value>
    var errors: seq<ErrorInfo>
    var stackDepth: int

    /** The default features are (true, false). */
    constructor (allowComments: bool, strictRoot: bool, isDouble: bytes -> bool)
      ensures this.allowComments == allowComments && this.strictRoot == strictRoot && this.isDouble == isDouble
      ensures Valid()
    {
      this.allowComments := allowComments;
      this.strictRoot := strictRoot;
      this.isDouble := isDouble;
      document, current, nodes, errors, stackDepth := [], 0, [], [], 0;
    }

    /** The cursor is between the begin and the end of the document. */
    ghost predicate Valid()
      reads this
    {
      current <= |document|
    }

    ghost function Inp(): P.Input
      reads this
    {
      P.Input(document, allowComments, strictRoot, isDouble)
    }

    ghost function St(): P.State
      reads this
    {
      P.State(current, errors, stackDepth)
    }

    // -------------------------------------------------------------- scanning

    method GetNextChar() returns (c: byte)
      requires Valid()
      modifies `current
      ensures Valid()
      ensures c == ByteAt(document, old(current)) && current == Next(document, old(current))
    {
      if current == |document| { return 0; }
      c := document[current];
      current := current + 1;
    }

    method SkipBlanks()
      requires Valid()
      modifies `current
      ensures Valid() && current == SkipSpaces(document, old(current))
    {
      while current != |document|
        invariant Valid() && SkipSpaces(document, current) == SkipSpaces(document, old(current))
        decreases |document| - current
      {
        var c := document[current];
        if c == SPACE || c == TAB || c == CR || c == LF {
          current := current + 1;
        } else {
          break;
        }
      }
    }

    method Match(pattern: bytes) returns (ok: bool)
      requires Valid()
      modifies `current
      ensures Valid() && ok == At(document, old(current), pattern)
      ensures current == if ok then old(current) + |pattern| else old(current)
    {
      if |document| - current < |pattern| { return false; }
      var index := |pattern|;
      while index > 0
        invariant 0 <= index <= |pattern| && current == old(current)
        invariant forall k :: index <= k < |pattern| ==> document[current + k] == pattern[k]
      {
        index := index - 1;
        if document[current + index] != pattern[index] { return false; }
      }
      current := current + |pattern|;
      return true;
    }

    method ReadString() returns (ok: bool)
      requires Valid()
      modifies `current
      ensures Valid() && (ok, current) == StringEnd(document, old(current))
    {
      var c: byte := 0;
      while current != |document|
        invariant Valid() && c != QUOTE
        invariant StringEnd(document, current) == StringEnd(document, old(current))
        decreases |document| - current
      {
        c := GetNextChar();
        if c == BACKSLASH {
          var _ := GetNextChar();
        } else if c == QUOTE {
          break;
        }
      }
      return c == QUOTE;
    }

    /** c = (current_ = p) < end_ ? *p++ : 0 */
    method Step(p: nat) returns (c: byte, q: nat)
      requires p <= |document|
      modifies `current
      ensures current == p && c == ByteAt(document, p) && q == Next(document, p)
    {
      current := p;
      if p < |document| { return document[p], p + 1; } else { return 0, p; }
    }

    /** The digit loop of readNumber; c is the byte before p, or a stopgap digit. */
    method SkipDigitsFrom(c0: byte, p0: nat) returns (c: byte, p: nat)
      requires p0 <= |document|
      requires !IsDigit(c0) ==> Valid() && c0 == ByteAt(document, current) && p0 == Next(document, current)
      modifies `current
      ensures Valid() && c == ByteAt(document, current) && p == Next(document, current)
      ensures current == if IsDigit(c0) then SkipDigits(document, p0) else old(current)
    {
      c, p := c0, p0;
      while IsDigit(c)
        invariant p <= |document|
        invariant IsDigit(c) ==> IsDigit(c0) && SkipDigits(document, p) == SkipDigits(document, p0)
        invariant !IsDigit(c) ==>
          && current <= |document| && c == ByteAt(document, current) && p == Next(document, current)
          && current == if IsDigit(c0) then SkipDigits(document, p0) else old(current)
        decreases |document| - p, if IsDigit(c) then 1 else 0
      {
        c, p := Step(p);
      }
    }

    /** The "fractional part" of readNumber: c stands at the cursor, p behind it. */
    method ReadFraction(c0: byte, p0: nat) returns (c: byte, p: nat)
      requires Valid() && c0 == ByteAt(document, current) && p0 == Next(document, current)
      modifies `current
      ensures Valid() && current == FractionEnd(document, old(current))
      ensures c == ByteAt(document, current) && p == Next(document, current)
    {
      c, p := c0, p0;
      if c == DOT {
        c, p := Step(p);
        c, p := SkipDigitsFrom(c, p);
      }
    }

    /** The "exponential part" of readNumber. */
    method ReadExponent(c0: byte, p0: nat)
      requires Valid() && c0 == ByteAt(document, current) && p0 == Next(document, current)
      modifies `current
      ensures Valid() && current == ExponentEnd(document, old(current))
    {
      var c, p := c0, p0;
      if c == LOWER_E || c == UPPER_E {
        c, p := Step(p);
        if c == PLUS || c == MINUS { c, p := Step(p); }
        c, p := SkipDigitsFrom(c, p);
      }
    }

    method ReadNumber()
      requires Valid()
      modifies `current
      ensures Valid() && current == NumberEnd(document, old(current))
    {
      var c, p := SkipDigitsFrom(ZERO, current);
      c, p := ReadFraction(c, p);
      ReadExponent(c, p);
    }

    method ReadCStyleComment() returns (ok: bool)
      requires Valid()
      modifies `current
      ensures Valid()
      ensures var e := CCommentLoop(document, old(current));
        ok == (ByteAt(document, e) == SLASH) && current == Next(document, e)
    {
      while current != |document|
        invariant Valid() && CCommentLoop(document, current) == CCommentLoop(document, old(current))
        decreases |document| - current
      {
        var c := GetNextChar();
        if c == STAR && ByteAt(document, current) == SLASH {
          assert CCommentLoop(document, current - 1) == current;
          var d := GetNextChar();
          return d == SLASH;
        }
      }
      var d := GetNextChar();
      return d == SLASH;
    }

    method ReadCppStyleComment() returns (ok: bool)
      requires Valid()
      modifies `current
      ensures Valid() && ok && current == CppCommentEnd(document, old(current))
    {
      while current != |document|
        invariant Valid() && CppCommentEnd(document, current) == CppCommentEnd(document, old(current))
        decreases |document| - current
      {
        var c := GetNextChar();
        if c == LF { return true; }
        if c == CR {
          if current != |document| && document[current] == LF {
            var _ := GetNextChar();
          }
          return true;
        }
      }
      return true;
    }

    method ReadComment() returns (ok: bool)
      requires Valid()
      modifies `current
      ensures Valid() && (ok, current) == CommentEnd(document, old(current))
    {
      var c := GetNextChar();
      ok := false;
      if c == STAR {
        ok := ReadCStyleComment();
      } else if c == SLASH {
        ok := ReadCppStyleComment();
      }
    }

    method ReadToken() returns (token: Token)
      requires Valid()
      modifies `current
      ensures Valid() && token == L.ReadToken(document, old(current)) && current == token.end
    {
      SkipBlanks();
      var start := current;
      var c := GetNextChar();
      var ok := true;
      var kind := ErrorToken;
      if c == LBRACE { kind := ObjectBegin; }
      else if c == RBRACE { kind := ObjectEnd; }
      else if c == LBRACKET { kind := ArrayBegin; }
      else if c == RBRACKET { kind := ArrayEnd; }
      else if c == QUOTE { kind := StringToken; ok := ReadString(); }
      else if c == SLASH { kind := CommentToken; ok := ReadComment(); }
      else if IsDigit(c) || c == MINUS { kind := NumberToken; ReadNumber(); }
      else if c == 116 { kind := TrueToken; ok := Match(RUE); }
      else if c == 102 { kind := FalseToken; ok := Match(ALSE); }
      else if c == 110 { kind := NullToken; ok := Match(ULL); }
      else if c == COMMA { kind := ArraySeparator; }
      else if c == COLON { kind := MemberSeparator; }
      else if c == NUL { kind := EndOfStream; }
      else { ok := false; }
      if !ok { kind := ErrorToken; }
      token := Token(kind, start, current);
    }

    /** The loops that read tokens while they are comments. */
    method ReadTokenBehindComments() returns (token: Token)
      requires Valid()
      modifies `current
      ensures Valid() && token == SkipComments(document, old(current)) && current == token.end
    {
      ghost var from := current;
      token := ReadToken();
      while token.kind == CommentToken
        invariant Valid() && from <= |document| && token == L.ReadToken(document, from) && current == token.end
        invariant SkipComments(document, from) == SkipComments(document, old(current))
        decreases |document| - from
      {
        from := current;
        token := ReadToken();
      }
    }

    /** skipCommentTokens. */
    method SkipCommentTokens() returns (token: Token)
      requires Valid()
      modifies `current
      ensures Valid() && token == P.FirstToken(Inp(), old(current)) && current == token.end
    {
      if allowComments {
        token := ReadTokenBehindComments();
      } else {
        token := ReadToken();
      }
    }

    // -------------------------------------------------------------- errors

    method AddError(kind: ErrorKind, token: Token, extra: Maybe)
      modifies `errors
      ensures errors == old(errors) + [ErrorInfo(kind, token, extra)]
    {
      errors := errors + [ErrorInfo(kind, token, extra)];
    }

    /** Tokens are skipped until one of kind `until`, or the end; errors found on the
        way would be dropped again. */
    method RecoverFromError(until: TokenType)
      requires Valid()
      modifies `current, `errors
      ensures Valid() && current == Recover(document, old(current), until) && errors == old(errors)
    {
      var errorCount := |errors|;
      while true
        invariant Valid() && errors == old(errors)
        invariant Recover(document, current, until) == Recover(document, old(current), until)
        decreases |document| - current
      {
        var skip := ReadToken();
        if skip.kind == until || skip.kind == EndOfStream { break; }
      }
      errors := errors[..errorCount];
    }

    method AddErrorAndRecover(kind: ErrorKind, token: Token, until: TokenType)
      requires Valid()
      modifies `current, `errors
      ensures Valid() && St() == P.FailAndRecover(document, old(St()), kind, token, until)
    {
      AddError(kind, token, Nowhere);
      RecoverFromError(until);
    }

    // -------------------------------------------------------------- decoding

    /** The digit loop of decodeNumber: the number the bytes first..end denote, unless
        one is no digit or the number exceeds the limit. No intermediate value does. */
    method AccumulateDigits(first: nat, end: nat, maxIntegerValue: LargestUInt)
      returns (ok: bool, value: LargestUInt)
      requires first <= end <= |document| && maxIntegerValue >= 100
      ensures var digits := document[first..end];
        && ok == (AllDigits(digits) && DigitsValue(digits) <= maxIntegerValue)
        && (ok ==> value == DigitsValue(digits))
    {
      ghost var digits := document[first..end];
      var threshold := maxIntegerValue / 10;
      var cur := first;
      value := 0;
      ghost var k := 0;
      hide DigitsValue, AllDigits;
      while cur < end
        invariant k <= |digits| && cur == first + k
        invariant AllDigits(digits[..k]) && value == DigitsValue(digits[..k]) && value <= maxIntegerValue
      {
        var c := document[cur];
        assert c == digits[k];
        cur := cur + 1;
        if c < ZERO || c > NINE {
          NotAllDigits(digits, k);
          return false, 0;
        }
        var digit := c - ZERO;
        if value >= threshold {
          if value > threshold || cur != end || digit > maxIntegerValue % 10 {
            if AllDigits(digits) { TooBig(digits, k, maxIntegerValue); }
            return false, 0;
          }
        }
        OneMoreDigit(digits, k);
        k := k + 1;
        StaysBelow(value, digit, maxIntegerValue);
        value := value * 10 + digit;
      }
      assert digits[..k] == digits;
      ok := true;
    }

    /** The number at token.start..token.end: exact in 64 bits, or a double. */
    method DecodeInteger(token: Token) returns (n: Number)
      requires token.start < token.end <= |document|
      ensures n == DecodeNumber(document[token.start..token.end])
    {
      ghost var text := document[token.start..token.end];
      var cur := token.start;
      var isNegative := document[cur] == MINUS;
      if isNegative { cur := cur + 1; }
      var maxIntegerValue: LargestUInt := if isNegative then MAX_LARGEST_INT + 1 else MAX_LARGEST_UINT;
      var ok, value := AccumulateDigits(cur, token.end, maxIntegerValue);
      assert document[cur..token.end] == if isNegative then text[1..] else text;
      DecodedFrom(text, isNegative, document[cur..token.end]);
      hide DecodeNumber, DigitsValue, AllDigits;
      if !ok {
        n := Double;
      } else if isNegative && value == maxIntegerValue {
        n := Integer(Int(MIN_LARGEST_INT));
      } else if isNegative {
        n := Integer(Int(-(value as int)));
      } else if value <= MAX_INT {
        n := Integer(Int(value));
      } else {
        n := Integer(UInt(value));
      }
    }

    /** Four hexadecimal digits from p on, before end. */
    method DecodeUnicodeEscapeSequence(token: Token, p: nat, end: nat) returns (ok: bool, q: nat, unicode: nat)
      requires p <= end <= |document|
      modifies `errors
      ensures var r := DecodeEscape(document, p, end);
        && ok == r.HexValue? && q == r.pos
        && (ok ==> unicode == r.unicode && errors == old(errors))
        && (!ok ==> errors == old(errors) + [ErrorInfo(r.kind, token, Somewhere(r.pos))])
    {
      hide HexLoop;
      q, unicode := p, 0;
      if end - p < 4 {
        AddError(FourDigitsExpected, token, Somewhere(q));
        return false, q, unicode;
      }
      for index := 0 to 4
        invariant q == p + index && errors == old(errors)
        invariant HexLoop(document, q, 4 - index, unicode) == HexLoop(document, p, 4, 0)
      {
        HexLoopUnfold(document, q, 4 - index, unicode);
        var c := document[q];
        q := q + 1;
        unicode := unicode * 16;
        if ZERO <= c <= NINE {
          unicode := unicode + (c as int - ZERO);
        } else if 97 <= c <= 102 {
          unicode := unicode + (c as int - 97 + 10);
        } else if 65 <= c <= 70 {
          unicode := unicode + (c as int - 65 + 10);
        } else {
          AddError(HexDigitExpected, token, Somewhere(q));
          return false, q, unicode;
        }
      }
      HexLoopUnfold(document, q, 0, unicode);
      ok := true;
    }

    method DecodeUnicodeCodePoint(token: Token, p: nat, end: nat) returns (ok: bool, q: nat, unicode: nat)
      requires p <= end <= |document|
      modifies `errors
      ensures var r := DecodeCodePoint(document, p, end);
        && ok == r.HexValue? && q == r.pos
        && (ok ==> unicode == r.unicode && errors == old(errors))
        && (!ok ==> errors == old(errors) + [ErrorInfo(r.kind, token, Somewhere(r.pos))])
    {
      ok, q, unicode := DecodeUnicodeEscapeSequence(token, p, end);
      if !ok { return; }
      if 0xD800 <= unicode <= 0xDBFF {
        if end - q < 6 {
          AddError(SurrogateTooShort, token, Somewhere(q));
          return false, q, unicode;
        }
        var match1 := document[q] == BACKSLASH;
        q := q + 1;
        if match1 {
          match1 := document[q] == LOWER_U;
          q := q + 1;
        }
        if match1 {
          var surrogatePair;
          ok, q, surrogatePair := DecodeUnicodeEscapeSequence(token, q, end);
          if ok { unicode := 0x10000 + unicode % 0x400 * 0x400 + surrogatePair % 0x400; }
        } else {
          AddError(SecondSurrogateExpected, token, Somewhere(q));
          return false, q, unicode;
        }
      }
    }

    /** The contents of the string token, or an error in the list. */
    method DecodeStringToken(token: Token) returns (ok: bool, decoded: bytes)
      requires token.start + 2 <= token.end <= |document|
      modifies `errors
      ensures var r := DecodeString(document, token.start, token.end);
        && ok == r.Text?
        && (ok ==> decoded == r.s && errors == old(errors))
        && (!ok ==> errors == old(errors) + [ErrorInfo(r.kind, token, Somewhere(r.pos))])
    {
      decoded := [];
      var cur := token.start + 1;
      var end := token.end - 1;
      while cur != end
        invariant cur <= end && errors == old(errors)
        invariant DecodeLoop(document, cur, end, decoded) == DecodeString(document, token.start, token.end)
        decreases end - cur
      {
        var c := document[cur];
        cur := cur + 1;
        if c == QUOTE {
          break;
        } else if c == BACKSLASH {
          if cur == end {
            AddError(EmptyEscape, token, Somewhere(cur));
            return false, decoded;
          }
          var escape := document[cur];
          cur := cur + 1;
          if escape == QUOTE { decoded := decoded + [QUOTE]; }
          else if escape == SLASH { decoded := decoded + [SLASH]; }
          else if escape == BACKSLASH { decoded := decoded + [BACKSLASH]; }
          else if escape == LOWER_B { decoded := decoded + [8]; }
          else if escape == LOWER_F { decoded := decoded + [12]; }
          else if escape == LOWER_N { decoded := decoded + [LF]; }
          else if escape == LOWER_R { decoded := decoded + [CR]; }
          else if escape == LOWER_T { decoded := decoded + [TAB]; }
          else if escape == LOWER_U {
            var unicode;
            ok, cur, unicode := DecodeUnicodeCodePoint(token, cur, end);
            if !ok { return; }
            decoded := decoded + Utf8(unicode);
          } else {
            AddError(BadEscape, token, Somewhere(cur));
            return false, decoded;
          }
        } else {
          decoded := decoded + [c];
        }
      }
      ok := true;
    }

    // -------------------------------------------------------------- values

    /** The value under construction. */
    function Top(): Value
      requires nodes != []
      reads this
    {
      nodes[|nodes| - 1]
    }

    /** The stack below the top is as it was, and the top is `v`. */
    twostate predicate TopIs(v: Value)
      requires old(nodes) != []
      reads this
    {
      nodes == old(nodes)[..|old(nodes)| - 1] + [v]
    }

    /** currentValue().swapPayload(v) */
    method SetTop(v: Value)
      requires nodes != []
      modifies `nodes
      ensures TopIs(v)
    {
      nodes := nodes[..|nodes| - 1] + [v];
    }

    /** decodeNumber, decodeString and the literals: what readValue does with a token that
        starts no container. */
    method ReadScalar(token: Token) returns (successful: bool)
      requires Valid() && nodes != [] && current == token.end && token.start <= token.end
      requires token.kind == NumberToken ==> token.start < token.end
      requires token.kind == StringToken ==> token.start + 2 <= token.end
      modifies `nodes, `errors, `stackDepth
      ensures Valid()
      ensures var r := P.ReadScalar(Inp(), old(St()), token, old(Top()));
        successful == (r.status == P.Good) && St() == r.st && TopIs(r.v)
    {
      hide DecodeString, DecodeNumber;
      successful := true;
      match token.kind {
        case NumberToken =>
          var text := document[token.start..token.end];
          var n := DecodeInteger(token);
          if n.Integer? {
            SetTop(n.v);
          } else if isDouble(text) {
            SetTop(Real(text));
          } else {
            AddError(NotANumber, token, Nowhere);
            successful := false;
          }
        case StringToken =>
          var text;
          successful, text := DecodeStringToken(token);
          if successful { SetTop(Str(text)); }
        case TrueToken => SetTop(Bool(true));
        case FalseToken => SetTop(Bool(false));
        case NullToken => SetTop(Null);
        case _ =>
          AddError(ValueExpected, token, Nowhere);
          return false;
      }
      stackDepth := stackDepth - 1;
    }

    method ReadValue() returns (status: P.Status)
      requires Valid() && nodes != []
      modifies `current, `nodes, `errors, `stackDepth
      ensures Valid()
      ensures var r := P.ReadValue(Inp(), old(St()), old(Top()));
        status == r.status && St() == r.st && (status != P.Threw ==> TopIs(r.v))
      decreases |document| - current, 3
    {
      hide P.ReadObject, P.ReadArray, P.ReadScalar, P.FirstToken;
      if stackDepth >= P.STACK_LIMIT { return P.Threw; }
      stackDepth := stackDepth + 1;
      var token := SkipCommentTokens();
      if token.kind == ObjectBegin {
        status := ReadObject();
      } else if token.kind == ArrayBegin {
        status := ReadArray();
      } else {
        var ok := ReadScalar(token);
        return if ok then P.Good else P.Bad;
      }
      if status != P.Threw { stackDepth := stackDepth - 1; }
    }

    method ReadObject() returns (status: P.Status)
      requires Valid() && nodes != []
      modifies `current, `nodes, `errors, `stackDepth
      ensures Valid()
      ensures var r := P.ReadObject(Inp(), old(St()), [], []);
        status == r.status && St() == r.st && (status != P.Threw ==> TopIs(r.v))
      decreases |document| - current, 2
    {
      hide P.ReadValue, P.FirstToken, SkipComments, L.ReadToken, DecodeString, Recover, Store, Find;
      var name: bytes := [];
      SetTop(Object([]));
      while true
        invariant Valid() && |nodes| == |old(nodes)| && Top().Object? && TopIs(Top())
        invariant P.ReadObject(Inp(), St(), name, Top().members) == P.ReadObject(Inp(), old(St()), [], [])
        invariant current >= old(current)
        decreases |document| - current
      {
        var tokenName := ReadTokenBehindComments();
        if tokenName.kind == ObjectEnd && name == [] { return P.Good; }
        if tokenName.kind != StringToken {
          AddErrorAndRecover(MissingBraceOrName, tokenName, ObjectEnd);
          return P.Bad;
        }
        var ok;
        ok, name := DecodeStringToken(tokenName);
        if !ok {
          RecoverFromError(ObjectEnd);
          return P.Bad;
        }
        var more;
        status, more := ReadMember(name);
        if !more { return; }
      }
    }

    /** The rest of a turn of readObject behind the name: whether the loop goes on, and what it
        returns if not. */
    method ReadMember(name: bytes) returns (status: P.Status, more: bool)
      requires Valid() && nodes != [] && Top().Object?
      modifies `current, `nodes, `errors, `stackDepth
      ensures Valid()
      ensures var r := P.ReadMember(Inp(), old(St()), name, old(Top().members));
        if more then
          && |nodes| == |old(nodes)| && Top().Object? && TopIs(Top()) && current > old(current)
          && r == P.ReadObject(Inp(), St(), name, Top().members)
        else status == r.status && St() == r.st && (status != P.Threw ==> TopIs(r.v))
      decreases |document| - current, 4
    {
      hide P.ReadValue, P.ReadObject, P.FirstToken, SkipComments, L.ReadToken, DecodeString, Recover, Store, Find;
      var colon := ReadToken();
      if colon.kind != MemberSeparator {
        AddErrorAndRecover(MissingColon, colon, ObjectEnd);
        return P.Bad, false;
      }
      nodes := nodes + [SlotValue(Find(Top().members, name))];
      status := ReadValue();
      if status == P.Threw { return P.Threw, false; }
      var child := Top();
      nodes := nodes[..|nodes| - 1];
      SetTop(Object(Store(Top().members, name, child)));
      if status == P.Bad {
        RecoverFromError(ObjectEnd);
        return P.Bad, false;
      }
      var comma := ReadToken();
      if comma.kind != ObjectEnd && comma.kind != ArraySeparator && comma.kind != CommentToken {
        AddErrorAndRecover(MissingCommaOrBrace, comma, ObjectEnd);
        return P.Bad, false;
      }
      if comma.kind == CommentToken { comma := ReadTokenBehindComments(); }
      return P.Good, comma.kind != ObjectEnd;
    }

    method ReadArray() returns (status: P.Status)
      requires Valid() && nodes != []
      modifies `current, `nodes, `errors, `stackDepth
      ensures Valid()
      ensures var r := P.ReadArray(Inp(), old(St()));
        status == r.status && St() == r.st && (status != P.Threw ==> TopIs(r.v))
      decreases |document| - current, 5
    {
      hide P.ReadValue, P.FirstToken, SkipComments, L.ReadToken, Recover, SkipSpaces;
      SetTop(Array([]));
      SkipBlanks();
      if ByteAt(document, current) == RBRACKET {
        var _ := ReadToken();
        return P.Good;
      }
      while true
        invariant Valid() && |nodes| == |old(nodes)| && Top().Array? && TopIs(Top())
        invariant P.ReadItems(Inp(), St(), Top().slots) == P.ReadArray(Inp(), old(St()))
        invariant current >= old(current)
        decreases |document| - current
      {
        nodes := nodes + [Null];
        status := ReadValue();
        if status == P.Threw { return; }
        var child := Top();
        nodes := nodes[..|nodes| - 1];
        SetTop(Array(Top().slots + [Item(child)]));
        if status == P.Bad {
          RecoverFromError(ArrayEnd);
          return P.Bad;
        }
        var token := ReadTokenBehindComments();
        if token.kind != ArraySeparator && token.kind != ArrayEnd {
          AddErrorAndRecover(MissingCommaOrBracket, token, ArrayEnd);
          return P.Bad;
        }
        if token.kind == ArrayEnd { return P.Good; }
      }
    }

    /** parse on a document and a root value: the status, the final root, and an error list
        that is empty exactly on success. It succeeds exactly on the documents that start with
        a tree, and then the root is the value of the tree. After a return the stack holds the
        root alone. */
    method Parse(doc: bytes, root0: Value) returns (status: P.Status, root: Value)
      modifies `document, `current, `nodes, `errors, `stackDepth
      ensures Valid() && document == doc
      ensures var r := P.Parse(Inp(), root0);
        status == r.status && St() == r.st && (status != P.Threw ==> root == r.v && nodes == [root])
      ensures status != P.Threw ==> (status == P.Good <==> errors == [])
      ensures status == P.Good <==> exists t :: A.Accepted(Inp(), t)
      ensures forall t :: A.Accepted(Inp(), t) ==> root == A.TreeValue(doc, t)
    {
      document, current, errors := doc, 0, [];
      nodes := [root0];
      stackDepth := 0;
      P.ParseReports(Inp(), root0);
      A.AcceptedExactly(Inp(), root0);
      hide P.ReadValue, P.FirstToken, A.Accepted, A.TreeValue;
      status := ReadValue();
      if status == P.Threw { return P.Threw, root0; }
      root := nodes[0];
      var token := SkipCommentTokens();
      if strictRoot {
        if !root.Array? && !root.Object? {
          AddError(RootMustBeContainer, Token(ErrorToken, 0, |document|), Nowhere);
          return P.Bad, root;
        }
      }
    }
  }
}
