/** The grammar of RFC 8259 as concrete syntax trees, and what the reader makes of every text of it. */
module JsonGrammar {
  import opened Bytes
  import opened Numerals
  import opened JsonValue
  import opened JsonLexer
  import opened JsonText
  import opened JsonDecode
  import opened JsonStrings
  import opened JsonParse
  import opened JsonRoundTrip
  import opened JsonReadBack

  // ---------------------------------------------------------------- the grammar

  /** A character of a string (section 7): itself, a one-letter escape, or \u and four hexadecimal
      digits. */
  datatype Char = Plain(b: byte) | Short(letter: byte) | Unit(digits: bytes)

  /** A value (sections 3 to 7), spelled out: with the parts of its numbers, the characters of its
      strings, and the white space around everything. */
  datatype Json =
    | JNull
    | JBool(b: bool)
    | JNumber(minus: bytes, whole: bytes, frac: bytes, exp: bytes)
    | JString(chars: seq<Char>)
    | JArray(blank: bytes, items: seq<Element>)
    | JObject(blank: bytes, members: seq<Pair>)

  datatype Element = Element(before: bytes, v: Json, after: bytes)

  datatype Pair = Pair(before: bytes, key: seq<Char>, between: bytes, item: Element)

  /** The reader takes control characters for themselves, and they are no characters of the grammar. */
  predicate IsChar(c: Char) {
    match c
    case Plain(b) => b != QUOTE && b != BACKSLASH
    case Short(letter) => letter != LOWER_U && Unescape(letter) >= 0
    case Unit(digits) => |digits| == 4 && forall k :: 0 <= k < 4 ==> HexDigitValue(digits[k]) >= 0
  }

  predicate AreChars(cs: seq<Char>) {
    forall k :: 0 <= k < |cs| ==> IsChar(cs[k])
  }

  predicate NoControls(cs: seq<Char>) {
    forall k :: 0 <= k < |cs| && cs[k].Plain? ==> cs[k].b >= 0x20
  }

  function NumberText(t: Json): bytes
    requires t.JNumber?
  {
    t.minus + t.whole + t.frac + t.exp
  }

  /** The tree is one of the grammar. */
  predicate IsJson(t: Json)
    decreases t
  {
    match t
    case JNumber(m, i, f, e) => AreNumberParts(NumberText(t), m, i, f, e)
    case JString(cs) => AreChars(cs) && NoControls(cs)
    case JArray(blank, items) => Blanks(blank) && AreItems(items)
    case JObject(blank, ms) => Blanks(blank) && ArePairs(ms)
    case _ => true
  }

  predicate AreItems(items: seq<Element>)
    decreases items
  {
    items == [] || (Blanks(items[0].before) && Blanks(items[0].after) && IsJson(items[0].v) && AreItems(items[1..]))
  }

  predicate ArePairs(ms: seq<Pair>)
    decreases ms
  {
    ms == [] ||
    (Blanks(ms[0].before) && AreChars(ms[0].key) && NoControls(ms[0].key) && Blanks(ms[0].between)
     && Blanks(ms[0].item.before) && Blanks(ms[0].item.after) && IsJson(ms[0].item.v) && ArePairs(ms[1..]))
  }

  function CharText(c: Char): bytes {
    match c
    case Plain(b) => [b]
    case Short(letter) => [BACKSLASH, letter]
    case Unit(digits) => [BACKSLASH, LOWER_U] + digits
  }

  function CharsText(cs: seq<Char>): bytes {
    if cs == [] then [] else CharText(cs[0]) + CharsText(cs[1..])
  }

  function StringText(cs: seq<Char>): bytes {
    [QUOTE] + (CharsText(cs) + [QUOTE])
  }

  /** The text of the tree. */
  function Form(t: Json): bytes
    decreases t
  {
    match t
    case JNull => NULL_TEXT
    case JBool(b) => if b then TRUE_TEXT else FALSE_TEXT
    case JNumber(_, _, _, _) => NumberText(t)
    case JString(cs) => StringText(cs)
    case JArray(blank, items) => [LBRACKET] + (if items == [] then blank else ItemsForm(items)) + [RBRACKET]
    case JObject(blank, ms) => [LBRACE] + (if ms == [] then blank else PairsForm(ms)) + [RBRACE]
  }

  function ItemsForm(items: seq<Element>): bytes
    decreases items
  {
    if items == [] then [] else items[0].before + ItemsRest(items)
  }

  /** What stands behind the white space in front of the first item. */
  function ItemsRest(items: seq<Element>): bytes
    requires items != []
    decreases items, 0
  {
    Form(items[0].v) + (items[0].after + (CommaText(|items| > 1) + ItemsForm(items[1..])))
  }

  function PairsForm(ms: seq<Pair>): bytes
    decreases ms
  {
    if ms == [] then [] else ms[0].before + (StringText(ms[0].key) + PairRest(ms))
  }

  /** What stands behind the name of the first member. */
  function PairRest(ms: seq<Pair>): bytes
    requires ms != []
    decreases ms, 0
  {
    var e := ms[0].item;
    ms[0].between + ([COLON] + (e.before + (Form(e.v) + (e.after + (CommaText(|ms| > 1) + PairsForm(ms[1..]))))))
  }

  // ---------------------------------------------------------------- its meaning

  function UnitValue(digits: bytes): nat
    requires |digits| == 4 && forall k :: 0 <= k < 4 ==> HexDigitValue(digits[k]) >= 0
  {
    ((HexDigitValue(digits[0]) * 16 + HexDigitValue(digits[1])) * 16 + HexDigitValue(digits[2])) * 16
    + HexDigitValue(digits[3])
  }

  predicate IsHigh(c: Char)
    requires IsChar(c)
  {
    c.Unit? && IsHighSurrogate(UnitValue(c.digits))
  }

  /** Every \u escape of a high surrogate is followed by another \u escape. */
  predicate Paired(cs: seq<Char>)
    requires AreChars(cs)
    decreases |cs|
  {
    if cs == [] then true
    else if IsHigh(cs[0]) then |cs| > 1 && cs[1].Unit? && Paired(cs[2..])
    else Paired(cs[1..])
  }

  /** The string in UTF-8; two escapes with a high surrogate first are one code point. */
  function Meaning(cs: seq<Char>): bytes
    requires AreChars(cs) && Paired(cs)
    decreases |cs|
  {
    if cs == [] then []
    else if IsHigh(cs[0]) then
      Utf8(0x10000 + UnitValue(cs[0].digits) % 0x400 * 0x400 + UnitValue(cs[1].digits) % 0x400) + Meaning(cs[2..])
    else
      (match cs[0]
       case Plain(b) => [b]
       case Short(letter) => [Unescape(letter)]
       case Unit(digits) => Utf8(UnitValue(digits)))
      + Meaning(cs[1..])
  }

  /** The number is an integer of the 64-bit range. */
  predicate IsInteger(t: Json)
    requires t.JNumber? && IsJson(t)
  {
    && t.frac == [] && t.exp == []
    && DigitsValue(t.whole) <= if t.minus == [] then MAX_LARGEST_UINT else -MIN_LARGEST_INT
  }

  function NumberOf(t: Json): Value
    requires t.JNumber? && IsJson(t)
  {
    if IsInteger(t) then
      var n: int := DigitsValue(t.whole);
      Retag(if t.minus == [] then n else -n)
    else Real(NumberText(t))
  }

  /** How reading the tree with room for so many levels ends: strings have to be paired, numbers
      outside of the 64-bit integers have to be doubles, and the first item that fails decides. */
  function Fate(t: Json, room: int, isDouble: bytes -> bool): Status
    requires IsJson(t)
    decreases t
  {
    if room <= 0 then Threw
    else
      match t
      case JNumber(_, _, _, _) => if IsInteger(t) || isDouble(NumberText(t)) then Good else Bad
      case JString(cs) => if Paired(cs) then Good else Bad
      case JArray(_, items) => ItemsFate(items, room - 1, isDouble)
      case JObject(_, ms) => PairsFate(ms, room - 1, isDouble)
      case _ => Good
  }

  function ItemsFate(items: seq<Element>, room: int, isDouble: bytes -> bool): Status
    requires AreItems(items)
    decreases items
  {
    if items == [] then Good
    else
      var first := Fate(items[0].v, room, isDouble);
      if first != Good then first else ItemsFate(items[1..], room, isDouble)
  }

  function PairsFate(ms: seq<Pair>, room: int, isDouble: bytes -> bool): Status
    requires ArePairs(ms)
    decreases ms
  {
    if ms == [] then Good
    else if !Paired(ms[0].key) then Bad
    else
      var first := Fate(ms[0].item.v, room, isDouble);
      if first != Good then first else PairsFate(ms[1..], room, isDouble)
  }

  /** All strings of the tree are paired. */
  predicate AllPaired(t: Json)
    requires IsJson(t)
    decreases t
  {
    match t
    case JString(cs) => Paired(cs)
    case JArray(_, items) => ItemsPaired(items)
    case JObject(_, ms) => PairsPaired(ms)
    case _ => true
  }

  predicate ItemsPaired(items: seq<Element>)
    requires AreItems(items)
    decreases items
  {
    items == [] || (AllPaired(items[0].v) && ItemsPaired(items[1..]))
  }

  predicate PairsPaired(ms: seq<Pair>)
    requires ArePairs(ms)
    decreases ms
  {
    ms == [] || (Paired(ms[0].key) && AllPaired(ms[0].item.v) && PairsPaired(ms[1..]))
  }

  /** The value of a tree: of members with the same name the last one counts. */
  function ValueOf(t: Json): Value
    requires IsJson(t) && AllPaired(t)
    decreases t
  {
    match t
    case JNull => Null
    case JBool(b) => Bool(b)
    case JNumber(_, _, _, _) => NumberOf(t)
    case JString(cs) => Str(Meaning(cs))
    case JArray(_, items) => Array(ItemsOf(items))
    case JObject(_, ms) => Object(MembersOf([], ms))
  }

  function ItemsOf(items: seq<Element>): seq<Slot>
    requires AreItems(items) && ItemsPaired(items)
    decreases items
  {
    if items == [] then [] else [Item(ValueOf(items[0].v))] + ItemsOf(items[1..])
  }

  function MembersOf(acc: seq<Member>, ms: seq<Pair>): seq<Member>
    requires ArePairs(ms) && PairsPaired(ms)
    decreases ms
  {
    if ms == [] then acc
    else MembersOf(Store(acc, Meaning(ms[0].key), ValueOf(ms[0].item.v)), ms[1..])
  }

  // ---------------------------------------------------------------- tokens behind white space

  /** White space in front of a token does not matter. */
  lemma BlanksAhead(doc: bytes, p: nat, blank: bytes)
    requires Blanks(blank) && At(doc, p, blank)
    ensures p + |blank| <= |doc|
    ensures ReadToken(doc, p) == ReadToken(doc, p + |blank|)
    ensures forall k :: p <= k < p + |blank| ==> IsBlank(doc[k])
  {
    hide TokenRest, SkipSpaces;
    AtBounds(doc, p, blank);
    AtIndex(doc, p, blank);
    forall k | p <= k < p + |blank| ensures IsBlank(doc[k]) { assert doc[p + (k - p)] == blank[k - p]; }
    SkipSpacesOver(doc, p, |blank|);
  }

  lemma {:induction false} NoComment(doc: bytes, p: nat)
    requires p <= |doc| && ReadToken(doc, p).kind != CommentToken
    ensures SkipComments(doc, p) == ReadToken(doc, p)
  {
    hide ReadToken;
  }

  /** A one-byte token behind white space; a number in front of it ends. */
  lemma {:induction false} PunctuationAhead(doc: bytes, p: nat, blank: bytes, l: Lexeme)
    requires Blanks(blank) && At(doc, p, blank) && IsPunctuation(l) && At(doc, p + |blank|, l.text)
    ensures p + |blank| + 1 <= |doc|
    ensures ReadToken(doc, p) == Token(l.kind, p + |blank|, p + |blank| + 1)
    ensures SkipComments(doc, p) == ReadToken(doc, p) && NumberStops(doc, p)
  {
    hide ReadToken, SkipComments;
    BlanksAhead(doc, p, blank);
    var q := p + |blank|;
    AtBounds(doc, q, l.text);
    AtIndex(doc, q, l.text);
    assert doc[q + 0] == l.text[0];
    PunctuationToken(doc, q, l);
    NoComment(doc, p);
  }

  // ---------------------------------------------------------------- strings

  lemma CharParts(doc: bytes, p: nat, c: Char)
    requires IsChar(c) && At(doc, p, CharText(c))
    ensures p + |CharText(c)| <= |doc|
    ensures c.Plain? ==> doc[p] == c.b && |CharText(c)| == 1
    ensures c.Short? ==> doc[p] == BACKSLASH && doc[p + 1] == c.letter && |CharText(c)| == 2
    ensures c.Unit? ==> doc[p] == BACKSLASH && doc[p + 1] == LOWER_U && |CharText(c)| == 6
    ensures c.Unit? ==> forall k :: 0 <= k < 4 ==> doc[p + 2 + k] == c.digits[k]
  {
    hide At;
    AtBounds(doc, p, CharText(c));
    AtIndex(doc, p, CharText(c));
    assert doc[p + 0] == CharText(c)[0];
    if !c.Plain? { assert doc[p + 1] == CharText(c)[1]; }
    if c.Unit? {
      forall k | 0 <= k < 4 ensures doc[p + 2 + k] == c.digits[k] {
        assert doc[p + (2 + k)] == CharText(c)[2 + k];
      }
    }
  }

  /** readString passes over a character as a whole. */
  lemma {:induction false} StringEndOverChar(doc: bytes, p: nat, c: Char)
    requires IsChar(c) && At(doc, p, CharText(c)) && p + |CharText(c)| < |doc|
    ensures StringEnd(doc, p) == StringEnd(doc, p + |CharText(c)|)
  {
    hide At, CharText;
    CharParts(doc, p, c);
    if c.Unit? {
      forall k | p + 2 <= k < p + 6 ensures doc[k] != BACKSLASH && doc[k] != QUOTE {
        assert doc[p + 2 + (k - p - 2)] == c.digits[k - p - 2];
      }
      StringEndOverPlain(doc, p + 2, 4);
    }
  }

  lemma {:induction false} StringEndOverChars(doc: bytes, p: nat, cs: seq<Char>)
    requires AreChars(cs) && At(doc, p, CharsText(cs) + [QUOTE])
    ensures StringEnd(doc, p) == (true, p + |CharsText(cs)| + 1)
    decreases |cs|
  {
    hide IsChar, At, StringEnd, CharText;
    if cs == [] {
      assert CharsText(cs) + [QUOTE] == [QUOTE];
      StringEndAtQuote(doc, p);
    } else {
      var rest := CharsText(cs[1..]) + [QUOTE];
      assert CharsText(cs) + [QUOTE] == CharText(cs[0]) + rest;
      AtConcat(doc, p, CharText(cs[0]), rest);
      AtBounds(doc, p + |CharText(cs[0])|, rest);
      StringEndOverChar(doc, p, cs[0]);
      StringEndOverChars(doc, p + |CharText(cs[0])|, cs[1..]);
    }
  }

  /** Four hexadecimal digits in the document. */
  lemma UnitDecodes(doc: bytes, p: nat, end: nat, digits: bytes)
    requires IsChar(Unit(digits)) && p + 4 <= end <= |doc|
    requires forall k :: 0 <= k < 4 ==> doc[p + k] == digits[k]
    ensures DecodeEscape(doc, p, end) == HexValue(UnitValue(digits), p + 4)
  {
    hide HexDigitValue, DecodeEscape;
    assert doc[p + 0] == digits[0] && doc[p + 1] == digits[1] && doc[p + 2] == digits[2] && doc[p + 3] == digits[3];
    FourHexDigits(doc, p, end, HexDigitValue(digits[0]), HexDigitValue(digits[1]), HexDigitValue(digits[2]),
                  HexDigitValue(digits[3]));
  }

  /** One turn of decodeString for a character that is no high surrogate. */
  lemma {:induction false} DecodeLowChar(doc: bytes, p: nat, end: nat, acc: bytes, c: Char)
    requires IsChar(c) && !IsHigh(c) && At(doc, p, CharText(c)) && p + |CharText(c)| <= end <= |doc|
    ensures DecodeLoop(doc, p, end, acc) == DecodeLoop(doc, p + |CharText(c)|, end, acc + CharMeaning(c))
  {
    hide At, CharText, DecodeLoop, Utf8, DecodeEscape, HexDigitValue, UnitValue;
    CharParts(doc, p, c);
    match c
    case Plain(b) => DecodePlain(doc, p, end, acc);
    case Short(letter) => DecodeShort(doc, p, end, acc);
    case Unit(digits) =>
      UnitDecodes(doc, p + 2, end, digits);
      DecodeUnicode(doc, p, end, acc, UnitValue(digits), p + 6);
  }

  function CharMeaning(c: Char): bytes
    requires IsChar(c)
  {
    match c
    case Plain(b) => [b]
    case Short(letter) => [Unescape(letter)]
    case Unit(digits) => Utf8(UnitValue(digits))
  }

  /** A high surrogate and the escape behind it. */
  lemma {:induction false} DecodePair(doc: bytes, p: nat, end: nat, acc: bytes, c: Char, d: Char)
    requires IsChar(c) && IsHigh(c) && IsChar(d) && d.Unit?
    requires At(doc, p, CharText(c)) && At(doc, p + 6, CharText(d)) && p + 12 <= end <= |doc|
    ensures DecodeLoop(doc, p, end, acc) == DecodeLoop(doc, p + 12, end,
      acc + Utf8(0x10000 + UnitValue(c.digits) % 0x400 * 0x400 + UnitValue(d.digits) % 0x400))
  {
    hide At, CharText, DecodeLoop, Utf8, DecodeEscape, HexDigitValue, UnitValue;
    CharParts(doc, p, c);
    CharParts(doc, p + 6, d);
    UnitDecodes(doc, p + 2, end, c.digits);
    UnitDecodes(doc, p + 8, end, d.digits);
    DecodeUnicode(doc, p, end, acc,
                  0x10000 + UnitValue(c.digits) % 0x400 * 0x400 + UnitValue(d.digits) % 0x400, p + 12);
  }

  /** A high surrogate with no escape behind it. */
  lemma {:induction false} DecodeAlone(doc: bytes, p: nat, end: nat, acc: bytes, c: Char, cs: seq<Char>)
    requires IsChar(c) && IsHigh(c) && AreChars(cs) && (cs == [] || !cs[0].Unit?)
    requires At(doc, p, CharText(c)) && At(doc, p + 6, CharsText(cs)) && end == p + 6 + |CharsText(cs)| <= |doc|
    ensures DecodeLoop(doc, p, end, acc).BadText?
  {
    hide At, CharText, DecodeLoop, Utf8, DecodeEscape, HexDigitValue, UnitValue;
    CharParts(doc, p, c);
    UnitDecodes(doc, p + 2, end, c.digits);
    if cs != [] {
      AtConcat(doc, p + 6, CharText(cs[0]), CharsText(cs[1..]));
      CharParts(doc, p + 6, cs[0]);
    }
    assert DecodeCodePoint(doc, p + 2, end).HexError?;
    DecodeBadUnicode(doc, p, end, acc);
  }

  lemma {:induction false} DecodeBadUnicode(doc: bytes, p: nat, end: nat, acc: bytes)
    requires p + 2 <= end <= |doc| && doc[p] == BACKSLASH && doc[p + 1] == LOWER_U
    requires DecodeCodePoint(doc, p + 2, end).HexError?
    ensures DecodeLoop(doc, p, end, acc).BadText?
  {
    hide DecodeCodePoint, Utf8, Unescape;
  }

  lemma {:induction false} DecodeChars(doc: bytes, p: nat, end: nat, acc: bytes, cs: seq<Char>)
    requires AreChars(cs) && At(doc, p, CharsText(cs)) && end == p + |CharsText(cs)|
    ensures end <= |doc|
    ensures Paired(cs) ==> DecodeLoop(doc, p, end, acc) == Text(acc + Meaning(cs))
    ensures !Paired(cs) ==> DecodeLoop(doc, p, end, acc).BadText?
    decreases |cs|
  {
    hide IsChar, At, DecodeLoop, CharText, Utf8, UnitValue, IsHigh;
    AtBounds(doc, p, CharsText(cs));
    if cs == [] {
      DecodeAtEnd(doc, end, acc);
      assert acc + [] == acc;
    } else {
      var c, rest := cs[0], cs[1..];
      AtConcat(doc, p, CharText(c), CharsText(rest));
      if !IsHigh(c) {
        DecodeLowChar(doc, p, end, acc, c);
        DecodeChars(doc, p + |CharText(c)|, end, acc + CharMeaning(c), rest);
        if Paired(cs) { MeaningOfFirst(cs, acc); }
      } else {
        HighIsUnit(c);
        if rest == [] || !rest[0].Unit? {
          DecodeAlone(doc, p, end, acc, c, rest);
        } else {
          DecodePairThenRest(doc, p, end, acc, cs);
        }
      }
    }
  }

  lemma HighIsUnit(c: Char)
    requires IsChar(c) && IsHigh(c)
    ensures c.Unit? && |CharText(c)| == 6
  {
  }

  lemma UnitIsSix(c: Char)
    requires IsChar(c) && c.Unit?
    ensures |CharText(c)| == 6
  {
  }

  lemma {:induction false} DecodePairThenRest(doc: bytes, p: nat, end: nat, acc: bytes, cs: seq<Char>)
    requires |cs| > 1 && AreChars(cs) && IsHigh(cs[0]) && cs[1].Unit?
    requires At(doc, p, CharsText(cs)) && end == p + |CharsText(cs)|
    ensures end <= |doc|
    ensures Paired(cs) ==> DecodeLoop(doc, p, end, acc) == Text(acc + Meaning(cs))
    ensures !Paired(cs) ==> DecodeLoop(doc, p, end, acc).BadText?
    decreases |cs|, 0
  {
    hide IsChar, At, DecodeLoop, CharText, Utf8, UnitValue, IsHigh;
    var c, d, rest := cs[0], cs[1], cs[2..];
    assert cs[1..][0] == d && cs[1..][1..] == rest;
    AtBounds(doc, p, CharsText(cs));
    AtConcat(doc, p, CharText(c), CharsText(cs[1..]));
    HighIsUnit(c);
    AtConcat(doc, p + 6, CharText(d), CharsText(rest));
    UnitIsSix(d);
    HighHasDigits(c, d);
    DecodePair(doc, p, end, acc, c, d);
    var u := Utf8(0x10000 + UnitValue(c.digits) % 0x400 * 0x400 + UnitValue(d.digits) % 0x400);
    DecodeChars(doc, p + 12, end, acc + u, rest);
    if Paired(cs) { assert acc + u + Meaning(rest) == acc + (u + Meaning(rest)); }
  }

  lemma HighHasDigits(c: Char, d: Char)
    requires IsChar(c) && IsHigh(c) && IsChar(d) && d.Unit?
    ensures |c.digits| == 4 && forall k :: 0 <= k < 4 ==> HexDigitValue(c.digits[k]) >= 0
    ensures |d.digits| == 4 && forall k :: 0 <= k < 4 ==> HexDigitValue(d.digits[k]) >= 0
  {
  }

  lemma {:induction false} MeaningOfFirst(cs: seq<Char>, acc: bytes)
    requires cs != [] && AreChars(cs) && !IsHigh(cs[0]) && Paired(cs)
    ensures acc + Meaning(cs) == acc + CharMeaning(cs[0]) + Meaning(cs[1..])
  {
    hide IsChar, Utf8, UnitValue, IsHigh;
  }

  /** A string of the grammar is one token, and decodes to its meaning or not at all. */
  lemma {:induction false} StringReads(doc: bytes, p: nat, cs: seq<Char>)
    requires AreChars(cs) && At(doc, p, StringText(cs))
    ensures p + |StringText(cs)| <= |doc| && |StringText(cs)| >= 2
    ensures ReadToken(doc, p) == Token(StringToken, p, p + |StringText(cs)|)
    ensures var d := DecodeString(doc, p, p + |StringText(cs)|);
      if Paired(cs) then d == Text(Meaning(cs)) else d.BadText?
  {
    hide AreChars, At, CharsText, StringEnd, DecodeLoop, Meaning, Paired;
    AtBounds(doc, p, StringText(cs));
    AtConcat(doc, p, [QUOTE], CharsText(cs) + [QUOTE]);
    AtConcat(doc, p + 1, CharsText(cs), [QUOTE]);
    QuoteAt(doc, p);
    StringEndOverChars(doc, p + 1, cs);
    QuoteToken(doc, p);
    DecodeChars(doc, p + 1, p + 1 + |CharsText(cs)|, [], cs);
    if Paired(cs) { assert [] + Meaning(cs) == Meaning(cs); }
  }

  lemma QuoteAt(doc: bytes, p: nat)
    requires At(doc, p, [QUOTE])
    ensures p < |doc| && doc[p] == QUOTE
  {
    AtIndex(doc, p, [QUOTE]);
    assert doc[p + 0] == QUOTE;
  }

  lemma {:induction false} QuoteToken(doc: bytes, p: nat)
    requires p < |doc| && doc[p] == QUOTE && StringEnd(doc, p + 1).0
    ensures ReadToken(doc, p) == Token(StringToken, p, StringEnd(doc, p + 1).1)
  {
    hide StringEnd, NumberEnd, CommentEnd, Matches;
    assert SkipSpaces(doc, p) == p;
  }

  // ---------------------------------------------------------------- numbers

  /** decodeNumber on a number of the grammar. */
  lemma {:induction false} NumberDecodes(t: Json)
    requires t.JNumber? && IsJson(t)
    ensures DecodeNumber(NumberText(t)) == if IsInteger(t) then Integer(NumberOf(t)) else Double
  {
    hide DigitsValue;
    var text := NumberText(t);
    PartsInText(text, t.minus, t.whole, t.frac, t.exp);
    if t.frac == [] && t.exp == [] {
      assert text == t.minus + t.whole;
      assert t.minus == [] ==> IsDigit(t.whole[0]);
    } else {
      var k :| 1 <= k < |text| && !IsDigit(text[k]);
      NoDigit(text, k);
    }
  }

  lemma NoDigit(text: bytes, k: nat)
    requires 1 <= k < |text| && !IsDigit(text[k])
    ensures !AllDigits(Digits(text))
  {
    var d := Digits(text);
    assert d[k - (|text| - |d|)] == text[k];
  }

  /** Digits that stand in the document and end there. */
  lemma {:induction false} DigitsAt(doc: bytes, p: nat, d: bytes)
    requires AllDigits(d) && At(doc, p, d) && !IsDigit(ByteAt(doc, p + |d|))
    ensures p + |d| <= |doc| && SkipDigits(doc, p) == p + |d|
  {
    AtBounds(doc, p, d);
    AtIndex(doc, p, d);
    forall k | p <= k < p + |d| ensures IsDigit(doc[k]) { assert doc[p + (k - p)] == d[k - p]; }
    SkipDigitsOver(doc, p, |d|);
  }

  lemma FractionAt(doc: bytes, p: nat, f: bytes)
    requires IsFraction(f) && At(doc, p, f)
    requires var c := ByteAt(doc, p + |f|); !IsDigit(c) && c != DOT
    ensures p + |f| <= |doc| && FractionEnd(doc, p) == p + |f|
  {
    hide SkipDigits, At;
    AtBounds(doc, p, f);
    AtIndex(doc, p, f);
    if f != [] {
      assert doc[p + 0] == DOT;
      assert f == [DOT] + f[1..];
      AtConcat(doc, p, [DOT], f[1..]);
      DigitsAt(doc, p + 1, f[1..]);
    }
  }

  lemma ExponentAt(doc: bytes, p: nat, e: bytes)
    requires IsExponent(e) && At(doc, p, e) && NumberStops(doc, p + |e|)
    ensures p + |e| <= |doc| && ExponentEnd(doc, p) == p + |e|
  {
    hide SkipDigits, At, IsExponent;
    AtBounds(doc, p, e);
    AtIndex(doc, p, e);
    if e != [] {
      var n := SignEnd(e);
      ExponentDigits(e);
      assert doc[p + 0] == e[0] && doc[p + 1] == e[1];
      AtConcat(doc, p, e[..n], e[n..]);
      DigitsAt(doc, p + n, e[n..]);
    }
  }

  /** Where the digits of an exponent start. */
  function SignEnd(e: bytes): nat {
    if |e| > 1 && e[1] in {PLUS, MINUS} then 2 else 1
  }

  lemma ExponentDigits(e: bytes)
    requires IsExponent(e) && e != []
    ensures var n := SignEnd(e);
      && n < |e| && |e| > 1 && e == e[..n] + e[n..] && |e[..n]| == n && AllDigits(e[n..])
      && e[0] in {LOWER_E, UPPER_E}
  {
    assert e == e[..1] + e[1..];
    if |e| > 1 { assert e == e[..2] + e[2..]; }
  }

  lemma {:induction false} NumberReads(doc: bytes, p: nat, t: Json)
    requires t.JNumber? && IsJson(t) && At(doc, p, NumberText(t)) && NumberStops(doc, p + |NumberText(t)|)
    ensures p + |NumberText(t)| <= |doc|
    ensures ReadToken(doc, p) == Token(NumberToken, p, p + |NumberText(t)|)
  {
    hide SkipDigits, At, FractionEnd, ExponentEnd, IsFraction, IsExponent, IsIntPart, AllDigits, NumberStops;
    var m, i, f, e := t.minus, t.whole, t.frac, t.exp;
    AtBounds(doc, p, NumberText(t));
    AtConcat(doc, p, m + i + f, e);
    AtConcat(doc, p, m + i, f);
    FirstOfNumber(doc, p, m, i);
    var a := p + |m + i|;
    PartsStop(doc, a, f, e);
    DigitsAt(doc, p + 1, (m + i)[1..]);
    FractionAt(doc, a, f);
    ExponentAt(doc, a + |f|, e);
    NumberToken1(doc, p);
  }

  /** Digits do not run into a fraction or an exponent, nor a fraction into an exponent. */
  lemma PartsStop(doc: bytes, a: nat, f: bytes, e: bytes)
    requires IsFraction(f) && IsExponent(e) && At(doc, a, f) && At(doc, a + |f|, e)
    requires NumberStops(doc, a + |f| + |e|)
    ensures !IsDigit(ByteAt(doc, a)) && !IsDigit(ByteAt(doc, a + |f|)) && ByteAt(doc, a + |f|) != DOT
  {
    hide At, IsFraction, IsExponent;
    FirstByte(doc, a + |f|, e, a + |f| + |e|);
    FirstByte(doc, a, f, a + |f|);
    FirstsOfParts(f, e);
  }

  /** The byte behind a part: that of the next part, or the one behind that. */
  lemma FirstByte(doc: bytes, p: nat, w: bytes, q: nat)
    requires At(doc, p, w) && q == p + |w|
    ensures ByteAt(doc, p) == if w == [] then ByteAt(doc, q) else w[0]
  {
    AtIndex(doc, p, w);
    if w != [] { assert doc[p + 0] == w[0]; }
  }

  lemma FirstsOfParts(f: bytes, e: bytes)
    requires IsFraction(f) && IsExponent(e)
    ensures f != [] ==> f[0] == DOT
    ensures e != [] ==> e[0] in {LOWER_E, UPPER_E}
  {
  }

  lemma FirstOfNumber(doc: bytes, p: nat, m: bytes, i: bytes)
    requires m in {[], [MINUS]} && IsIntPart(i) && At(doc, p, m + i)
    ensures m + i != [] && p < |doc| && (IsDigit(doc[p]) || doc[p] == MINUS)
    ensures AllDigits((m + i)[1..]) && At(doc, p + 1, (m + i)[1..])
  {
    hide At, IsIntPart, AllDigits;
    var w := m + i;
    IntegerTail(m, i);
    AtConcat(doc, p, [w[0]], w[1..]);
    OneByteAt(doc, p, w[0]);
  }

  lemma IntegerTail(m: bytes, i: bytes)
    requires m in {[], [MINUS]} && IsIntPart(i)
    ensures var w := m + i;
      w != [] && w == [w[0]] + w[1..] && (IsDigit(w[0]) || w[0] == MINUS) && AllDigits(w[1..])
  {
    var w := m + i;
    if m == [] { assert w == i; } else { assert w[1..] == i; }
  }

  lemma OneByteAt(doc: bytes, p: nat, b: byte)
    requires At(doc, p, [b])
    ensures p < |doc| && doc[p] == b
  {
    assert doc[p..p + 1][0] == doc[p];
  }

  lemma NumberToken1(doc: bytes, p: nat)
    requires p < |doc| && (IsDigit(doc[p]) || doc[p] == MINUS)
    ensures ReadToken(doc, p) == Token(NumberToken, p, NumberEnd(doc, p + 1))
  {
    hide NumberEnd, StringEnd, CommentEnd, Matches;
    assert SkipSpaces(doc, p) == p;
  }

  // ---------------------------------------------------------------- scalars

  predicate IsLeaf(t: Json) {
    !t.JArray? && !t.JObject?
  }

  function LeafKind(t: Json): TokenType
    requires IsLeaf(t)
  {
    match t
    case JNull => NullToken
    case JBool(b) => if b then TrueToken else FalseToken
    case JNumber(_, _, _, _) => NumberToken
    case JString(_) => StringToken
  }

  lemma {:induction false} LeafToken(doc: bytes, p: nat, t: Json)
    requires IsJson(t) && IsLeaf(t) && At(doc, p, Form(t)) && NumberStops(doc, p + |Form(t)|)
    ensures p + |Form(t)| <= |doc| && ReadToken(doc, p) == Token(LeafKind(t), p, p + |Form(t)|)
    ensures t.JString? ==> |Form(t)| >= 2
  {
    hide ReadToken, At, NumberText, StringText, AreNumberParts, NumberStops;
    AtBounds(doc, p, Form(t));
    match t
    case JNull => LiteralReads(doc, p, NULL_TEXT, ULL);
    case JBool(b) => if b { LiteralReads(doc, p, TRUE_TEXT, RUE); } else { LiteralReads(doc, p, FALSE_TEXT, ALSE); }
    case JNumber(_, _, _, _) => NumberReads(doc, p, t);
    case JString(cs) => StringReads(doc, p, cs);
  }

  /** A scalar token of the grammar gives the value, or one error. */
  lemma {:induction false} ReadLeaf(inp: Input, s: State, p: nat, cur: Value, t: Json)
    requires IsJson(t) && IsLeaf(t) && At(inp.doc, p, Form(t)) && p + |Form(t)| <= |inp.doc|
    requires t.JString? ==> |Form(t)| >= 2
    ensures var r := ReadScalar(inp, s, Token(LeafKind(t), p, p + |Form(t)|), cur);
      && r.status == Fate(t, 1, inp.isDouble)
      && (r.status == Good ==> AllPaired(t) && r == Result(Good, s.(depth := s.depth - 1), ValueOf(t)))
  {
    hide At, NumberText, StringText, AreNumberParts, DecodeString, DecodeNumber, Meaning, Paired, AreChars, IsInteger, NumberOf;
    match t
    case JNumber(_, _, _, _) =>
      TextAtPlace(inp.doc, p, Form(t));
      NumberDecodes(t);
      if !IsInteger(t) { DoubleOf(t); }
    case JString(cs) => StringReads(inp.doc, p, cs);
    case _ =>
  }

  lemma {:induction false} DoubleOf(t: Json)
    requires t.JNumber? && IsJson(t) && !IsInteger(t)
    ensures NumberOf(t) == Real(NumberText(t))
  {
  }

  lemma TextAtPlace(doc: bytes, p: nat, w: bytes)
    requires At(doc, p, w)
    ensures p + |w| <= |doc| && doc[p..p + |w|] == w
  {
  }

  // ---------------------------------------------------------------- the reader on a tree

  lemma {:induction false} FormStarts(t: Json)
    requires IsJson(t)
    ensures Form(t) != [] && !IsBlank(Form(t)[0]) && Form(t)[0] != RBRACKET
  {
    hide ItemsForm, PairsForm, CharsText;
    if t.JNumber? { assert Form(t)[0] == (t.minus + t.whole)[0]; }
  }

  /** Reading a text of the grammar behind white space. */
  lemma {:induction false} ReadTree(inp: Input, st: State, cur: Value, blank: bytes, t: Json)
    requires IsJson(t) && Blanks(blank) && At(inp.doc, st.pos, blank) && At(inp.doc, st.pos + |blank|, Form(t))
    requires NumberStops(inp.doc, st.pos + |blank| + |Form(t)|)
    ensures st.pos + |blank| + |Form(t)| <= |inp.doc|
    ensures var r := ReadValue(inp, st, cur);
      && r.status == Fate(t, STACK_LIMIT - st.depth, inp.isDouble)
      && (r.status == Good ==>
            AllPaired(t) && r == Result(Good, st.(pos := st.pos + |blank| + |Form(t)|), ValueOf(t)))
    decreases t, 3
  {
    hide *;
    AtBounds(inp.doc, st.pos, blank);
    AtBounds(inp.doc, st.pos + |blank|, Form(t));
    if st.depth >= STACK_LIMIT {
      ReadValueAtLimit(inp, st, cur);
      NoRoom(t, STACK_LIMIT - st.depth, inp.isDouble);
    } else if t.JArray? {
      ReadArrayValue(inp, st, cur, blank, t);
    } else if t.JObject? {
      ReadObjectValue(inp, st, cur, blank, t);
    } else {
      ReadLeafValue(inp, st, cur, blank, t);
    }
  }

  lemma {:induction false} ReadArrayValue(inp: Input, st: State, cur: Value, blank: bytes, t: Json)
    requires IsJson(t) && Blanks(blank) && At(inp.doc, st.pos, blank) && At(inp.doc, st.pos + |blank|, Form(t))
    requires t.JArray? && st.depth < STACK_LIMIT
    ensures st.pos + |blank| + |Form(t)| <= |inp.doc|
    ensures var r := ReadValue(inp, st, cur);
      && r.status == Fate(t, STACK_LIMIT - st.depth, inp.isDouble)
      && (r.status == Good ==>
            AllPaired(t) && r == Result(Good, st.(pos := st.pos + |blank| + |Form(t)|), ValueOf(t)))
    decreases t, 2
  {
    hide *;
    var doc, p := inp.doc, st.pos + |blank|;
    AtBounds(doc, st.pos, blank);
    AtBounds(doc, p, Form(t));
    ReadValueStep(inp, st, cur);
    var s := st.(pos := p + 1, depth := st.depth + 1);
    ArrayParts(doc, p, t);
    ArrayBeginIs();
    PunctuationAhead(doc, st.pos, blank, L_ARRAY_BEGIN);
    FirstIsToken(inp, st.pos);
    ReadArrayTree(inp, s, t.blank, t.items);
    ArrayOf(t, STACK_LIMIT - st.depth, inp.isDouble);
    LeaveIs(ReadArray(inp, s));
  }

  lemma {:induction false} ReadObjectValue(inp: Input, st: State, cur: Value, blank: bytes, t: Json)
    requires IsJson(t) && Blanks(blank) && At(inp.doc, st.pos, blank) && At(inp.doc, st.pos + |blank|, Form(t))
    requires t.JObject? && st.depth < STACK_LIMIT
    ensures st.pos + |blank| + |Form(t)| <= |inp.doc|
    ensures var r := ReadValue(inp, st, cur);
      && r.status == Fate(t, STACK_LIMIT - st.depth, inp.isDouble)
      && (r.status == Good ==>
            AllPaired(t) && r == Result(Good, st.(pos := st.pos + |blank| + |Form(t)|), ValueOf(t)))
    decreases t, 2
  {
    hide *;
    var doc, p := inp.doc, st.pos + |blank|;
    AtBounds(doc, st.pos, blank);
    AtBounds(doc, p, Form(t));
    ReadValueStep(inp, st, cur);
    var s := st.(pos := p + 1, depth := st.depth + 1);
    ObjectParts(doc, p, t);
    ObjectBeginIs();
    PunctuationAhead(doc, st.pos, blank, L_OBJECT_BEGIN);
    FirstIsToken(inp, st.pos);
    ReadMembersTree(inp, s, t.blank, t.members);
    ObjectOf(t, STACK_LIMIT - st.depth, inp.isDouble);
    LeaveIs(ReadObject(inp, s, [], []));
  }

  lemma {:induction false} ReadLeafValue(inp: Input, st: State, cur: Value, blank: bytes, t: Json)
    requires IsJson(t) && Blanks(blank) && At(inp.doc, st.pos, blank) && At(inp.doc, st.pos + |blank|, Form(t))
    requires NumberStops(inp.doc, st.pos + |blank| + |Form(t)|)
    requires !t.JArray? && !t.JObject? && st.depth < STACK_LIMIT
    ensures st.pos + |blank| + |Form(t)| <= |inp.doc|
    ensures var r := ReadValue(inp, st, cur);
      && r.status == Fate(t, STACK_LIMIT - st.depth, inp.isDouble)
      && (r.status == Good ==>
            AllPaired(t) && r == Result(Good, st.(pos := st.pos + |blank| + |Form(t)|), ValueOf(t)))
  {
    hide *;
    var doc, p := inp.doc, st.pos + |blank|;
    AtBounds(doc, st.pos, blank);
    AtBounds(doc, p, Form(t));
    ReadValueStep(inp, st, cur);
    BlanksAhead(doc, st.pos, blank);
    LeafIs(t);
    LeafToken(doc, p, t);
    FirstIsToken(inp, st.pos);
    ReadLeaf(inp, st.(pos := p + |Form(t)|, depth := st.depth + 1), p, cur, t);
    RoomForLeaf(t, STACK_LIMIT - st.depth, inp.isDouble);
  }

  lemma {:induction false} NoRoom(t: Json, room: int, isDouble: bytes -> bool)
    requires IsJson(t) && room <= 0
    ensures Fate(t, room, isDouble) == Threw
  {
  }

  lemma {:induction false} RoomForLeaf(t: Json, room: int, isDouble: bytes -> bool)
    requires IsJson(t) && IsLeaf(t) && room > 0
    ensures Fate(t, room, isDouble) == Fate(t, 1, isDouble)
  {
    hide Paired, IsInteger;
  }

  lemma LeafIs(t: Json)
    requires !t.JArray? && !t.JObject?
    ensures IsLeaf(t) && LeafKind(t) !in {ArrayBegin, ObjectBegin, CommentToken}
  {
  }

  lemma ArrayBeginIs()
    ensures IsPunctuation(L_ARRAY_BEGIN) && L_ARRAY_BEGIN.kind == ArrayBegin && L_ARRAY_BEGIN.text == [LBRACKET]
  {
  }

  lemma ObjectBeginIs()
    ensures IsPunctuation(L_OBJECT_BEGIN) && L_OBJECT_BEGIN.kind == ObjectBegin && L_OBJECT_BEGIN.text == [LBRACE]
  {
  }

  lemma FirstIsToken(inp: Input, p: nat)
    requires p <= |inp.doc| && ReadToken(inp.doc, p).kind != CommentToken
    ensures FirstToken(inp, p) == ReadToken(inp.doc, p)
  {
    NoComment(inp.doc, p);
    hide ReadToken, SkipComments;
  }

  lemma LeaveIs(r: Result)
    ensures Leave(r).status == r.status
    ensures r.status == Good ==> Leave(r) == Result(Good, r.st.(depth := r.st.depth - 1), r.v)
  {
  }

  /** The inside of a container and its closing bracket. */
  function ArrayBody(blank: bytes, items: seq<Element>): bytes {
    (if items == [] then blank else ItemsForm(items)) + [RBRACKET]
  }

  function ObjectBody(blank: bytes, ms: seq<Pair>): bytes {
    (if ms == [] then blank else PairsForm(ms)) + [RBRACE]
  }

  lemma {:induction false} ArrayParts(doc: bytes, p: nat, t: Json)
    requires t.JArray? && IsJson(t) && At(doc, p, Form(t))
    ensures At(doc, p, [LBRACKET]) && At(doc, p + 1, ArrayBody(t.blank, t.items))
    ensures |Form(t)| == 1 + |ArrayBody(t.blank, t.items)| && Blanks(t.blank) && AreItems(t.items)
  {
    hide At, ItemsForm, AreItems, Blanks;
    assert Form(t) == [LBRACKET] + ArrayBody(t.blank, t.items);
    AtConcat(doc, p, [LBRACKET], ArrayBody(t.blank, t.items));
  }

  lemma {:induction false} ObjectParts(doc: bytes, p: nat, t: Json)
    requires t.JObject? && IsJson(t) && At(doc, p, Form(t))
    ensures At(doc, p, [LBRACE]) && At(doc, p + 1, ObjectBody(t.blank, t.members))
    ensures |Form(t)| == 1 + |ObjectBody(t.blank, t.members)| && Blanks(t.blank) && ArePairs(t.members)
  {
    hide At, PairsForm, ArePairs, Blanks;
    assert Form(t) == [LBRACE] + ObjectBody(t.blank, t.members);
    AtConcat(doc, p, [LBRACE], ObjectBody(t.blank, t.members));
  }

  lemma {:induction false} ArrayOf(t: Json, room: int, isDouble: bytes -> bool)
    requires t.JArray? && IsJson(t) && room > 0
    ensures AreItems(t.items) && Fate(t, room, isDouble) == ItemsFate(t.items, room - 1, isDouble)
    ensures ItemsPaired(t.items) ==> AllPaired(t) && ValueOf(t) == Array(ItemsOf(t.items))
  {
    hide AreItems, ItemsFate, ItemsPaired, ItemsOf;
  }

  lemma {:induction false} ObjectOf(t: Json, room: int, isDouble: bytes -> bool)
    requires t.JObject? && IsJson(t) && room > 0
    ensures ArePairs(t.members) && Fate(t, room, isDouble) == PairsFate(t.members, room - 1, isDouble)
    ensures PairsPaired(t.members) ==> AllPaired(t) && ValueOf(t) == Object(MembersOf([], t.members))
  {
    hide ArePairs, PairsFate, PairsPaired, MembersOf;
  }

  // ---------------------------------------------------------------- arrays

  /** readArray on the inside of an array. */
  lemma {:induction false} ReadArrayTree(inp: Input, st: State, blank: bytes, items: seq<Element>)
    requires Blanks(blank) && AreItems(items) && At(inp.doc, st.pos, ArrayBody(blank, items))
    ensures st.pos + |ArrayBody(blank, items)| <= |inp.doc|
    ensures var r := ReadArray(inp, st);
      && r.status == ItemsFate(items, STACK_LIMIT - st.depth, inp.isDouble)
      && (r.status == Good ==>
            ItemsPaired(items)
            && r == Result(Good, st.(pos := st.pos + |ArrayBody(blank, items)|), Array(ItemsOf(items))))
    decreases items, 2
  {
    hide *;
    var doc := inp.doc;
    AtBounds(doc, st.pos, ArrayBody(blank, items));
    ReadArrayStep(inp, st);
    if items == [] {
      EmptyArray(blank, STACK_LIMIT - st.depth, inp.isDouble);
      AtConcat(doc, st.pos, blank, [RBRACKET]);
      ArrayEndIs();
      PunctuationAhead(doc, st.pos, blank, L_ARRAY_END);
    } else {
      var lead, tail := items[0].before, ItemsRest(items) + [RBRACKET];
      FilledArray(blank, items);
      AtConcat(doc, st.pos, lead, tail);
      var q := st.pos + |lead|;
      FirstItem(doc, st.pos, items);
      EmptyAt(doc, q, tail);
      ReadItemsTree(inp, st.(pos := q), [], [], items);
      if ItemsPaired(items) { assert [] + ItemsOf(items) == ItemsOf(items); }
    }
  }

  lemma {:induction false} EmptyArray(blank: bytes, room: int, isDouble: bytes -> bool)
    ensures ArrayBody(blank, []) == blank + [RBRACKET]
    ensures AreItems([]) && ItemsFate([], room, isDouble) == Good && ItemsPaired([]) && ItemsOf([]) == []
  {
  }

  lemma ArrayEndIs()
    ensures IsPunctuation(L_ARRAY_END) && L_ARRAY_END.kind == ArrayEnd && L_ARRAY_END.text == [RBRACKET]
    ensures IsPunctuation(L_COMMA) && L_COMMA.kind == ArraySeparator && L_COMMA.text == [COMMA]
  {
  }

  lemma {:induction false} FilledArray(blank: bytes, items: seq<Element>)
    requires items != [] && AreItems(items)
    ensures ArrayBody(blank, items) == items[0].before + (ItemsRest(items) + [RBRACKET])
    ensures Blanks(items[0].before) && IsJson(items[0].v)
  {
    hide ItemsRest, Blanks, IsJson;
  }

  lemma EmptyAt(doc: bytes, p: nat, w: bytes)
    requires At(doc, p, w)
    ensures At(doc, p, []) && Blanks([]) && p <= |doc|
  {
  }

  /** readArray skips the white space in front of the first item, which is no closing bracket. */
  lemma {:induction false} FirstItem(doc: bytes, p: nat, items: seq<Element>)
    requires items != [] && Blanks(items[0].before) && IsJson(items[0].v)
    requires At(doc, p, items[0].before) && At(doc, p + |items[0].before|, ItemsRest(items) + [RBRACKET])
    ensures p <= |doc| && ReadToken(doc, p).kind != ArrayEnd && SkipSpaces(doc, p) == p + |items[0].before|
  {
    hide At, ReadToken, Form, ItemsForm, IsJson, Blanks, SkipSpaces;
    var q, v := p + |items[0].before|, items[0].v;
    FormStarts(v);
    BlanksAhead(doc, p, items[0].before);
    AtIndex(doc, q, ItemsRest(items) + [RBRACKET]);
    AtBounds(doc, q, ItemsRest(items) + [RBRACKET]);
    assert doc[q + 0] == (ItemsRest(items) + [RBRACKET])[0] == Form(v)[0];
    SkipSpacesOver(doc, p, |items[0].before|);
    NoBlankHere(doc, q);
    PeekArrayEnd(doc, p);
  }

  lemma {:induction false} NoBlankHere(doc: bytes, q: nat)
    requires q < |doc| && !IsBlank(doc[q])
    ensures SkipSpaces(doc, q) == q
  {
  }

  /** The places of the first item and of what follows it. */
  lemma {:induction false} ItemPlaces(doc: bytes, q: nat, items: seq<Element>)
    requires items != [] && AreItems(items) && At(doc, q, ItemsRest(items) + [RBRACKET])
    ensures var e, rest := items[0], items[1..];
      var m := q + |Form(e.v)|;
      var n := m + |e.after| + 1;
      && IsJson(e.v) && Blanks(e.after) && AreItems(rest) && At(doc, q, Form(e.v)) && At(doc, m, e.after)
      && (rest == [] ==> At(doc, m + |e.after|, [RBRACKET]) && |ItemsRest(items)| == |Form(e.v)| + |e.after|)
      && (rest != [] ==>
            && At(doc, m + |e.after|, [COMMA]) && Blanks(rest[0].before) && At(doc, n, rest[0].before)
            && At(doc, n + |rest[0].before|, ItemsRest(rest) + [RBRACKET])
            && |ItemsRest(items)| == |Form(e.v)| + |e.after| + 1 + |rest[0].before| + |ItemsRest(rest)|)
  {
    hide At, Form, IsJson, Blanks;
    var e, rest := items[0], items[1..];
    var m := q + |Form(e.v)|;
    var n := m + |e.after|;
    ItemsRestIs(items);
    if rest == [] {
      AtConcat(doc, q, Form(e.v), e.after + [RBRACKET]);
      AtConcat(doc, m, e.after, [RBRACKET]);
    } else {
      hide ItemsRest;
      var tail := ItemsRest(rest) + [RBRACKET];
      AtConcat(doc, q, Form(e.v), e.after + ([COMMA] + (rest[0].before + tail)));
      AtConcat(doc, m, e.after, [COMMA] + (rest[0].before + tail));
      AtConcat(doc, n, [COMMA], rest[0].before + tail);
      AtConcat(doc, n + 1, rest[0].before, tail);
    }
  }

  lemma {:induction false} ItemsRestIs(items: seq<Element>)
    requires items != []
    ensures var e, rest := items[0], items[1..];
      ItemsRest(items) + [RBRACKET] == Form(e.v) + (e.after +
        (if rest == [] then [RBRACKET] else [COMMA] + (rest[0].before + (ItemsRest(rest) + [RBRACKET]))))
    ensures var e, rest := items[0], items[1..];
      |ItemsRest(items)| == |Form(e.v)| + |e.after| +
        if rest == [] then 0 else 1 + |rest[0].before| + |ItemsRest(rest)|
  {
    hide Form;
    var e, rest := items[0], items[1..];
    if rest == [] {
      Tail3(Form(e.v), e.after, [], []);
    } else {
      assert ItemsForm(rest) == rest[0].before + ItemsRest(rest);
      Tail3(Form(e.v), e.after, [COMMA], ItemsForm(rest));
      Tail2(rest[0].before, ItemsRest(rest));
    }
  }

  lemma Tail3(a: bytes, b: bytes, c: bytes, d: bytes)
    ensures (a + (b + (c + d))) + [RBRACKET] == a + (b + (c + (d + [RBRACKET])))
    ensures c == [] && d == [] ==> (a + (b + (c + d))) + [RBRACKET] == a + (b + [RBRACKET])
  {
  }

  lemma Tail2(a: bytes, b: bytes)
    ensures (a + b) + [RBRACKET] == a + (b + [RBRACKET])
  {
  }

  /** One turn of readArray. */
  lemma {:induction false} ItemStep(inp: Input, st: State, acc: seq<Slot>, child: Result, token: Token)
    requires st.pos <= |inp.doc| && child == ReadValue(inp, st, Null)
    requires token == SkipComments(inp.doc, child.st.pos)
    ensures child.status != Good ==> ReadItems(inp, st, acc).status == child.status
    ensures child.status == Good && token.kind == ArraySeparator ==>
      ReadItems(inp, st, acc) == ReadItems(inp, child.st.(pos := token.end), acc + [Item(child.v)])
    ensures child.status == Good && token.kind == ArrayEnd ==>
      ReadItems(inp, st, acc) == Result(Good, child.st.(pos := token.end), Array(acc + [Item(child.v)]))
  {
    hide ReadValue, SkipComments, Recover;
  }

  lemma {:induction false} FirstFate(items: seq<Element>, room: int, isDouble: bytes -> bool)
    requires items != [] && AreItems(items)
    ensures IsJson(items[0].v) && AreItems(items[1..])
    ensures var f := Fate(items[0].v, room, isDouble);
      ItemsFate(items, room, isDouble) == if f != Good then f else ItemsFate(items[1..], room, isDouble)
    ensures items[1..] == [] ==> ItemsFate(items[1..], room, isDouble) == Good && ItemsPaired(items[1..])
    ensures AllPaired(items[0].v) && ItemsPaired(items[1..]) ==>
      ItemsPaired(items) && ItemsOf(items) == [Item(ValueOf(items[0].v))] + ItemsOf(items[1..])
    ensures items[1..] == [] && AllPaired(items[0].v) ==> ItemsOf(items) == [Item(ValueOf(items[0].v))]
  {
    hide Fate, IsJson, AllPaired, ValueOf;
  }

  /** The loop of readArray on the items, with `lead` still in front of the first one. */
  lemma {:induction false} ReadItemsTree(inp: Input, st: State, acc: seq<Slot>, lead: bytes, items: seq<Element>)
    requires items != [] && AreItems(items) && Blanks(lead)
    requires At(inp.doc, st.pos, lead) && At(inp.doc, st.pos + |lead|, ItemsRest(items) + [RBRACKET])
    ensures st.pos + |lead| + |ItemsRest(items)| + 1 <= |inp.doc|
    ensures var r := ReadItems(inp, st, acc);
      && r.status == ItemsFate(items, STACK_LIMIT - st.depth, inp.isDouble)
      && (r.status == Good ==>
            ItemsPaired(items) && r == Result(Good, st.(pos := st.pos + |lead| + |ItemsRest(items)| + 1),
                                              Array(acc + ItemsOf(items))))
    decreases items, 1
  {
    hide *;
    var doc, q, room := inp.doc, st.pos + |lead|, STACK_LIMIT - st.depth;
    var e, rest := items[0], items[1..];
    AtBounds(doc, st.pos, lead);
    AtBounds(doc, q, ItemsRest(items) + [RBRACKET]);
    ItemPlaces(doc, q, items);
    FirstFate(items, room, inp.isDouble);
    ArrayEndIs();
    var m := q + |Form(e.v)|;
    PunctuationAhead(doc, m, e.after, if rest == [] then L_ARRAY_END else L_COMMA);
    ReadTree(inp, st, Null, lead, e.v);
    var child := ReadValue(inp, st, Null);
    var token := SkipComments(doc, child.st.pos);
    ItemStep(inp, st, acc, child, token);
    if child.status == Good && rest != [] {
      ReadItemsTree(inp, child.st.(pos := token.end), acc + [Item(child.v)], rest[0].before, rest);
      if ItemsPaired(rest) { AppendStep(acc, Item(child.v), ItemsOf(rest)); }
    }
  }

  // ---------------------------------------------------------------- objects

  /** readObject on the inside of an object. */
  lemma {:induction false} ReadMembersTree(inp: Input, st: State, blank: bytes, ms: seq<Pair>)
    requires Blanks(blank) && ArePairs(ms) && At(inp.doc, st.pos, ObjectBody(blank, ms))
    ensures st.pos + |ObjectBody(blank, ms)| <= |inp.doc|
    ensures var r := ReadObject(inp, st, [], []);
      && r.status == PairsFate(ms, STACK_LIMIT - st.depth, inp.isDouble)
      && (r.status == Good ==>
            PairsPaired(ms)
            && r == Result(Good, st.(pos := st.pos + |ObjectBody(blank, ms)|), Object(MembersOf([], ms))))
    decreases ms, 2
  {
    hide *;
    var doc := inp.doc;
    AtBounds(doc, st.pos, ObjectBody(blank, ms));
    if ms == [] {
      EmptyObject(blank, STACK_LIMIT - st.depth, inp.isDouble);
      AtConcat(doc, st.pos, blank, [RBRACE]);
      ObjectEndIs();
      PunctuationAhead(doc, st.pos, blank, L_OBJECT_END);
      ReadObjectStep(inp, st, [], [], ReadToken(doc, st.pos));
    } else {
      FilledObject(blank, ms);
      ReadPairsTree(inp, st, [], [], ms);
    }
  }

  lemma {:induction false} EmptyObject(blank: bytes, room: int, isDouble: bytes -> bool)
    ensures ObjectBody(blank, []) == blank + [RBRACE]
    ensures ArePairs([]) && PairsFate([], room, isDouble) == Good && PairsPaired([]) && MembersOf([], []) == []
  {
  }

  lemma ObjectEndIs()
    ensures IsPunctuation(L_OBJECT_END) && L_OBJECT_END.kind == ObjectEnd && L_OBJECT_END.text == [RBRACE]
    ensures IsPunctuation(L_COMMA) && L_COMMA.kind == ArraySeparator && L_COMMA.text == [COMMA]
    ensures IsPunctuation(L_COLON) && L_COLON.kind == MemberSeparator && L_COLON.text == [COLON]
  {
  }

  lemma {:induction false} FilledObject(blank: bytes, ms: seq<Pair>)
    requires ms != []
    ensures ObjectBody(blank, ms) == PairsForm(ms) + [RBRACE]
  {
    hide PairsForm;
  }

  /** The place of the first name and of what follows it. */
  lemma {:induction false} NamePlaces(doc: bytes, p: nat, ms: seq<Pair>)
    requires ms != [] && ArePairs(ms) && At(doc, p, PairsForm(ms) + [RBRACE])
    ensures var m := ms[0];
      var q := p + |m.before|;
      && Blanks(m.before) && AreChars(m.key) && At(doc, p, m.before) && At(doc, q, StringText(m.key))
      && At(doc, q + |StringText(m.key)|, PairRest(ms) + [RBRACE])
      && |PairsForm(ms)| == |m.before| + |StringText(m.key)| + |PairRest(ms)|
  {
    hide At, PairRest, StringText, Blanks, AreChars, IsJson;
    var m := ms[0];
    Brace3(m.before, StringText(m.key), PairRest(ms));
    AtConcat(doc, p, m.before, StringText(m.key) + (PairRest(ms) + [RBRACE]));
    AtConcat(doc, p + |m.before|, StringText(m.key), PairRest(ms) + [RBRACE]);
  }

  lemma Brace3(a: bytes, b: bytes, c: bytes)
    ensures (a + (b + c)) + [RBRACE] == a + (b + (c + [RBRACE]))
  {
  }

  /** The places behind the first name. */
  lemma {:induction false} PairPlaces(doc: bytes, k: nat, ms: seq<Pair>)
    requires ms != [] && ArePairs(ms) && At(doc, k, PairRest(ms) + [RBRACE])
    ensures var m, e, rest := ms[0], ms[0].item, ms[1..];
      var c := k + |m.between|;
      var q := c + 1 + |e.before|;
      var n := q + |Form(e.v)|;
      && Blanks(m.between) && Blanks(e.before) && Blanks(e.after) && IsJson(e.v) && ArePairs(rest)
      && At(doc, k, m.between) && At(doc, c, [COLON]) && At(doc, c + 1, e.before) && At(doc, q, Form(e.v))
      && At(doc, n, e.after)
      && At(doc, n + |e.after|, if rest == [] then [RBRACE] else [COMMA])
      && (rest != [] ==> At(doc, n + |e.after| + 1, PairsForm(rest) + [RBRACE]))
      && |PairRest(ms)| == |m.between| + 1 + |e.before| + |Form(e.v)| + |e.after| +
           if rest == [] then 0 else 1 + |PairsForm(rest)|
  {
    hide At, Form, IsJson, Blanks, AreChars, PairsForm;
    var m, e, rest := ms[0], ms[0].item, ms[1..];
    var c := k + |m.between|;
    var q := c + 1 + |e.before|;
    var n := q + |Form(e.v)|;
    PairRestIs(ms);
    var last := if rest == [] then [RBRACE] else [COMMA] + (PairsForm(rest) + [RBRACE]);
    AtConcat(doc, k, m.between, [COLON] + (e.before + (Form(e.v) + (e.after + last))));
    AtConcat(doc, c, [COLON], e.before + (Form(e.v) + (e.after + last)));
    AtConcat(doc, c + 1, e.before, Form(e.v) + (e.after + last));
    AtConcat(doc, q, Form(e.v), e.after + last);
    AtConcat(doc, n, e.after, last);
    if rest != [] { AtConcat(doc, n + |e.after|, [COMMA], PairsForm(rest) + [RBRACE]); }
  }

  lemma {:induction false} PairRestIs(ms: seq<Pair>)
    requires ms != []
    ensures var m, e, rest := ms[0], ms[0].item, ms[1..];
      && PairRest(ms) + [RBRACE] == m.between + ([COLON] + (e.before + (Form(e.v) + (e.after +
           (if rest == [] then [RBRACE] else [COMMA] + (PairsForm(rest) + [RBRACE]))))))
      && |PairRest(ms)| == |m.between| + 1 + |e.before| + |Form(e.v)| + |e.after| +
           if rest == [] then 0 else 1 + |PairsForm(rest)|
  {
    hide Form;
    var m, e, rest := ms[0], ms[0].item, ms[1..];
    if rest == [] { assert PairsForm(rest) == []; }
    hide PairsForm;
    Brace7(m.between, e.before, Form(e.v), e.after, CommaText(|ms| > 1), PairsForm(rest));
  }

  lemma Brace7(a: bytes, b: bytes, c: bytes, d: bytes, e: bytes, f: bytes)
    ensures (a + ([COLON] + (b + (c + (d + (e + f)))))) + [RBRACE]
         == a + ([COLON] + (b + (c + (d + (e + (f + [RBRACE]))))))
    ensures e == [] && f == [] ==> e + (f + [RBRACE]) == [RBRACE]
  {
    Brace3(d, e, f);
    Brace3(b, c, d + (e + f));
    Brace3(a, [COLON], b + (c + (d + (e + f))));
  }

  /** A name of readObject. */
  lemma {:induction false} NameStep(inp: Input, st: State, last: bytes, acc: seq<Member>, t: Token)
    requires st.pos <= |inp.doc| && t == SkipComments(inp.doc, st.pos) && t.kind == StringToken
    ensures var d := DecodeString(inp.doc, t.start, t.end);
      if d.Text? then ReadObject(inp, st, last, acc) == ReadMember(inp, st.(pos := t.end), d.s, acc)
      else ReadObject(inp, st, last, acc).status == Bad
  {
    hide SkipComments, DecodeString, ReadMember, Recover;
  }

  /** A member behind its name. */
  lemma {:induction false} MemberStep(inp: Input, st: State, key: bytes, acc: seq<Member>, s: State, child: Result, next: Token)
    requires st.pos <= |inp.doc| && ReadToken(inp.doc, st.pos).kind == MemberSeparator
    requires s == st.(pos := ReadToken(inp.doc, st.pos).end)
    requires child == ReadValue(inp, s, SlotValue(Find(acc, key)))
    requires next == ReadToken(inp.doc, child.st.pos)
    ensures child.status != Good ==> ReadMember(inp, st, key, acc).status == child.status
    ensures child.status == Good && next.kind == ArraySeparator ==>
      ReadMember(inp, st, key, acc) == ReadObject(inp, child.st.(pos := next.end), key, Store(acc, key, child.v))
    ensures child.status == Good && next.kind == ObjectEnd ==>
      ReadMember(inp, st, key, acc) == Result(Good, child.st.(pos := next.end), Object(Store(acc, key, child.v)))
  {
    hide ReadValue, ReadObject, ReadToken, SkipComments, Recover, Store, Find;
  }

  lemma {:induction false} FirstPairFate(ms: seq<Pair>, room: int, isDouble: bytes -> bool)
    requires ms != [] && ArePairs(ms)
    ensures AreChars(ms[0].key) && IsJson(ms[0].item.v) && ArePairs(ms[1..])
    ensures var f := Fate(ms[0].item.v, room, isDouble);
      PairsFate(ms, room, isDouble) ==
        if !Paired(ms[0].key) then Bad else if f != Good then f else PairsFate(ms[1..], room, isDouble)
    ensures ms[1..] == [] ==> PairsFate(ms[1..], room, isDouble) == Good && PairsPaired(ms[1..])
  {
    hide Fate, IsJson, Paired, AreChars;
  }

  lemma {:induction false} FirstMemberOf(ms: seq<Pair>, acc: seq<Member>)
    requires ms != [] && ArePairs(ms) && AreChars(ms[0].key) && IsJson(ms[0].item.v) && ArePairs(ms[1..])
    requires Paired(ms[0].key) && AllPaired(ms[0].item.v) && PairsPaired(ms[1..])
    ensures PairsPaired(ms)
    ensures var acc' := Store(acc, Meaning(ms[0].key), ValueOf(ms[0].item.v));
      MembersOf(acc, ms) == MembersOf(acc', ms[1..]) && (ms[1..] == [] ==> MembersOf(acc, ms) == acc')
  {
    hide IsJson, AllPaired, ValueOf, Meaning, Paired, AreChars, Store;
  }

  /** The loop of readObject on the members. */
  lemma {:induction false} ReadPairsTree(inp: Input, st: State, last: bytes, acc: seq<Member>, ms: seq<Pair>)
    requires ms != [] && ArePairs(ms) && At(inp.doc, st.pos, PairsForm(ms) + [RBRACE])
    ensures st.pos + |PairsForm(ms)| + 1 <= |inp.doc|
    ensures var r := ReadObject(inp, st, last, acc);
      && r.status == PairsFate(ms, STACK_LIMIT - st.depth, inp.isDouble)
      && (r.status == Good ==>
            PairsPaired(ms)
            && r == Result(Good, st.(pos := st.pos + |PairsForm(ms)| + 1), Object(MembersOf(acc, ms))))
    decreases ms, 1
  {
    hide *;
    var doc, m := inp.doc, ms[0];
    AtBounds(doc, st.pos, PairsForm(ms) + [RBRACE]);
    NamePlaces(doc, st.pos, ms);
    var q := st.pos + |m.before|;
    var k := q + |StringText(m.key)|;
    BlanksAhead(doc, st.pos, m.before);
    StringReads(doc, q, m.key);
    NoComment(doc, st.pos);
    NameStep(inp, st, last, acc, ReadToken(doc, st.pos));
    FirstPairFate(ms, STACK_LIMIT - st.depth, inp.isDouble);
    if Paired(m.key) { ReadPairTree(inp, st.(pos := k), Meaning(m.key), acc, ms); }
  }

  /** The rest of a turn of readObject. */
  lemma {:induction false} ReadPairTree(inp: Input, st: State, key: bytes, acc: seq<Member>, ms: seq<Pair>)
    requires ms != [] && ArePairs(ms) && At(inp.doc, st.pos, PairRest(ms) + [RBRACE])
    requires AreChars(ms[0].key) && Paired(ms[0].key) && key == Meaning(ms[0].key)
    ensures st.pos + |PairRest(ms)| + 1 <= |inp.doc|
    ensures var r := ReadMember(inp, st, key, acc);
      && r.status == PairsFate(ms, STACK_LIMIT - st.depth, inp.isDouble)
      && (r.status == Good ==>
            PairsPaired(ms)
            && r == Result(Good, st.(pos := st.pos + |PairRest(ms)| + 1), Object(MembersOf(acc, ms))))
    decreases ms, 0
  {
    hide *;
    var doc, m, e, rest := inp.doc, ms[0], ms[0].item, ms[1..];
    AtBounds(doc, st.pos, PairRest(ms) + [RBRACE]);
    PairPlaces(doc, st.pos, ms);
    ObjectEndIs();
    FirstPairFate(ms, STACK_LIMIT - st.depth, inp.isDouble);
    PunctuationAhead(doc, st.pos, m.between, L_COLON);
    var s := st.(pos := st.pos + |m.between| + 1);
    var n := s.pos + |e.before| + |Form(e.v)|;
    PunctuationAhead(doc, n, e.after, if rest == [] then L_OBJECT_END else L_COMMA);
    var cur := SlotValue(Find(acc, key));
    ReadTree(inp, s, cur, e.before, e.v);
    var child := ReadValue(inp, s, cur);
    var next := ReadToken(doc, child.st.pos);
    MemberStep(inp, st, key, acc, s, child, next);
    if child.status == Good {
      if rest != [] { ReadPairsTree(inp, child.st.(pos := next.end), key, Store(acc, key, child.v), rest); }
      if PairsPaired(rest) { FirstMemberOf(ms, acc); }
    }
  }

  // ---------------------------------------------------------------- whole documents

  /** How many levels the tree has. */
  function Levels(t: Json): (n: nat)
    ensures n >= 1
    decreases t
  {
    match t
    case JArray(_, items) => 1 + ItemsLevels(items)
    case JObject(_, ms) => 1 + PairsLevels(ms)
    case _ => 1
  }

  function ItemsLevels(items: seq<Element>): nat
    decreases items
  {
    if items == [] then 0 else Max(Levels(items[0].v), ItemsLevels(items[1..]))
  }

  function PairsLevels(ms: seq<Pair>): nat
    decreases ms
  {
    if ms == [] then 0 else Max(Levels(ms[0].item.v), PairsLevels(ms[1..]))
  }

  /** Every number outside of the 64-bit integers is a double. */
  predicate AllNumbers(t: Json, isDouble: bytes -> bool)
    requires IsJson(t)
    decreases t
  {
    match t
    case JNumber(_, _, _, _) => IsInteger(t) || isDouble(NumberText(t))
    case JArray(_, items) => ItemsNumbers(items, isDouble)
    case JObject(_, ms) => PairsNumbers(ms, isDouble)
    case _ => true
  }

  predicate ItemsNumbers(items: seq<Element>, isDouble: bytes -> bool)
    requires AreItems(items)
    decreases items
  {
    items == [] || (AllNumbers(items[0].v, isDouble) && ItemsNumbers(items[1..], isDouble))
  }

  predicate PairsNumbers(ms: seq<Pair>, isDouble: bytes -> bool)
    requires ArePairs(ms)
    decreases ms
  {
    ms == [] || (AllNumbers(ms[0].item.v, isDouble) && PairsNumbers(ms[1..], isDouble))
  }

  /** When reading a tree succeeds, and when it ends in the exception at least. */
  lemma {:induction false} FateExactly(t: Json, room: int, isDouble: bytes -> bool)
    requires IsJson(t)
    ensures Fate(t, room, isDouble) == Good <==> AllPaired(t) && AllNumbers(t, isDouble) && Levels(t) <= room
    ensures AllPaired(t) && AllNumbers(t, isDouble) && Levels(t) > room ==> Fate(t, room, isDouble) == Threw
    ensures Levels(t) <= room ==> Fate(t, room, isDouble) != Threw
    decreases t
  {
    hide Paired, IsInteger, NumberText;
    match t
    case JArray(_, items) => ItemsFateExactly(items, room - 1, isDouble);
    case JObject(_, ms) => PairsFateExactly(ms, room - 1, isDouble);
    case _ =>
  }

  lemma {:induction false} ItemsFateExactly(items: seq<Element>, room: int, isDouble: bytes -> bool)
    requires AreItems(items)
    ensures room >= 0 ==>
      (ItemsFate(items, room, isDouble) == Good <==>
         ItemsPaired(items) && ItemsNumbers(items, isDouble) && ItemsLevels(items) <= room)
    ensures ItemsPaired(items) && ItemsNumbers(items, isDouble) && ItemsLevels(items) > room >= 0 ==>
      ItemsFate(items, room, isDouble) == Threw
    ensures ItemsLevels(items) <= room ==> ItemsFate(items, room, isDouble) != Threw
    decreases items
  {
    hide Fate, AllPaired, AllNumbers, Levels, IsJson;
    if items != [] {
      FateExactly(items[0].v, room, isDouble);
      ItemsFateExactly(items[1..], room, isDouble);
    }
  }

  lemma {:induction false} PairsFateExactly(ms: seq<Pair>, room: int, isDouble: bytes -> bool)
    requires ArePairs(ms)
    ensures room >= 0 ==>
      (PairsFate(ms, room, isDouble) == Good <==>
         PairsPaired(ms) && PairsNumbers(ms, isDouble) && PairsLevels(ms) <= room)
    ensures PairsPaired(ms) && PairsNumbers(ms, isDouble) && PairsLevels(ms) > room >= 0 ==>
      PairsFate(ms, room, isDouble) == Threw
    ensures PairsLevels(ms) <= room ==> PairsFate(ms, room, isDouble) != Threw
    decreases ms
  {
    hide Fate, AllPaired, AllNumbers, Levels, IsJson, Paired, AreChars;
    if ms != [] {
      FateExactly(ms[0].item.v, room, isDouble);
      PairsFateExactly(ms[1..], room, isDouble);
    }
  }

  /** A JSON text: a value with white space on both sides. */
  function Document(before: bytes, t: Json, after: bytes): bytes {
    before + Form(t) + after
  }

  /** parse by what readValue makes of the document. */
  lemma {:induction false} ParseByValue(inp: Input, cur: Value)
    ensures var r, q := ReadValue(inp, State(0, [], 0), cur), Parse(inp, cur);
      var refused := inp.strictRoot && !r.v.Array? && !r.v.Object?;
      && q.status == (if r.status == Threw then Threw else if refused then Bad else r.status)
      && (q.status == Good ==> q.v == r.v)
  {
    hide ReadValue, FirstToken;
  }

  lemma {:induction false} DocumentParts(before: bytes, t: Json, after: bytes)
    requires Blanks(after)
    ensures var doc := Document(before, t, after);
      && At(doc, 0, before) && At(doc, |before|, Form(t)) && NumberStops(doc, |before| + |Form(t)|)
  {
    hide Form;
    var doc, n := Document(before, t, after), |before| + |Form(t)|;
    assert doc[0..|before|] == before;
    assert doc[|before|..n] == Form(t);
    assert n < |doc| ==> doc[n] == after[0] && IsBlank(after[0]);
  }

  /** Every text of the grammar of RFC 8259, with any escapes, number spelling and white space: parse
      returns true exactly when the strings are paired, the numbers are 64-bit integers or doubles, the
      value has at most 1000 levels, and the root is a container if it has to be. Then it gives the
      value of the text and an empty error list. With all but the levels in order it ends in the
      exception. */
  lemma {:induction false} GrammarParses(inp: Input, cur: Value, before: bytes, t: Json, after: bytes)
    requires IsJson(t) && Blanks(before) && Blanks(after) && inp.doc == Document(before, t, after)
    ensures var r := Parse(inp, cur);
      var regular := AllPaired(t) && AllNumbers(t, inp.isDouble);
      && (r.status == Good <==>
            regular && Levels(t) <= STACK_LIMIT && (inp.strictRoot ==> t.JArray? || t.JObject?))
      && (r.status == Good ==> r.v == ValueOf(t) && r.st.errors == [])
      && (regular && Levels(t) > STACK_LIMIT ==> r.status == Threw)
      && (Levels(t) <= STACK_LIMIT ==> r.status != Threw)
  {
    hide ReadValue, Parse, Form, IsJson, AllPaired, AllNumbers, Levels, Fate, At, NumberStops, Document, Blanks, ValueOf;
    DocumentParts(before, t, after);
    var st := State(0, [], 0);
    ReadTree(inp, st, cur, before, t);
    FateExactly(t, STACK_LIMIT, inp.isDouble);
    ParseByValue(inp, cur);
    ParseReports(inp, cur);
    if ReadValue(inp, st, cur).status == Good { RootOf(t); }
  }

  lemma {:induction false} RootOf(t: Json)
    requires IsJson(t) && AllPaired(t)
    ensures (ValueOf(t).Array? <==> t.JArray?) && (ValueOf(t).Object? <==> t.JObject?)
  {
    hide ItemsOf, MembersOf, Meaning, NumberOf;
    if t.JNumber? { NumberIsScalar(t); }
  }

  lemma {:induction false} NumberIsScalar(t: Json)
    requires t.JNumber? && IsJson(t)
    ensures !NumberOf(t).Array? && !NumberOf(t).Object?
  {
    hide DigitsValue;
  }

  /** A text of the grammar that is refused: a high surrogate alone in a string. */
  lemma {:induction false} LoneSurrogateIsRefused(inp: Input, cur: Value)
    requires inp.doc == [QUOTE, BACKSLASH, LOWER_U, 68, 56, 48, 48, QUOTE]
    ensures Parse(inp, cur).status == Bad
  {
    hide ReadValue, Parse, Fate, UnitValue, IsChar, IsHigh;
    var c := Unit([68, 56, 48, 48]);
    var cs := [c];
    var t := JString(cs);
    assert CharText(c) == [BACKSLASH, LOWER_U, 68, 56, 48, 48];
    assert cs[1..] == [] && CharsText(cs) == CharText(c) + [];
    assert inp.doc == Document([], t, []);
    SurrogateExample();
    GrammarParses(inp, cur, [], t, []);
  }

  lemma SurrogateExample()
    ensures IsChar(Unit([68, 56, 48, 48])) && IsHigh(Unit([68, 56, 48, 48]))
  {
  }
}
