/** What the two writers print, as functions of the value, and the token sequence
    and the reader's normal form of a value. The writers of JsonWriter are proved
    against Styled and Compact. */
module JsonText {
  import opened Bytes
  import opened Numerals
  import opened JsonValue
  import opened JsonLexer

  // ---------------------------------------------------------------- scalars

  function HexDigit(d: nat): byte
    requires d < 16
  {
    if d < 10 then ZERO + d else 55 + d
  }

  const LOWER_B: byte := 98
  const LOWER_F: byte := 102
  const LOWER_N: byte := 110
  const LOWER_R: byte := 114
  const LOWER_T: byte := 116
  const LOWER_U: byte := 117

  /** The escape of one byte of a string. */
  function Escape(b: byte): (e: bytes)
    ensures |e| >= 1
  {
    if b == QUOTE then [BACKSLASH, QUOTE]
    else if b == BACKSLASH then [BACKSLASH, BACKSLASH]
    else if b == 8 then [BACKSLASH, LOWER_B]
    else if b == 12 then [BACKSLASH, LOWER_F]
    else if b == LF then [BACKSLASH, LOWER_N]
    else if b == CR then [BACKSLASH, LOWER_R]
    else if b == TAB then [BACKSLASH, LOWER_T]
    else if b <= 0x1F then [BACKSLASH, LOWER_U, ZERO, ZERO, HexDigit(b / 16), HexDigit(b % 16)]
    else [b]
  }

  function EscapeAll(s: bytes): bytes {
    if s == [] then [] else Escape(s[0]) + EscapeAll(s[1..])
  }

  /** The quoted string that stands for s. */
  function Quoted(s: bytes): bytes {
    [QUOTE] + EscapeAll(s) + [QUOTE]
  }

  const NULL_TEXT: bytes := [110, 117, 108, 108]
  const TRUE_TEXT: bytes := [116, 114, 117, 101]
  const FALSE_TEXT: bytes := [102, 97, 108, 115, 101]

  /** A value that prints in one piece: a scalar or an empty container. */
  predicate IsFlat(v: Value) {
    Size(v) == 0
  }

  /** The text of a flat value. */
  function Flat(v: Value): bytes {
    match v
    case Null => NULL_TEXT
    case Int(i) => IntegerText(i)
    case UInt(u) => IntegerText(u)
    case Real(text) => text
    case NullString => []
    case Str(s) => Quoted(s)
    case Bool(b) => if b then TRUE_TEXT else FALSE_TEXT
    case Array(_) => [LBRACKET, RBRACKET]
    case Object(_) => [LBRACE, RBRACE]
  }

  // ---------------------------------------------------------------- the styled layout

  const RIGHT_MARGIN := 74
  const INDENT := 3

  /** Some item is a container with something in it. */
  predicate HasNested(slots: seq<Slot>) {
    exists k :: 0 <= k < |slots| && !IsFlat(SlotValue(slots[k]))
  }

  function FlatLength(slots: seq<Slot>): nat {
    if slots == [] then 0 else |Flat(SlotValue(slots[0]))| + FlatLength(slots[1..])
  }

  /** isMultineArray: too many items, an item with structure, or too long a line. */
  predicate MultiLine(slots: seq<Slot>) {
    || |slots| * 3 >= RIGHT_MARGIN
    || HasNested(slots)
    || 4 + (|slots| - 1) * 2 + FlatLength(slots) >= RIGHT_MARGIN
  }

  /** The text StyledWriter prints for v at indentation n, when v starts on a
      line already indented (or after the member name). */
  function Styled(v: Value, n: nat): bytes
    decreases Weight(v)
  {
    match v
    case Array(slots) =>
      if slots == [] then Flat(v)
      else if MultiLine(slots) then
        [LBRACKET] + StyledSlots(slots, n + INDENT) + NewLine(n) + [RBRACKET]
      else [LBRACKET, SPACE] + Inline(slots) + [SPACE, RBRACKET]
    case Object(ms) =>
      if ms == [] then Flat(v)
      else [LBRACE] + StyledMembers(ms, n + INDENT) + NewLine(n) + [RBRACE]
    case _ => Flat(v)
  }

  function NewLine(n: nat): bytes {
    [LF] + Spaces(n)
  }

  function StyledSlots(slots: seq<Slot>, n: nat): bytes
    decreases WeightOfSlots(slots)
  {
    if slots == [] then []
    else
      NewLine(n) + Styled(SlotValue(slots[0]), n)
      + CommaText(|slots| > 1) + StyledSlots(slots[1..], n)
  }

  /** The comma behind a list item, unless it is the last one. */
  function CommaText(more: bool): bytes {
    if more then [COMMA] else []
  }

  /** A member: its quoted name, a colon with `gap` on both sides, and its value. */
  function MemberText(name: bytes, gap: bytes, item: bytes): bytes {
    Quoted(name) + (gap + [COLON] + gap) + item
  }

  /** Member names are printed through a C string, so only up to their first NUL. */
  function StyledMembers(ms: seq<Member>, n: nat): bytes
    decreases WeightOfMembers(ms)
  {
    if ms == [] then []
    else
      NewLine(n) + MemberText(UptoNul(ms[0].name), [SPACE], Styled(ms[0].item, n))
      + CommaText(|ms| > 1) + StyledMembers(ms[1..], n)
  }

  /** The items of a one-line array. */
  function Inline(slots: seq<Slot>): bytes {
    if slots == [] then []
    else
      Flat(SlotValue(slots[0])) + CommaText(|slots| > 1)
      + (if |slots| > 1 then [SPACE] + Inline(slots[1..]) else [])
  }

  // ---------------------------------------------------------------- the compact layout

  /** The text FastWriter prints for v. Names are printed whole. */
  function Compact(v: Value): bytes
    decreases Weight(v)
  {
    match v
    case Array(slots) => [LBRACKET] + CompactSlots(slots) + [RBRACKET]
    case Object(ms) => [LBRACE] + CompactMembers(ms) + [RBRACE]
    case _ => Flat(v)
  }

  function CompactSlots(slots: seq<Slot>): bytes
    decreases WeightOfSlots(slots)
  {
    if slots == [] then []
    else
      Compact(SlotValue(slots[0])) + CommaText(|slots| > 1) + CompactSlots(slots[1..])
  }

  function CompactMembers(ms: seq<Member>): bytes
    decreases WeightOfMembers(ms)
  {
    if ms == [] then []
    else
      MemberText(ms[0].name, [], Compact(ms[0].item))
      + CommaText(|ms| > 1) + CompactMembers(ms[1..])
  }

  // ---------------------------------------------------------------- tokens

  datatype Lexeme = Lexeme(kind: TokenType, text: bytes)

  const L_ARRAY_BEGIN := Lexeme(ArrayBegin, [LBRACKET])
  const L_ARRAY_END := Lexeme(ArrayEnd, [RBRACKET])
  const L_OBJECT_BEGIN := Lexeme(ObjectBegin, [LBRACE])
  const L_OBJECT_END := Lexeme(ObjectEnd, [RBRACE])
  const L_COMMA := Lexeme(ArraySeparator, [COMMA])
  const L_COLON := Lexeme(MemberSeparator, [COLON])

  function CommaTokens(more: bool): seq<Lexeme> {
    if more then [L_COMMA] else []
  }

  function StringLexeme(s: bytes): Lexeme {
    Lexeme(StringToken, Quoted(s))
  }

  /** The token sequence of a value whose member names are printed as `name`. */
  function Tokens(v: Value, name: bytes -> bytes): seq<Lexeme>
    decreases Weight(v)
  {
    match v
    case Null => [Lexeme(NullToken, NULL_TEXT)]
    case Int(_) => [Lexeme(NumberToken, Flat(v))]
    case UInt(_) => [Lexeme(NumberToken, Flat(v))]
    case Real(_) => [Lexeme(NumberToken, Flat(v))]
    case NullString => []
    case Str(s) => [StringLexeme(s)]
    case Bool(b) => [Lexeme(if b then TrueToken else FalseToken, Flat(v))]
    case Array(slots) => [L_ARRAY_BEGIN] + SlotTokens(slots, name) + [L_ARRAY_END]
    case Object(ms) => [L_OBJECT_BEGIN] + MemberTokens(ms, name) + [L_OBJECT_END]
  }

  function SlotTokens(slots: seq<Slot>, name: bytes -> bytes): seq<Lexeme>
    decreases WeightOfSlots(slots)
  {
    if slots == [] then []
    else
      Tokens(SlotValue(slots[0]), name) + CommaTokens(|slots| > 1)
      + SlotTokens(slots[1..], name)
  }

  function MemberTokens(ms: seq<Member>, name: bytes -> bytes): seq<Lexeme>
    decreases WeightOfMembers(ms)
  {
    if ms == [] then []
    else
      [StringLexeme(name(ms[0].name)), L_COLON] + Tokens(ms[0].item, name)
      + CommaTokens(|ms| > 1) + MemberTokens(ms[1..], name)
  }

  // ---------------------------------------------------------------- the normal form

  /** The integer value the reader makes of a numeral: intValue when negative or at
      most maxInt, uintValue otherwise. */
  function Retag(i: int): Value
    requires MIN_LARGEST_INT <= i <= MAX_LARGEST_UINT
  {
    if i <= MAX_INT then Int(i) else UInt(i)
  }

  /** What the reader gives back for v when names are printed as `name`: integers
      re-tagged, holes filled with null, members stored one after the other. */
  function Norm(v: Value, name: bytes -> bytes): Value
    decreases Weight(v)
  {
    match v
    case Int(i) => Retag(i)
    case UInt(u) => Retag(u)
    case Array(slots) => Array(NormSlots(slots, name))
    case Object(ms) => Object(NormMembers([], ms, name))
    case _ => v
  }

  function NormSlots(slots: seq<Slot>, name: bytes -> bytes): (r: seq<Slot>)
    ensures |r| == |slots|
    decreases WeightOfSlots(slots)
  {
    if slots == [] then []
    else [Item(Norm(SlotValue(slots[0]), name))] + NormSlots(slots[1..], name)
  }

  function NormMembers(acc: seq<Member>, ms: seq<Member>, name: bytes -> bytes): seq<Member>
    decreases WeightOfMembers(ms)
  {
    if ms == [] then acc
    else NormMembers(Store(acc, name(ms[0].name), Norm(ms[0].item, name)), ms[1..], name)
  }

  // ---------------------------------------------------------------- depth, printable values

  function Max(m: nat, n: nat): nat {
    if m >= n then m else n
  }

  /** The number of nested readValue calls the text of v takes. */
  function Depth(v: Value): (d: nat)
    ensures d >= 1
    decreases Weight(v)
  {
    match v
    case Array(slots) => 1 + SlotsDepth(slots)
    case Object(ms) => 1 + MembersDepth(ms)
    case _ => 1
  }

  function SlotsDepth(slots: seq<Slot>): nat
    decreases WeightOfSlots(slots)
  {
    if slots == [] then 0 else Max(Depth(SlotValue(slots[0])), SlotsDepth(slots[1..]))
  }

  function MembersDepth(ms: seq<Member>): nat
    decreases WeightOfMembers(ms)
  {
    if ms == [] then 0 else Max(Depth(ms[0].item), MembersDepth(ms[1..]))
  }

  /** No reals, and no string value with a null pointer, anywhere in v. */
  predicate Printable(v: Value)
    decreases Weight(v)
  {
    match v
    case Real(_) => false
    case NullString => false
    case Array(slots) => PrintableSlots(slots)
    case Object(ms) => PrintableMembers(ms)
    case _ => true
  }

  predicate PrintableSlots(slots: seq<Slot>)
    decreases WeightOfSlots(slots)
  {
    slots == [] || (Printable(SlotValue(slots[0])) && PrintableSlots(slots[1..]))
  }

  predicate PrintableMembers(ms: seq<Member>)
    decreases WeightOfMembers(ms)
  {
    ms == [] || (Printable(ms[0].item) && PrintableMembers(ms[1..]))
  }

  // ---------------------------------------------------------------- the texts

  /** The literals and the punctuation. */
  lemma TextsAreAscii()
    ensures NULL_TEXT == Ascii("null") && TRUE_TEXT == Ascii("true") && FALSE_TEXT == Ascii("false")
    ensures L_ARRAY_BEGIN.text + L_ARRAY_END.text + L_OBJECT_BEGIN.text + L_OBJECT_END.text == Ascii("[]{}")
    ensures L_COMMA.text + L_COLON.text == Ascii(",:")
    ensures [LOWER_B, LOWER_F, LOWER_N, LOWER_R, LOWER_T, LOWER_U] == Ascii("bfnrtu")
  {
  }

  /** The escape of every byte: seven short ones, \u00XX with capital digits for the other control
      characters, and the byte itself otherwise. */
  lemma EscapeTable(b: byte)
    ensures Escape(b) ==
      if b == 34 then Ascii("\\\"") else if b == 92 then Ascii("\\\\") else if b == 8 then Ascii("\\b")
      else if b == 12 then Ascii("\\f") else if b == 10 then Ascii("\\n") else if b == 13 then Ascii("\\r")
      else if b == 9 then Ascii("\\t")
      else if b < 32 then
        Ascii("\\u00") + [48 + b / 16, if b % 16 < 10 then 48 + b % 16 else 65 + (b % 16 - 10)]
      else [b]
  {
  }

  function TextOfTokens(toks: seq<Lexeme>): bytes {
    if toks == [] then [] else toks[0].text + TextOfTokens(toks[1..])
  }

  lemma {:induction false} TokensConcat(a: seq<Lexeme>, b: seq<Lexeme>)
    ensures TextOfTokens(a + b) == TextOfTokens(a) + TextOfTokens(b)
  {
    if a == [] {
      assert a + b == b;
    } else {
      assert (a + b)[1..] == a[1..] + b;
      TokensConcat(a[1..], b);
    }
  }

  lemma OneToken(l: Lexeme)
    ensures TextOfTokens([l]) == l.text
  {
    assert [l][1..] == [];
  }

  /** The compact text is the tokens of the value and nothing between them. */
  lemma {:induction false} CompactIsItsTokens(v: Value)
    ensures Compact(v) == TextOfTokens(Tokens(v, s => s))
    decreases Weight(v), 1
  {
    hide TextOfTokens;
    match v
    case Array(slots) =>
      ItemsAreTheirTokens(slots);
      Around(L_ARRAY_BEGIN, SlotTokens(slots, s => s), L_ARRAY_END);
    case Object(ms) =>
      MembersAreTheirTokens(ms);
      Around(L_OBJECT_BEGIN, MemberTokens(ms, s => s), L_OBJECT_END);
    case NullString => NoTokens();
    case _ => OneToken(Tokens(v, s => s)[0]);
  }

  lemma NoTokens()
    ensures TextOfTokens([]) == []
  {
  }

  lemma {:induction false} Around(a: Lexeme, toks: seq<Lexeme>, b: Lexeme)
    ensures TextOfTokens([a] + toks + [b]) == a.text + TextOfTokens(toks) + b.text
  {
    hide TextOfTokens;
    TokensConcat([a] + toks, [b]);
    TokensConcat([a], toks);
    OneToken(a);
    OneToken(b);
  }

  lemma CommaIsItsToken(more: bool)
    ensures TextOfTokens(CommaTokens(more)) == CommaText(more)
  {
    if more { OneToken(L_COMMA); }
  }

  lemma {:induction false} ItemsAreTheirTokens(slots: seq<Slot>)
    ensures CompactSlots(slots) == TextOfTokens(SlotTokens(slots, s => s))
    decreases WeightOfSlots(slots), 2
  {
    hide TextOfTokens, Compact, Tokens, CommaTokens, CommaText;
    if slots == [] {
      NoTokens();
    } else {
      var a, c, r := Tokens(SlotValue(slots[0]), s => s), CommaTokens(|slots| > 1), SlotTokens(slots[1..], s => s);
      CompactIsItsTokens(SlotValue(slots[0]));
      ItemsAreTheirTokens(slots[1..]);
      CommaIsItsToken(|slots| > 1);
      TokensConcat(a + c, r);
      TokensConcat(a, c);
    }
  }

  lemma {:induction false} MembersAreTheirTokens(ms: seq<Member>)
    ensures CompactMembers(ms) == TextOfTokens(MemberTokens(ms, s => s))
    decreases WeightOfMembers(ms), 2
  {
    hide TextOfTokens, Compact, Tokens, CommaTokens, CommaText, Quoted;
    if ms == [] {
      NoTokens();
    } else {
      var l := StringLexeme(ms[0].name);
      var a, c, r := Tokens(ms[0].item, s => s), CommaTokens(|ms| > 1), MemberTokens(ms[1..], s => s);
      CompactIsItsTokens(ms[0].item);
      MembersAreTheirTokens(ms[1..]);
      CommaIsItsToken(|ms| > 1);
      TokensConcat([l, L_COLON] + a + c, r);
      TokensConcat([l, L_COLON] + a, c);
      TokensConcat([l, L_COLON], a);
      NameTokens(l);
      assert [] + [COLON] + [] == [COLON];
    }
  }

  lemma NameTokens(l: Lexeme)
    ensures TextOfTokens([l, L_COLON]) == l.text + [COLON]
  {
    assert [l, L_COLON] == [l] + [L_COLON];
    TokensConcat([l], [L_COLON]);
    OneToken(l);
    OneToken(L_COLON);
  }
}
