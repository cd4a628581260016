/** The writers' texts spell the token sequence of the value, and the reader turns
    every text that spells it into the value's normal form. */
module JsonRoundTrip {
  import opened Bytes
  import opened Numerals
  import opened JsonValue
  import opened JsonLexer
  import opened JsonText
  import opened JsonStrings

  // ---------------------------------------------------------------- token sequences

  /** The tokens read from `p` on begin with `toks`. */
  predicate Reads(doc: bytes, p: nat, toks: seq<Lexeme>)
    requires p <= |doc|
    decreases |toks|
  {
    if toks == [] then true
    else
      var t := ReadToken(doc, p);
      t.kind == toks[0].kind && doc[t.start..t.end] == toks[0].text && Reads(doc, t.end, toks[1..])
  }

  /** The cursor behind the next n tokens. */
  function After(doc: bytes, p: nat, n: nat): (q: nat)
    requires p <= |doc|
    ensures p <= q <= |doc|
    decreases n
  {
    if n == 0 then p else After(doc, ReadToken(doc, p).end, n - 1)
  }

  /** The text at p..q spells `toks`. */
  predicate Spells(doc: bytes, p: nat, toks: seq<Lexeme>, q: nat)
    requires p <= |doc|
  {
    Reads(doc, p, toks) && After(doc, p, |toks|) == q
  }

  lemma {:induction false} AfterAdd(doc: bytes, p: nat, m: nat, n: nat)
    requires p <= |doc|
    ensures After(doc, p, m + n) == After(doc, After(doc, p, m), n)
    decreases m
  {
    hide ReadToken;
    if m > 0 { AfterAdd(doc, ReadToken(doc, p).end, m - 1, n); }
  }

  lemma {:induction false} ReadsConcat(doc: bytes, p: nat, a: seq<Lexeme>, b: seq<Lexeme>)
    requires p <= |doc|
    ensures Reads(doc, p, a + b) <==> Reads(doc, p, a) && Reads(doc, After(doc, p, |a|), b)
    ensures After(doc, p, |a + b|) == After(doc, After(doc, p, |a|), |b|)
    decreases |a|
  {
    hide ReadToken;
    AfterAdd(doc, p, |a|, |b|);
    if a == [] {
      assert a + b == b;
    } else {
      assert (a + b)[1..] == a[1..] + b;
      ReadsConcat(doc, ReadToken(doc, p).end, a[1..], b);
    }
  }

  lemma SpellsConcat(doc: bytes, p: nat, a: seq<Lexeme>, m: nat, b: seq<Lexeme>, q: nat)
    requires p <= |doc| && m <= |doc|
    requires Spells(doc, p, a, m) && Spells(doc, m, b, q)
    ensures Spells(doc, p, a + b, q)
  {
    ReadsConcat(doc, p, a, b);
  }

  lemma SpellsThree(doc: bytes, p: nat, a: seq<Lexeme>, m: nat, b: seq<Lexeme>, n: nat, c: seq<Lexeme>, q: nat)
    requires p <= |doc| && m <= |doc| && n <= |doc|
    requires Spells(doc, p, a, m) && Spells(doc, m, b, n) && Spells(doc, n, c, q)
    ensures Spells(doc, p, a + b + c, q)
  {
    hide Spells;
    SpellsConcat(doc, p, a, m, b, n);
    SpellsConcat(doc, p, a + b, n, c, q);
  }

  lemma SpellsOne(doc: bytes, p: nat, l: Lexeme)
    requires p <= |doc|
    ensures var t := ReadToken(doc, p);
      Spells(doc, p, [l], t.end) <==> t.kind == l.kind && doc[t.start..t.end] == l.text
    ensures Spells(doc, p, [], p)
  {
    hide ReadToken;
    var t := ReadToken(doc, p);
    assert [l][1..] == [];
    assert Reads(doc, t.end, []) && After(doc, t.end, 0) == t.end;
    assert Reads(doc, p, [l]) <==> t.kind == l.kind && doc[t.start..t.end] == l.text;
    assert After(doc, p, 1) == t.end;
  }

  /** Blanks in front of a token do not matter. */
  lemma SpellsBehindBlanks(doc: bytes, p: nat, n: nat, toks: seq<Lexeme>, q: nat)
    requires toks != [] && p + n <= |doc|
    requires forall k :: p <= k < p + n ==> IsBlank(doc[k])
    requires Spells(doc, p + n, toks, q)
    ensures Spells(doc, p, toks, q)
  {
    hide SkipSpaces, TokenRest;
    SkipSpacesOver(doc, p, n);
    assert ReadToken(doc, p) == ReadToken(doc, p + n);
  }

  /** The tokens of one byte. */
  predicate IsPunctuation(l: Lexeme) {
    l in {L_ARRAY_BEGIN, L_ARRAY_END, L_OBJECT_BEGIN, L_OBJECT_END, L_COMMA, L_COLON}
  }

  lemma PunctuationToken(doc: bytes, p: nat, l: Lexeme)
    requires IsPunctuation(l) && p < |doc| && doc[p] == l.text[0]
    ensures ReadToken(doc, p) == Token(l.kind, p, p + 1)
  {
    hide StringEnd, NumberEnd, CommentEnd, Matches;
    assert SkipSpaces(doc, p) == p;
  }

  lemma SpellsPunctuation(doc: bytes, p: nat, l: Lexeme)
    requires IsPunctuation(l) && At(doc, p, l.text)
    ensures Spells(doc, p, [l], p + 1)
  {
    hide ReadToken, Reads, After;
    AtIndex(doc, p, l.text);
    PunctuationToken(doc, p, l);
    SpellsOne(doc, p, l);
  }

  lemma SpellsColon(doc: bytes, p: nat)
    requires At(doc, p, [COLON])
    ensures Spells(doc, p, [L_COLON], p + 1)
  {
    SpellsPunctuation(doc, p, L_COLON);
  }

  lemma SpellsString(doc: bytes, p: nat, s: bytes)
    requires At(doc, p, Quoted(s))
    ensures Spells(doc, p, [StringLexeme(s)], p + |Quoted(s)|)
  {
    hide ReadToken, Reads, After, Quoted;
    QuotedRoundTrip(doc, p, s);
    SpellsOne(doc, p, StringLexeme(s));
  }

  lemma SpellsInteger(doc: bytes, p: nat, i: int)
    requires At(doc, p, IntegerText(i)) && NumberStops(doc, p + |IntegerText(i)|)
    ensures Spells(doc, p, [Lexeme(NumberToken, IntegerText(i))], p + |IntegerText(i)|)
  {
    hide ReadToken, Reads, After, IntegerText, NumberStops;
    IntegerTokenReads(doc, p, i);
    SpellsOne(doc, p, Lexeme(NumberToken, IntegerText(i)));
  }

  lemma {:induction false} SpellsScalar(doc: bytes, p: nat, v: Value, name: bytes -> bytes)
    requires Printable(v) && !v.Array? && !v.Object?
    requires At(doc, p, Flat(v)) && NumberStops(doc, p + |Flat(v)|)
    ensures Spells(doc, p, Tokens(v, name), p + |Flat(v)|)
  {
    hide ReadToken, Reads, After, Quoted, NumberStops;
    var l := Tokens(v, name)[0];
    match v
    case Int(i) => SpellsInteger(doc, p, i);
    case UInt(u) => SpellsInteger(doc, p, u);
    case Str(s) => SpellsString(doc, p, s);
    case Null => LiteralReads(doc, p, NULL_TEXT, ULL); SpellsOne(doc, p, l);
    case Bool(b) =>
      if b { LiteralReads(doc, p, TRUE_TEXT, RUE); } else { LiteralReads(doc, p, FALSE_TEXT, ALSE); }
      SpellsOne(doc, p, l);
  }

  lemma LiteralReads(doc: bytes, p: nat, text: bytes, rest: bytes)
    requires At(doc, p, text) && (text, rest) in {(NULL_TEXT, ULL), (TRUE_TEXT, RUE), (FALSE_TEXT, ALSE)}
    ensures var t := ReadToken(doc, p);
      && t.start == p && t.end == p + |text|
      && t.kind == if text == NULL_TEXT then NullToken else if text == TRUE_TEXT then TrueToken else FalseToken
  {
    hide StringEnd, NumberEnd, CommentEnd, At;
    AtIndex(doc, p, text);
    AtBounds(doc, p, text);
    assert text == [text[0]] + rest;
    AtConcat(doc, p, [text[0]], rest);
    assert SkipSpaces(doc, p) == p;
  }

  /** An empty container is its two brackets. */
  lemma {:induction false} SpellsEmpty(doc: bytes, p: nat, v: Value, name: bytes -> bytes)
    requires (v.Array? || v.Object?) && Size(v) == 0 && At(doc, p, Flat(v))
    ensures Spells(doc, p, Tokens(v, name), p + 2)
  {
    hide At, Spells;
    var a := if v.Array? then L_ARRAY_BEGIN else L_OBJECT_BEGIN;
    var b := if v.Array? then L_ARRAY_END else L_OBJECT_END;
    assert Flat(v) == a.text + b.text;
    AtConcat(doc, p, a.text, b.text);
    SpellsPunctuation(doc, p, a);
    SpellsPunctuation(doc, p + 1, b);
    AtBounds(doc, p + 1, b.text);
    SpellsConcat(doc, p, [a], p + 1, [b], p + 2);
    assert Tokens(v, name) == [a] + [b];
  }

  lemma {:induction false} SpellsFlat(doc: bytes, p: nat, v: Value, name: bytes -> bytes)
    requires Printable(v) && IsFlat(v)
    requires At(doc, p, Flat(v)) && NumberStops(doc, p + |Flat(v)|)
    ensures Spells(doc, p, Tokens(v, name), p + |Flat(v)|)
  {
    if v.Array? || v.Object? { SpellsEmpty(doc, p, v, name); } else { SpellsScalar(doc, p, v, name); }
  }

  lemma {:induction false} TokensNonempty(v: Value, name: bytes -> bytes)
    requires Printable(v)
    ensures Tokens(v, name) != []
  {
  }

  // ---------------------------------------------------------------- lists of items

  predicate Blanks(s: bytes) {
    forall k :: 0 <= k < |s| ==> IsBlank(s[k])
  }

  lemma SpellsBehindText(doc: bytes, p: nat, blank: bytes, toks: seq<Lexeme>, q: nat)
    requires toks != [] && At(doc, p, blank)
    requires Blanks(blank) && Spells(doc, p + |blank|, toks, q)
    ensures Spells(doc, p, toks, q)
  {
    hide Spells;
    AtIndex(doc, p, blank);
    forall k | p <= k < p + |blank| ensures IsBlank(doc[k]) {
      assert doc[k] == blank[k - p];
    }
    SpellsBehindBlanks(doc, p, |blank|, toks, q);
  }

  lemma NewLineIsBlank(n: nat)
    ensures Blanks(NewLine(n))
  {
  }

  lemma NothingAt(doc: bytes, p: nat, w: bytes)
    requires At(doc, p, w)
    ensures At(doc, p, [])
  {
  }

  lemma SpellsNothing(doc: bytes, p: nat)
    requires At(doc, p, [])
    ensures Spells(doc, p, [], p)
  {
  }

  lemma SpellsComma(doc: bytes, p: nat, more: bool)
    requires p <= |doc| && At(doc, p, CommaText(more))
    ensures Spells(doc, p, CommaTokens(more), p + |CommaText(more)|)
  {
    if more { SpellsPunctuation(doc, p, L_COMMA); } else { SpellsOne(doc, p, L_COMMA); }
  }

  /** One item of a list and the rest of the list: `blank` stands before the item at p, the
      item ends at q, `rest` is as long as what follows its comma. */
  lemma SpellsItem(
      doc: bytes, p: nat, blank: bytes, q: nat, more: bool, end: nat, toks: seq<Lexeme>, restToks: seq<Lexeme>)
    requires At(doc, p, blank) && Blanks(blank) && At(doc, q, CommaText(more))
    requires toks != [] && Spells(doc, p + |blank|, toks, q)
    requires Spells(doc, q + |CommaText(more)|, restToks, end)
    ensures Spells(doc, p, toks + CommaTokens(more) + restToks, end)
  {
    hide *;
    var m := q + |CommaText(more)|;
    AtBounds(doc, p, blank);
    AtBounds(doc, q, CommaText(more));
    SpellsBehindText(doc, p, blank, toks, q);
    SpellsComma(doc, q, more);
    SpellsThree(doc, p, toks, q, CommaTokens(more), m, restToks, end);
  }

  /** A bracketed text: `lead` and `trail` are the blanks inside the brackets. */
  function Bracketed(a: Lexeme, lead: bytes, body: bytes, trail: bytes, b: Lexeme): bytes {
    a.text + lead + body + trail + b.text
  }

  lemma BracketedParts(doc: bytes, p: nat, a: bytes, lead: bytes, body: bytes, trail: bytes, b: bytes)
    requires At(doc, p, a + lead + body + trail + b)
    ensures At(doc, p, a) && At(doc, p + |a|, lead) && At(doc, p + |a| + |lead|, body)
    ensures At(doc, p + |a| + |lead| + |body|, trail) && At(doc, p + |a| + |lead| + |body| + |trail|, b)
  {
    AtConcat(doc, p, a + lead + body + trail, b);
    AtConcat(doc, p, a + lead + body, trail);
    AtConcat(doc, p, a + lead, body);
    AtConcat(doc, p, a, lead);
  }

  /** The body of a bracketed text stands behind the lead, and no number runs into what follows it. */
  lemma BodyOfBracketed(doc: bytes, p: nat, a: Lexeme, lead: bytes, body: bytes, trail: bytes, b: Lexeme)
    requires At(doc, p, Bracketed(a, lead, body, trail, b))
    requires IsPunctuation(a) && IsPunctuation(b) && Blanks(trail)
    ensures At(doc, p, a.text) && At(doc, p + 1, lead) && At(doc, p + 1 + |lead|, body)
    ensures At(doc, p + 1 + |lead| + |body|, trail)
    ensures At(doc, p + 1 + |lead| + |body| + |trail|, b.text)
    ensures NumberStops(doc, p + 1 + |lead| + |body|)
  {
    hide At;
    BracketedParts(doc, p, a.text, lead, body, trail, b.text);
    var q := p + 1 + |lead| + |body|;
    AtIndex(doc, q, trail);
    AtIndex(doc, q + |trail|, b.text);
    AtBounds(doc, q + |trail|, b.text);
    if trail != [] {
      assert doc[q] == trail[0] && IsBlank(trail[0]);
    } else {
      assert doc[q] == b.text[0];
    }
  }

  lemma BracketedSpells(
      doc: bytes, p: nat, a: Lexeme, lead: bytes, q: nat, toks: seq<Lexeme>, trail: bytes, b: Lexeme)
    requires IsPunctuation(a) && IsPunctuation(b) && Blanks(lead) && Blanks(trail) && toks != []
    requires At(doc, p, a.text) && At(doc, p + 1, lead) && At(doc, q, trail) && At(doc, q + |trail|, b.text)
    requires p + 1 + |lead| <= |doc| && Spells(doc, p + 1 + |lead|, toks, q)
    ensures Spells(doc, p, [a] + toks + [b], q + |trail| + 1)
  {
    hide *;
    AtBounds(doc, q, trail);
    SpellsPunctuation(doc, p, a);
    SpellsPunctuation(doc, q + |trail|, b);
    SpellsBehindText(doc, p + 1, lead, toks, q);
    SpellsBehindText(doc, q, trail, [b], q + |trail| + 1);
    SpellsThree(doc, p, [a], p + 1, toks, q, [b], q + |trail| + 1);
  }

  /** A member: the quoted name, a colon with `gap` on both sides, and the value. */
  lemma MemberSpells(doc: bytes, p: nat, name: bytes, gap: bytes, toks: seq<Lexeme>, q: nat)
    requires At(doc, p, Quoted(name)) && Blanks(gap)
    requires var m := p + |Quoted(name)|;
      && At(doc, m, gap) && At(doc, m + |gap|, [COLON]) && At(doc, m + |gap| + 1, gap)
      && toks != [] && Spells(doc, m + |gap| + 1 + |gap|, toks, q)
    ensures Spells(doc, p, [StringLexeme(name), L_COLON] + toks, q)
  {
    hide *;
    var m := p + |Quoted(name)|;
    AtBounds(doc, m + |gap|, [COLON]);
    SpellsString(doc, p, name);
    SpellsColon(doc, m + |gap|);
    SpellsBehindText(doc, m, gap, [L_COLON], m + |gap| + 1);
    SpellsBehindText(doc, m + |gap| + 1, gap, toks, q);
    SpellsThree(doc, p, [StringLexeme(name)], m, [L_COLON], m + |gap| + 1, toks, q);
    PairOf(StringLexeme(name), L_COLON);
  }

  lemma PairOf(a: Lexeme, b: Lexeme)
    ensures [a] + [b] == [a, b]
  {
  }

  /** The text of a member taken apart. */
  lemma MemberParts(doc: bytes, p: nat, name: bytes, gap: bytes, item: bytes)
    requires At(doc, p, MemberText(name, gap, item))
    ensures |MemberText(name, gap, item)| == |Quoted(name)| + |gap| + 1 + |gap| + |item|
    ensures var m := p + |Quoted(name)|;
      && At(doc, p, Quoted(name))
      && At(doc, m, gap) && At(doc, m + |gap|, [COLON]) && At(doc, m + |gap| + 1, gap)
      && At(doc, m + |gap| + 1 + |gap|, item)
  {
    var m := p + |Quoted(name)|;
    AtConcat(doc, p, Quoted(name) + (gap + [COLON] + gap), item);
    AtConcat(doc, p, Quoted(name), gap + [COLON] + gap);
    AtConcat(doc, m, gap + [COLON], gap);
    AtConcat(doc, m, gap, [COLON]);
  }

  // ---------------------------------------------------------------- the styled text

  lemma {:induction false} ListTokensNonempty(slots: seq<Slot>, ms: seq<Member>, name: bytes -> bytes)
    requires PrintableSlots(slots) && PrintableMembers(ms)
    ensures slots != [] ==> SlotTokens(slots, name) != []
    ensures ms != [] ==> MemberTokens(ms, name) != []
  {
    if slots != [] { TokensNonempty(SlotValue(slots[0]), name); }
  }

  /** What follows an item of a list: its comma, or whatever stands behind the list. */
  lemma BareItemStops(doc: bytes, p: nat, text: bytes, more: bool, rest: bytes)
    requires At(doc, p, text + CommaText(more) + rest)
    requires !more ==> NumberStops(doc, p + |text|)
    ensures At(doc, p, text) && At(doc, p + |text|, CommaText(more))
    ensures NumberStops(doc, p + |text|) && At(doc, p + |text| + |CommaText(more)|, rest)
  {
    AtConcat(doc, p, text + CommaText(more), rest);
    AtConcat(doc, p, text, CommaText(more));
    AtIndex(doc, p + |text|, CommaText(more));
  }

  lemma ItemStops(doc: bytes, p: nat, blank: bytes, text: bytes, more: bool, rest: bytes)
    requires At(doc, p, blank + text + CommaText(more) + rest)
    requires !more ==> NumberStops(doc, p + |blank| + |text|)
    ensures At(doc, p, blank) && At(doc, p + |blank|, text)
    ensures NumberStops(doc, p + |blank| + |text|) && At(doc, p + |blank| + |text|, CommaText(more))
    ensures At(doc, p + |blank| + |text| + |CommaText(more)|, rest)
  {
    hide NumberStops;
    AtConcat(doc, p, blank + text + CommaText(more), rest);
    AtConcat(doc, p, blank + text, CommaText(more));
    AtConcat(doc, p, blank, text);
    AtConcat(doc, p + |blank|, text, CommaText(more));
    AtConcat(doc, p + |blank|, text + CommaText(more), rest);
    BareItemStops(doc, p + |blank|, text, more, rest);
  }

  /** An array is spelled when its items are, at p + 1 + |lead| .. q between its brackets. */
  lemma {:induction false} ArraySpells(v: Value, name: bytes -> bytes, doc: bytes, p: nat, lead: bytes, q: nat, trail: bytes)
    requires Printable(v) && v.Array? && v.slots != [] && Blanks(lead) && Blanks(trail)
    requires At(doc, p, [LBRACKET]) && At(doc, p + 1, lead) && At(doc, q, trail) && At(doc, q + |trail|, [RBRACKET])
    requires Spells(doc, p + 1 + |lead|, SlotTokens(v.slots, name), q)
    ensures Spells(doc, p, Tokens(v, name), q + |trail| + 1)
  {
    ListTokensNonempty(v.slots, [], name);
    BracketedSpells(doc, p, L_ARRAY_BEGIN, lead, q, SlotTokens(v.slots, name), trail, L_ARRAY_END);
  }

  lemma {:induction false} ObjectSpells(v: Value, name: bytes -> bytes, doc: bytes, p: nat, q: nat, trail: bytes)
    requires Printable(v) && v.Object? && v.members != [] && Blanks(trail)
    requires At(doc, p, [LBRACE]) && At(doc, q, trail) && At(doc, q + |trail|, [RBRACE])
    requires Spells(doc, p + 1, MemberTokens(v.members, name), q)
    ensures Spells(doc, p, Tokens(v, name), q + |trail| + 1)
  {
    assert At(doc, p + 1, []);
    ListTokensNonempty([], v.members, name);
    BracketedSpells(doc, p, L_OBJECT_BEGIN, [], q, MemberTokens(v.members, name), trail, L_OBJECT_END);
  }

  /** The reader's tokens of the styled text of v are the tokens of v, with the
      member names cut at their first NUL. */
  lemma {:induction false} StyledSpells(v: Value, n: nat, doc: bytes, p: nat)
    requires Printable(v) && At(doc, p, Styled(v, n)) && NumberStops(doc, p + |Styled(v, n)|)
    ensures Spells(doc, p, Tokens(v, UptoNul), p + |Styled(v, n)|)
    decreases Weight(v), 1
  {
    hide Spells, At, NumberStops, Tokens;
    if IsFlat(v) {
      SpellsFlat(doc, p, v, UptoNul);
    } else if v.Object? {
      StyledObjectSpells(v, n, doc, p);
    } else if MultiLine(v.slots) {
      MultiLineSpells(v, n, doc, p);
    } else {
      OneLineSpells(v, n, doc, p);
    }
  }

  lemma {:induction false} MultiLineSpells(v: Value, n: nat, doc: bytes, p: nat)
    requires Printable(v) && v.Array? && v.slots != [] && MultiLine(v.slots) && At(doc, p, Styled(v, n))
    ensures Spells(doc, p, Tokens(v, UptoNul), p + |Styled(v, n)|)
    decreases Weight(v), 0
  {
    hide At, Spells, NumberStops, MultiLine, Tokens, StyledSlots, SlotTokens;
    var body := StyledSlots(v.slots, n + INDENT);
    assert Styled(v, n) == Bracketed(L_ARRAY_BEGIN, [], body, NewLine(n), L_ARRAY_END);
    BodyOfBracketed(doc, p, L_ARRAY_BEGIN, [], body, NewLine(n), L_ARRAY_END);
    StyledSlotsSpell(v.slots, n + INDENT, doc, p + 1);
    ArraySpells(v, UptoNul, doc, p, [], p + 1 + |body|, NewLine(n));
  }

  lemma {:induction false} OneLineSpells(v: Value, n: nat, doc: bytes, p: nat)
    requires Printable(v) && v.Array? && v.slots != [] && !MultiLine(v.slots) && At(doc, p, Styled(v, n))
    ensures Spells(doc, p, Tokens(v, UptoNul), p + |Styled(v, n)|)
    decreases Weight(v), 0
  {
    hide At, Spells, NumberStops, Tokens, Inline, SlotTokens;
    var body := Inline(v.slots);
    assert Styled(v, n) == Bracketed(L_ARRAY_BEGIN, [SPACE], body, [SPACE], L_ARRAY_END);
    BodyOfBracketed(doc, p, L_ARRAY_BEGIN, [SPACE], body, [SPACE], L_ARRAY_END);
    InlineSpells(v.slots, doc, p + 2);
    ArraySpells(v, UptoNul, doc, p, [SPACE], p + 2 + |body|, [SPACE]);
  }

  lemma {:induction false} StyledObjectSpells(v: Value, n: nat, doc: bytes, p: nat)
    requires Printable(v) && v.Object? && v.members != [] && At(doc, p, Styled(v, n))
    ensures Spells(doc, p, Tokens(v, UptoNul), p + |Styled(v, n)|)
    decreases Weight(v), 0
  {
    hide At, Spells, NumberStops, Tokens, StyledMembers, MemberTokens;
    var body := StyledMembers(v.members, n + INDENT);
    assert Styled(v, n) == Bracketed(L_OBJECT_BEGIN, [], body, NewLine(n), L_OBJECT_END);
    BodyOfBracketed(doc, p, L_OBJECT_BEGIN, [], body, NewLine(n), L_OBJECT_END);
    StyledMembersSpell(v.members, n + INDENT, doc, p + 1);
    ObjectSpells(v, UptoNul, doc, p, p + 1 + |body|, NewLine(n));
  }

  lemma {:induction false} StyledSlotsSpell(slots: seq<Slot>, n: nat, doc: bytes, p: nat)
    requires PrintableSlots(slots) && At(doc, p, StyledSlots(slots, n))
    requires NumberStops(doc, p + |StyledSlots(slots, n)|)
    ensures Spells(doc, p, SlotTokens(slots, UptoNul), p + |StyledSlots(slots, n)|)
    decreases WeightOfSlots(slots), 2
  {
    hide At, Spells, NumberStops, MemberText, Tokens, Flat, Quoted, UptoNul, Styled, Compact, Printable, NewLine;
    if slots == [] {
      SpellsNothing(doc, p);
    } else {
      var item, more := SlotValue(slots[0]), |slots| > 1;
      var text, rest := Styled(item, n), StyledSlots(slots[1..], n);
      NewLineIsBlank(n);
      ItemStops(doc, p, NewLine(n), text, more, rest);
      StyledSpells(item, n, doc, p + |NewLine(n)|);
      StyledSlotsSpell(slots[1..], n, doc, p + |NewLine(n)| + |text| + |CommaText(more)|);
      TokensNonempty(item, UptoNul);
      SpellsItem(doc, p, NewLine(n), p + |NewLine(n)| + |text|, more, p + |StyledSlots(slots, n)|,
                 Tokens(item, UptoNul), SlotTokens(slots[1..], UptoNul));
    }
  }

  /** The first item of a one-line array and what follows its comma. */
  lemma {:induction false} InlineParts(slots: seq<Slot>, doc: bytes, p: nat)
    requires slots != [] && At(doc, p, Inline(slots)) && NumberStops(doc, p + |Inline(slots)|)
    ensures var text, more := Flat(SlotValue(slots[0])), |slots| > 1;
      var m := p + |text| + |CommaText(more)|;
      && At(doc, p, []) && At(doc, p, text) && NumberStops(doc, p + |text|) && At(doc, p + |text|, CommaText(more))
      && (more ==> At(doc, m, [SPACE]) && At(doc, m + 1, Inline(slots[1..]))
                   && m + 1 + |Inline(slots[1..])| == p + |Inline(slots)|)
      && (!more ==> At(doc, m, []) && m == p + |Inline(slots)|)
  {
    hide At, NumberStops, Flat, Inline;
    var text, more := Flat(SlotValue(slots[0])), |slots| > 1;
    var rest: bytes := if more then [SPACE] + Inline(slots[1..]) else [];
    InlineText(slots);
    NothingAt(doc, p, Inline(slots));
    BareItemStops(doc, p, text, more, rest);
    if more { AtConcat(doc, p + |text| + |CommaText(more)|, [SPACE], Inline(slots[1..])); }
  }

  lemma {:induction false} InlineText(slots: seq<Slot>)
    requires slots != []
    ensures Inline(slots) == Flat(SlotValue(slots[0])) + CommaText(|slots| > 1)
      + (if |slots| > 1 then [SPACE] + Inline(slots[1..]) else [])
  {
    hide Flat;
  }

  lemma {:induction false} InlineSpells(slots: seq<Slot>, doc: bytes, p: nat)
    requires PrintableSlots(slots) && !HasNested(slots) && At(doc, p, Inline(slots))
    requires NumberStops(doc, p + |Inline(slots)|)
    ensures Spells(doc, p, SlotTokens(slots, UptoNul), p + |Inline(slots)|)
    decreases WeightOfSlots(slots), 2
  {
    hide At, Spells, NumberStops, Tokens, Flat, UptoNul, Printable, Inline;
    if slots == [] {
      EmptyInline();
      SpellsNothing(doc, p);
    } else {
      var item, more, end := SlotValue(slots[0]), |slots| > 1, p + |Inline(slots)|;
      var m := p + |Flat(item)| + |CommaText(more)|;
      InlineParts(slots, doc, p);
      SpellsFlat(doc, p, item, UptoNul);
      if more {
        InlineSpells(slots[1..], doc, m + 1);
        ListTokensNonempty(slots[1..], [], UptoNul);
        SpellsBehindText(doc, m, [SPACE], SlotTokens(slots[1..], UptoNul), end);
      } else {
        SpellsNothing(doc, m);
      }
      TokensNonempty(item, UptoNul);
      SpellsItem(doc, p, [], p + |Flat(item)|, more, end, Tokens(item, UptoNul), SlotTokens(slots[1..], UptoNul));
    }
  }

  lemma EmptyInline()
    ensures Inline([]) == []
  {
  }

  lemma {:induction false} StyledMembersSpell(ms: seq<Member>, n: nat, doc: bytes, p: nat)
    requires PrintableMembers(ms) && At(doc, p, StyledMembers(ms, n))
    requires NumberStops(doc, p + |StyledMembers(ms, n)|)
    ensures Spells(doc, p, MemberTokens(ms, UptoNul), p + |StyledMembers(ms, n)|)
    decreases WeightOfMembers(ms), 2
  {
    hide At, Spells, NumberStops, MemberText, Tokens, Flat, Quoted, UptoNul, Styled, Compact, Printable, NewLine;
    if ms == [] {
      SpellsNothing(doc, p);
    } else {
      var name, item, more := UptoNul(ms[0].name), ms[0].item, |ms| > 1;
      var value, rest := Styled(item, n), StyledMembers(ms[1..], n);
      var text := MemberText(name, [SPACE], value);
      assert StyledMembers(ms, n) == NewLine(n) + text + CommaText(more) + rest;
      NewLineIsBlank(n);
      ItemStops(doc, p, NewLine(n), text, more, rest);
      var q := p + |NewLine(n)|;
      MemberParts(doc, q, name, [SPACE], value);
      StyledSpells(item, n, doc, q + |text| - |value|);
      TokensNonempty(item, UptoNul);
      MemberSpells(doc, q, name, [SPACE], Tokens(item, UptoNul), q + |text|);
      StyledMembersSpell(ms[1..], n, doc, q + |text| + |CommaText(more)|);
      SpellsItem(doc, p, NewLine(n), q + |text|, more, p + |StyledMembers(ms, n)|,
                 [StringLexeme(name), L_COLON] + Tokens(item, UptoNul), MemberTokens(ms[1..], UptoNul));
    }
  }

  // ---------------------------------------------------------------- the compact text

  function Whole(s: bytes): bytes {
    s
  }

  /** The reader's tokens of the compact text of v are the tokens of v. */
  lemma {:induction false} CompactSpells(v: Value, doc: bytes, p: nat)
    requires Printable(v) && At(doc, p, Compact(v)) && NumberStops(doc, p + |Compact(v)|)
    ensures Spells(doc, p, Tokens(v, Whole), p + |Compact(v)|)
    decreases Weight(v), 1
  {
    hide Spells, At, NumberStops, Tokens;
    if IsFlat(v) {
      assert Compact(v) == Flat(v);
      SpellsFlat(doc, p, v, Whole);
    } else if v.Array? {
      CompactArraySpells(v, doc, p);
    } else {
      CompactObjectSpells(v, doc, p);
    }
  }

  lemma {:induction false} CompactArraySpells(v: Value, doc: bytes, p: nat)
    requires Printable(v) && v.Array? && v.slots != [] && At(doc, p, Compact(v))
    ensures Spells(doc, p, Tokens(v, Whole), p + |Compact(v)|)
    decreases Weight(v), 0
  {
    hide At, Spells, NumberStops, Tokens, CompactSlots, SlotTokens;
    var body := CompactSlots(v.slots);
    assert Compact(v) == Bracketed(L_ARRAY_BEGIN, [], body, [], L_ARRAY_END);
    BodyOfBracketed(doc, p, L_ARRAY_BEGIN, [], body, [], L_ARRAY_END);
    CompactSlotsSpell(v.slots, doc, p + 1);
    ArraySpells(v, Whole, doc, p, [], p + 1 + |body|, []);
  }

  lemma {:induction false} CompactObjectSpells(v: Value, doc: bytes, p: nat)
    requires Printable(v) && v.Object? && v.members != [] && At(doc, p, Compact(v))
    ensures Spells(doc, p, Tokens(v, Whole), p + |Compact(v)|)
    decreases Weight(v), 0
  {
    hide At, Spells, NumberStops, Tokens, CompactMembers, MemberTokens;
    var body := CompactMembers(v.members);
    assert Compact(v) == Bracketed(L_OBJECT_BEGIN, [], body, [], L_OBJECT_END);
    BodyOfBracketed(doc, p, L_OBJECT_BEGIN, [], body, [], L_OBJECT_END);
    CompactMembersSpell(v.members, doc, p + 1);
    ObjectSpells(v, Whole, doc, p, p + 1 + |body|, []);
  }

  lemma {:induction false} CompactSlotsSpell(slots: seq<Slot>, doc: bytes, p: nat)
    requires PrintableSlots(slots) && At(doc, p, CompactSlots(slots))
    requires NumberStops(doc, p + |CompactSlots(slots)|)
    ensures Spells(doc, p, SlotTokens(slots, Whole), p + |CompactSlots(slots)|)
    decreases WeightOfSlots(slots), 2
  {
    hide At, Spells, NumberStops, MemberText, Tokens, Flat, Quoted, UptoNul, Styled, Compact, Printable, NewLine;
    if slots == [] {
      SpellsNothing(doc, p);
    } else {
      var item, more := SlotValue(slots[0]), |slots| > 1;
      var text, rest := Compact(item), CompactSlots(slots[1..]);
      NothingAt(doc, p, CompactSlots(slots));
      BareItemStops(doc, p, text, more, rest);
      CompactSpells(item, doc, p);
      CompactSlotsSpell(slots[1..], doc, p + |text| + |CommaText(more)|);
      TokensNonempty(item, Whole);
      SpellsItem(doc, p, [], p + |text|, more, p + |CompactSlots(slots)|,
                 Tokens(item, Whole), SlotTokens(slots[1..], Whole));
    }
  }

  lemma {:induction false} CompactMembersSpell(ms: seq<Member>, doc: bytes, p: nat)
    requires PrintableMembers(ms) && At(doc, p, CompactMembers(ms))
    requires NumberStops(doc, p + |CompactMembers(ms)|)
    ensures Spells(doc, p, MemberTokens(ms, Whole), p + |CompactMembers(ms)|)
    decreases WeightOfMembers(ms), 2
  {
    hide At, Spells, NumberStops, MemberText, Tokens, Flat, Quoted, UptoNul, Styled, Compact, Printable, NewLine;
    if ms == [] {
      SpellsNothing(doc, p);
    } else {
      var name, item, more := ms[0].name, ms[0].item, |ms| > 1;
      var value, rest := Compact(item), CompactMembers(ms[1..]);
      var text := MemberText(name, [], value);
      NothingAt(doc, p, CompactMembers(ms));
      BareItemStops(doc, p, text, more, rest);
      MemberParts(doc, p, name, [], value);
      CompactSpells(item, doc, p + |text| - |value|);
      TokensNonempty(item, Whole);
      MemberSpells(doc, p, name, [], Tokens(item, Whole), p + |text|);
      CompactMembersSpell(ms[1..], doc, p + |text| + |CommaText(more)|);
      SpellsItem(doc, p, [], p + |text|, more, p + |CompactMembers(ms)|,
                 [StringLexeme(name), L_COLON] + Tokens(item, Whole), MemberTokens(ms[1..], Whole));
    }
  }
}
