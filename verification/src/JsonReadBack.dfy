/** The reader turns every text that spells the tokens of a value into the value's
    normal form, and stops with the depth exception exactly on the deeper ones. */
module JsonReadBack {
  import opened Bytes
  import opened Numerals
  import opened JsonValue
  import opened JsonLexer
  import opened JsonText
  import opened JsonDecode
  import opened JsonStrings
  import opened JsonParse
  import opened JsonRoundTrip

  type Naming = bytes -> bytes

  lemma Assoc(a: seq<Lexeme>, b: seq<Lexeme>, c: seq<Lexeme>, d: seq<Lexeme>)
    ensures a + b + c + d == a + (b + (c + d))
  {
  }

  lemma HeadTail(a: seq<Lexeme>, b: seq<Lexeme>)
    requires a != []
    ensures a + b == [a[0]] + (a[1..] + b)
  {
  }

  /** The tokens of a list and of its closing bracket: the first item, its comma, and the rest. */
  lemma {:induction false} SlotTokensStep(slots: seq<Slot>, name: Naming)
    requires slots != []
    ensures SlotTokens(slots, name) + [L_ARRAY_END]
         == Tokens(SlotValue(slots[0]), name) + (CommaTokens(|slots| > 1) + (SlotTokens(slots[1..], name) + [L_ARRAY_END]))
  {
    hide Tokens;
    Assoc(Tokens(SlotValue(slots[0]), name), CommaTokens(|slots| > 1), SlotTokens(slots[1..], name), [L_ARRAY_END]);
  }

  /** The tokens behind the name of the first member of an object. */
  function AfterName(ms: seq<Member>, name: Naming): seq<Lexeme>
    requires ms != []
  {
    [L_COLON] + (Tokens(ms[0].item, name) + (CommaTokens(|ms| > 1) + (MemberTokens(ms[1..], name) + [L_OBJECT_END])))
  }

  lemma {:induction false} MemberTokensStep(ms: seq<Member>, name: Naming)
    requires ms != []
    ensures MemberTokens(ms, name) + [L_OBJECT_END] == [StringLexeme(name(ms[0].name))] + AfterName(ms, name)
    ensures |MemberTokens(ms, name)| == |AfterName(ms, name)|
  {
    hide Tokens, StringLexeme;
    var l, t, c, r := StringLexeme(name(ms[0].name)), Tokens(ms[0].item, name), CommaTokens(|ms| > 1), MemberTokens(ms[1..], name);
    Assoc([l, L_COLON] + t, c, r, [L_OBJECT_END]);
    Assoc([l, L_COLON], t, c, r + [L_OBJECT_END]);
    FiveParts(l, L_COLON, t, c, r, [L_OBJECT_END]);
  }

  lemma FiveParts(l: Lexeme, m: Lexeme, t: seq<Lexeme>, c: seq<Lexeme>, r: seq<Lexeme>, e: seq<Lexeme>)
    ensures [l, m] + t + c + r + e == [l] + ([m] + (t + (c + (r + e))))
  {
  }

  /** Behind an item: the comma and the rest of the list, or the closing bracket. */
  lemma {:induction false} CommaOrEnd(doc: bytes, p: nat, more: bool, tail: seq<Lexeme>, end: Lexeme)
    requires p <= |doc| && Reads(doc, p, CommaTokens(more) + tail)
    requires end.kind != CommentToken && (more || tail == [end])
    ensures var t := ReadToken(doc, p);
      && SkipComments(doc, p) == t
      && (if more then t.kind == ArraySeparator && Reads(doc, t.end, tail) else t.kind == end.kind)
      && After(doc, p, |CommaTokens(more)| + |tail|) == if more then After(doc, t.end, |tail|) else t.end
  {
    hide ReadToken, Reads, SkipComments, After;
    if more {
      FirstOf(doc, p, L_COMMA, tail);
    } else {
      NothingAppended(end);
      FirstOf(doc, p, end, []);
      NothingAfter(doc, ReadToken(doc, p).end);
    }
  }

  lemma NothingAppended(l: Lexeme)
    ensures [] + [l] == [l] + []
  {
  }

  /** The first token of a non-empty token list, and what remains to be read. */
  lemma {:induction false} FirstOf(doc: bytes, p: nat, l: Lexeme, rest: seq<Lexeme>)
    requires p <= |doc| && Reads(doc, p, [l] + rest)
    ensures var t := ReadToken(doc, p);
      && t.kind == l.kind && At(doc, t.start, l.text) && t.end == t.start + |l.text|
      && Reads(doc, t.end, rest)
      && After(doc, p, 1 + |rest|) == After(doc, t.end, |rest|)
    ensures l.kind != CommentToken ==> SkipComments(doc, p) == ReadToken(doc, p)
  {
    hide ReadToken;
    assert ([l] + rest)[1..] == rest;
  }

  lemma {:induction false} NoCommentFirst(inp: Input, p: nat, l: Lexeme, rest: seq<Lexeme>)
    requires p <= |inp.doc| && Reads(inp.doc, p, [l] + rest) && l.kind != CommentToken
    ensures FirstToken(inp, p) == ReadToken(inp.doc, p)
  {
    FirstOf(inp.doc, p, l, rest);
  }

  /** A scalar token reads as the normal form of the scalar. */
  lemma {:induction false} ReadScalarOf(inp: Input, s: State, token: Token, cur: Value, v: Value, name: Naming)
    requires Printable(v) && !v.Array? && !v.Object?
    requires token.start <= token.end <= |inp.doc|
    requires token.kind == StringToken ==> token.start + 2 <= token.end
    requires var l := Tokens(v, name)[0];
      token.kind == l.kind && inp.doc[token.start..token.end] == l.text
    ensures ReadScalar(inp, s, token, cur) == Result(Good, s.(depth := s.depth - 1), Norm(v, name))
  {
    hide EscapeAll, DecodeString, DecodeNumber, ReadToken, Quoted, IntegerText;
    match v
    case Int(i) => IntegerRoundTrip(i);
    case UInt(u) => IntegerRoundTrip(u);
    case Str(t) => TextDecodes(inp.doc, token.start, token.end, t);
    case _ =>
  }

  lemma TextDecodes(doc: bytes, p: nat, q: nat, t: bytes)
    requires p <= q <= |doc| && doc[p..q] == Quoted(t) && p + 2 <= q
    ensures DecodeString(doc, p, q) == Text(t)
  {
    hide DecodeString, EscapeAll, ReadToken;
    QuotedRoundTrip(doc, p, t);
  }

  /** Success at the position behind the tokens, errors and depth as before. */
  function Done(inp: Input, st: State, n: nat, v: Value): Result
    requires st.pos <= |inp.doc|
  {
    Result(Good, st.(pos := After(inp.doc, st.pos, n)), v)
  }

  /** A list of tokens that starts with those of an item. */
  lemma {:induction false} ItemFirst(doc: bytes, p: nat, toks: seq<Lexeme>, rest: seq<Lexeme>)
    requires p <= |doc| && Reads(doc, p, toks + rest)
    ensures Reads(doc, p, toks) && Reads(doc, After(doc, p, |toks|), rest)
    ensures After(doc, p, |toks| + |rest|) == After(doc, After(doc, p, |toks|), |rest|)
  {
    hide ReadToken;
    ReadsConcat(doc, p, toks, rest);
  }

  lemma {:induction false} TokensFirst(v: Value, name: Naming)
    requires Printable(v)
    ensures var toks := Tokens(v, name);
      && toks != [] && toks == [toks[0]] + toks[1..]
      && toks[0].kind !in {CommentToken, ArrayEnd}
      && (v.Array? ==> toks[0] == L_ARRAY_BEGIN && toks[1..] == SlotTokens(v.slots, name) + [L_ARRAY_END])
      && (v.Object? ==> toks[0] == L_OBJECT_BEGIN && toks[1..] == MemberTokens(v.members, name) + [L_OBJECT_END])
      && (!v.Array? && !v.Object? ==> toks[1..] == [] && toks[0].kind !in {ArrayBegin, ObjectBegin})
  {
    hide SlotTokens, MemberTokens, Flat, Quoted;
    TokensNonempty(v, name);
    var toks := Tokens(v, name);
    if v.Array? {
      assert toks == [L_ARRAY_BEGIN] + (SlotTokens(v.slots, name) + [L_ARRAY_END]);
    } else if v.Object? {
      assert toks == [L_OBJECT_BEGIN] + (MemberTokens(v.members, name) + [L_OBJECT_END]);
    }
  }

  /** One step of readValue, by the kind of the first token. */
  lemma {:induction false} ReadValueStep(inp: Input, st: State, cur: Value)
    requires st.pos <= |inp.doc| && st.depth < STACK_LIMIT
    ensures var token := FirstToken(inp, st.pos);
      var s := st.(pos := token.end, depth := st.depth + 1);
      ReadValue(inp, st, cur) ==
        if token.kind == ObjectBegin then Leave(ReadObject(inp, s, [], []))
        else if token.kind == ArrayBegin then Leave(ReadArray(inp, s))
        else ReadScalar(inp, s, token, cur)
  {
    hide FirstToken, ReadObject, ReadArray, ReadScalar;
  }

  lemma {:induction false} LeaveDone(inp: Input, st: State, s: State, n: nat, toks: nat, v: Value)
    requires st.pos <= |inp.doc| && s.pos <= |inp.doc|
    requires s == st.(pos := s.pos, depth := st.depth + 1)
    requires After(inp.doc, st.pos, toks) == After(inp.doc, s.pos, n)
    ensures Leave(Done(inp, s, n, v)) == Done(inp, st, toks, v)
  {
    hide After;
  }

  /** Reading a text that spells v yields v's normal form, when the depth allows it. */
  lemma {:induction false} ReadValueOf(inp: Input, st: State, cur: Value, v: Value, name: Naming)
    requires Printable(v) && st.pos <= |inp.doc| && Reads(inp.doc, st.pos, Tokens(v, name))
    requires st.depth + Depth(v) <= STACK_LIMIT
    ensures ReadValue(inp, st, cur) == Done(inp, st, |Tokens(v, name)|, Norm(v, name))
    decreases Weight(v), 1
  {
    hide ReadValue, FirstToken, ReadToken, ReadObject, ReadArray, ReadScalar, Reads, After, Tokens, Leave,
         SlotTokens, MemberTokens, NormSlots, NormMembers, At, Flat, SlotsDepth, MembersDepth;
    var doc, toks := inp.doc, Tokens(v, name);
    TokensFirst(v, name);
    FirstOf(doc, st.pos, toks[0], toks[1..]);
    NoCommentFirst(inp, st.pos, toks[0], toks[1..]);
    var token := ReadToken(doc, st.pos);
    var s := st.(pos := token.end, depth := st.depth + 1);
    ReadValueStep(inp, st, cur);
    if v.Array? {
      ReadArrayOf(inp, s, v.slots, name);
      LeaveDone(inp, st, s, |SlotTokens(v.slots, name)| + 1, |toks|, Norm(v, name));
    } else if v.Object? {
      ReadObjectOf(inp, s, [], [], v.members, name);
      LeaveDone(inp, st, s, |MemberTokens(v.members, name)| + 1, |toks|, Norm(v, name));
    } else {
      ScalarTokenFits(doc, st.pos, toks[0]);
      ReadScalarOf(inp, s, token, cur, v, name);
      NothingAfter(doc, token.end);
    }
  }

  lemma ScalarTokenFits(doc: bytes, p: nat, l: Lexeme)
    requires p <= |doc| && At(doc, ReadToken(doc, p).start, l.text)
    requires ReadToken(doc, p).end == ReadToken(doc, p).start + |l.text|
    ensures doc[ReadToken(doc, p).start..ReadToken(doc, p).end] == l.text
  {
    hide ReadToken;
  }

  lemma {:induction false} NothingAfter(doc: bytes, p: nat)
    requires p <= |doc|
    ensures After(doc, p, 0) == p
  {
  }

  /** readArray looks past the blanks for a closing bracket before it reads an item. */
  lemma {:induction false} PeekArrayEnd(doc: bytes, p: nat)
    requires p <= |doc|
    ensures ReadToken(doc, SkipSpaces(doc, p)) == ReadToken(doc, p)
    ensures ByteAt(doc, SkipSpaces(doc, p)) == RBRACKET <==> ReadToken(doc, p).kind == ArrayEnd
  {
    var q := SkipSpaces(doc, p);
    assert SkipSpaces(doc, q) == q;
  }

  lemma {:induction false} ReadsPeeked(doc: bytes, p: nat, toks: seq<Lexeme>)
    requires p <= |doc| && toks != [] && Reads(doc, p, toks)
    ensures Reads(doc, SkipSpaces(doc, p), toks)
    ensures After(doc, SkipSpaces(doc, p), |toks|) == After(doc, p, |toks|)
  {
    hide ReadToken, SkipSpaces;
    PeekArrayEnd(doc, p);
  }

  /** readArray by the kind of the next token. */
  lemma {:induction false} ReadArrayStep(inp: Input, st: State)
    requires st.pos <= |inp.doc|
    ensures var t, p := ReadToken(inp.doc, st.pos), SkipSpaces(inp.doc, st.pos);
      ReadArray(inp, st) ==
        if t.kind == ArrayEnd then Result(Good, st.(pos := t.end), Array([]))
        else ReadItems(inp, st.(pos := p), [])
  {
    hide ReadToken, SkipSpaces, ReadItems;
    PeekArrayEnd(inp.doc, st.pos);
  }

  /** What a non-empty list of items is made of. */
  lemma {:induction false} SlotsStep(slots: seq<Slot>, name: Naming)
    requires slots != [] && PrintableSlots(slots)
    ensures Printable(SlotValue(slots[0])) && PrintableSlots(slots[1..])
    ensures Weight(SlotValue(slots[0])) < WeightOfSlots(slots) && WeightOfSlots(slots[1..]) < WeightOfSlots(slots)
    ensures SlotsDepth(slots) == Max(Depth(SlotValue(slots[0])), SlotsDepth(slots[1..]))
    ensures NormSlots(slots, name) == [Item(Norm(SlotValue(slots[0]), name))] + NormSlots(slots[1..], name)
    ensures |slots| == 1 ==> SlotTokens(slots[1..], name) == [] && SlotsDepth(slots[1..]) == 0
    ensures |SlotTokens(slots, name)|
         == |Tokens(SlotValue(slots[0]), name)| + |CommaTokens(|slots| > 1)| + |SlotTokens(slots[1..], name)|
  {
    hide Tokens, Norm, Depth, Printable;
    SlotWeighsLess(slots, 0);
  }

  /** The first token of a list of items is the first token of its first item. */
  lemma {:induction false} SlotsFirst(doc: bytes, p: nat, slots: seq<Slot>, name: Naming)
    requires slots != [] && PrintableSlots(slots)
    requires p <= |doc| && Reads(doc, p, SlotTokens(slots, name) + [L_ARRAY_END])
    ensures ReadToken(doc, p).kind != ArrayEnd
  {
    hide ReadToken, Reads, Tokens, After, SlotTokens, Depth, Norm, NormSlots, SlotsDepth, At;
    SlotsStep(slots, name);
    TokensFirst(SlotValue(slots[0]), name);
    SlotTokensStep(slots, name);
    var first := Tokens(SlotValue(slots[0]), name);
    var rest := CommaTokens(|slots| > 1) + (SlotTokens(slots[1..], name) + [L_ARRAY_END]);
    HeadTail(first, rest);
    FirstOf(doc, p, first[0], first[1..] + rest);
  }

  lemma {:induction false} ReadArrayOf(inp: Input, st: State, slots: seq<Slot>, name: Naming)
    requires PrintableSlots(slots) && st.pos <= |inp.doc|
    requires Reads(inp.doc, st.pos, SlotTokens(slots, name) + [L_ARRAY_END])
    requires st.depth + SlotsDepth(slots) <= STACK_LIMIT
    ensures ReadArray(inp, st) == Done(inp, st, |SlotTokens(slots, name)| + 1, Array(NormSlots(slots, name)))
    decreases WeightOfSlots(slots), 3
  {
    hide ReadToken, SkipSpaces, ReadItems, ReadArray, Reads, Tokens, After, WeightOfSlots, Depth, Norm, At, Printable;
    var toks := SlotTokens(slots, name) + [L_ARRAY_END];
    ReadArrayStep(inp, st);
    if slots == [] {
      NothingAppended(L_ARRAY_END);
      FirstOf(inp.doc, st.pos, L_ARRAY_END, []);
      NothingAfter(inp.doc, ReadToken(inp.doc, st.pos).end);
    } else {
      SlotsFirst(inp.doc, st.pos, slots, name);
      ReadsPeeked(inp.doc, st.pos, toks);
      ReadItemsOf(inp, st.(pos := SkipSpaces(inp.doc, st.pos)), [], slots, name);
      assert [] + NormSlots(slots, name) == NormSlots(slots, name);
    }
  }

  /** One turn of readArray behind an item that was read. */
  lemma {:induction false} ReadItemsStep(inp: Input, st: State, acc: seq<Slot>, child: Result, token: Token)
    requires st.pos <= |inp.doc| && child == ReadValue(inp, st, Null)
    requires token == SkipComments(inp.doc, child.st.pos)
    ensures child.status == Threw ==> ReadItems(inp, st, acc).status == Threw
    ensures child.status == Good && token.kind == ArraySeparator ==>
      ReadItems(inp, st, acc) == ReadItems(inp, child.st.(pos := token.end), acc + [Item(child.v)])
    ensures child.status == Good && token.kind == ArrayEnd ==>
      ReadItems(inp, st, acc) == Result(Good, child.st.(pos := token.end), Array(acc + [Item(child.v)]))
  {
    hide ReadValue, SkipComments, Recover;
  }

  lemma AppendStep(acc: seq<Slot>, x: Slot, rest: seq<Slot>)
    ensures acc + [x] + rest == acc + ([x] + rest)
    ensures rest == [] ==> acc + [x] == acc + ([x] + rest)
  {
  }

  lemma {:induction false} ReadItemsOf(inp: Input, st: State, acc: seq<Slot>, slots: seq<Slot>, name: Naming)
    requires PrintableSlots(slots) && slots != [] && st.pos <= |inp.doc|
    requires Reads(inp.doc, st.pos, SlotTokens(slots, name) + [L_ARRAY_END])
    requires st.depth + SlotsDepth(slots) <= STACK_LIMIT
    ensures ReadItems(inp, st, acc)
         == Done(inp, st, |SlotTokens(slots, name)| + 1, Array(acc + NormSlots(slots, name)))
    decreases WeightOfSlots(slots), 2
  {
    hide ReadToken, SkipComments, ReadValue, ReadItems, Reads, Tokens, After, Norm, Recover, At, Depth, SlotsDepth,
         Printable, PrintableSlots, WeightOfSlots, Weight, SlotTokens, NormSlots, SlotValue, CommaTokens;
    var doc, item, more := inp.doc, SlotValue(slots[0]), |slots| > 1;
    var tail := SlotTokens(slots[1..], name) + [L_ARRAY_END];
    SlotsStep(slots, name);
    SlotTokensStep(slots, name);
    ItemFirst(doc, st.pos, Tokens(item, name), CommaTokens(more) + tail);
    ReadValueOf(inp, st, Null, item, name);
    var child := ReadValue(inp, st, Null);
    var token := ReadToken(doc, child.st.pos);
    CommaOrEnd(doc, child.st.pos, more, tail, L_ARRAY_END);
    ReadItemsStep(inp, st, acc, child, token);
    AppendStep(acc, Item(child.v), NormSlots(slots[1..], name));
    if more {
      ReadItemsOf(inp, child.st.(pos := token.end), acc + [Item(child.v)], slots[1..], name);
    } else {
      NoMoreSlots(slots, name);
    }
  }

  lemma NoMoreSlots(slots: seq<Slot>, name: Naming)
    requires |slots| == 1
    ensures NormSlots(slots[1..], name) == []
  {
  }

  /** What a non-empty list of members is made of. */
  lemma {:induction false} MembersStep(ms: seq<Member>, acc: seq<Member>, name: Naming)
    requires ms != [] && PrintableMembers(ms)
    ensures Printable(ms[0].item) && PrintableMembers(ms[1..])
    ensures Weight(ms[0].item) < WeightOfMembers(ms) && WeightOfMembers(ms[1..]) < WeightOfMembers(ms)
    ensures MembersDepth(ms) == Max(Depth(ms[0].item), MembersDepth(ms[1..]))
    ensures NormMembers(acc, ms, name) == NormMembers(Store(acc, name(ms[0].name), Norm(ms[0].item, name)), ms[1..], name)
    ensures |ms| == 1 ==> MemberTokens(ms[1..], name) == [] && MembersDepth(ms[1..]) == 0
    ensures |ms| == 1 ==> NormMembers(acc, ms, name) == Store(acc, name(ms[0].name), Norm(ms[0].item, name))
    ensures |MemberTokens(ms, name)|
         == 2 + |Tokens(ms[0].item, name)| + |CommaTokens(|ms| > 1)| + |MemberTokens(ms[1..], name)|
  {
    hide Tokens, Norm, Depth, Printable, Store, StringLexeme;
    MemberWeighsLess(ms, 0);
  }

  /** readObject by the kind of the next token. */
  lemma {:induction false} ReadObjectStep(inp: Input, st: State, last: bytes, acc: seq<Member>, t: Token)
    requires st.pos <= |inp.doc| && t == SkipComments(inp.doc, st.pos)
    ensures t.kind == ObjectEnd && last == [] ==>
      ReadObject(inp, st, last, acc) == Result(Good, st.(pos := t.end), Object(acc))
    ensures t.kind == StringToken && DecodeString(inp.doc, t.start, t.end).Text? ==>
      ReadObject(inp, st, last, acc)
        == ReadMember(inp, st.(pos := t.end), DecodeString(inp.doc, t.start, t.end).s, acc)
  {
    hide SkipComments, DecodeString, ReadMember, Recover;
  }

  /** The name of a member read by readObject. */
  lemma {:induction false} NameRead(inp: Input, st: State, last: bytes, acc: seq<Member>, ms: seq<Member>, name: Naming)
    requires ms != [] && st.pos <= |inp.doc| && Reads(inp.doc, st.pos, MemberTokens(ms, name) + [L_OBJECT_END])
    ensures var t := ReadToken(inp.doc, st.pos);
      && Reads(inp.doc, t.end, AfterName(ms, name))
      && After(inp.doc, st.pos, |MemberTokens(ms, name)| + 1) == After(inp.doc, t.end, |MemberTokens(ms, name)|)
      && ReadObject(inp, st, last, acc) == ReadMember(inp, st.(pos := t.end), name(ms[0].name), acc)
  {
    hide ReadToken, SkipComments, Reads, After, DecodeString, Quoted, ReadMember, ReadObject, At, MemberTokens, AfterName;
    var doc, key := inp.doc, name(ms[0].name);
    MemberTokensStep(ms, name);
    FirstOf(doc, st.pos, StringLexeme(key), AfterName(ms, name));
    var t := ReadToken(doc, st.pos);
    NameDecodes(doc, t.start, key);
    ReadObjectStep(inp, st, last, acc, t);
  }

  lemma {:induction false} ReadObjectOf(
      inp: Input, st: State, last: bytes, acc: seq<Member>, ms: seq<Member>, name: Naming)
    requires PrintableMembers(ms) && st.pos <= |inp.doc|
    requires Reads(inp.doc, st.pos, MemberTokens(ms, name) + [L_OBJECT_END])
    requires ms != [] || last == []
    requires st.depth + MembersDepth(ms) <= STACK_LIMIT
    ensures ReadObject(inp, st, last, acc)
         == Done(inp, st, |MemberTokens(ms, name)| + 1, Object(NormMembers(acc, ms, name)))
    decreases WeightOfMembers(ms), 2
  {
    hide ReadToken, SkipComments, Reads, Tokens, After, Norm, DecodeString, ReadMember, ReadObject, Store, At,
         Printable, Depth, WeightOfMembers;
    if ms == [] {
      NothingAppended(L_OBJECT_END);
      FirstOf(inp.doc, st.pos, L_OBJECT_END, []);
      ReadObjectStep(inp, st, last, acc, ReadToken(inp.doc, st.pos));
      NothingAfter(inp.doc, ReadToken(inp.doc, st.pos).end);
    } else {
      NameRead(inp, st, last, acc, ms, name);
      ReadMemberOf(inp, st.(pos := ReadToken(inp.doc, st.pos).end), acc, ms, name);
    }
  }

  lemma NameDecodes(doc: bytes, p: nat, s: bytes)
    requires At(doc, p, Quoted(s))
    ensures p + 2 <= p + |Quoted(s)| <= |doc| && DecodeString(doc, p, p + |Quoted(s)|) == Text(s)
  {
    hide DecodeString, EscapeAll;
    QuotedRoundTrip(doc, p, s);
  }

  /** The rest of a turn of readObject behind a member that was read. */
  lemma {:induction false} ReadMemberStep(inp: Input, st: State, key: bytes, acc: seq<Member>, s: State, child: Result, next: Token)
    requires st.pos <= |inp.doc| && ReadToken(inp.doc, st.pos).kind == MemberSeparator
    requires s == st.(pos := ReadToken(inp.doc, st.pos).end)
    requires child == ReadValue(inp, s, SlotValue(Find(acc, key)))
    requires next == ReadToken(inp.doc, child.st.pos)
    ensures child.status == Threw ==> ReadMember(inp, st, key, acc).status == Threw
    ensures child.status == Good && next.kind == ArraySeparator ==>
      ReadMember(inp, st, key, acc) == ReadObject(inp, child.st.(pos := next.end), key, Store(acc, key, child.v))
    ensures child.status == Good && next.kind == ObjectEnd ==>
      ReadMember(inp, st, key, acc) == Result(Good, child.st.(pos := next.end), Object(Store(acc, key, child.v)))
  {
    hide ReadValue, ReadObject, ReadToken, SkipComments, Recover, Store, Find;
  }

  /** The colon behind a name, and the tokens of the value and of what follows it. */
  lemma ColonRead(doc: bytes, p: nat, ms: seq<Member>, name: Naming)
    requires ms != [] && PrintableMembers(ms) && p <= |doc| && Reads(doc, p, AfterName(ms, name))
    ensures var t, first := ReadToken(doc, p), Tokens(ms[0].item, name);
      var tail := MemberTokens(ms[1..], name) + [L_OBJECT_END];
      var rest := CommaTokens(|ms| > 1) + tail;
      && t.kind == MemberSeparator && Reads(doc, t.end, first)
      && Reads(doc, After(doc, t.end, |first|), rest)
      && After(doc, p, |MemberTokens(ms, name)|) == After(doc, After(doc, t.end, |first|), |rest|)
  {
    hide ReadToken, SkipComments, Reads, After, Tokens, MemberTokens, Printable, PrintableMembers, Norm, NormMembers, Depth, MembersDepth, Store, At;
    MembersStep(ms, [], name);
    var first := Tokens(ms[0].item, name);
    var rest := CommaTokens(|ms| > 1) + (MemberTokens(ms[1..], name) + [L_OBJECT_END]);
    FirstOf(doc, p, L_COLON, first + rest);
    ItemFirst(doc, ReadToken(doc, p).end, first, rest);
  }

  lemma {:induction false} ReadMemberOf(inp: Input, st: State, acc: seq<Member>, ms: seq<Member>, name: Naming)
    requires PrintableMembers(ms) && ms != [] && st.pos <= |inp.doc|
    requires Reads(inp.doc, st.pos, AfterName(ms, name))
    requires st.depth + MembersDepth(ms) <= STACK_LIMIT
    ensures ReadMember(inp, st, name(ms[0].name), acc)
         == Done(inp, st, |MemberTokens(ms, name)|, Object(NormMembers(acc, ms, name)))
    decreases WeightOfMembers(ms), 1
  {
    hide ReadToken, SkipComments, ReadValue, ReadObject, ReadMember, Reads, Tokens, After, Norm, Store, Find,
         Quoted, Recover, At, Depth, Printable, AfterName, MemberTokens, NormMembers, MembersDepth, PrintableMembers,
         WeightOfMembers, Weight, SlotValue, CommaTokens;
    var doc, key, item, more := inp.doc, name(ms[0].name), ms[0].item, |ms| > 1;
    var tail := MemberTokens(ms[1..], name) + [L_OBJECT_END];
    var s := st.(pos := ReadToken(doc, st.pos).end);
    var cur := SlotValue(Find(acc, key));
    var child := ReadValue(inp, s, cur);
    var next := ReadToken(doc, child.st.pos);
    ColonRead(doc, st.pos, ms, name);
    MembersStep(ms, acc, name);
    ReadValueOf(inp, s, cur, item, name);
    CommaOrEnd(doc, child.st.pos, more, tail, L_OBJECT_END);
    ReadMemberStep(inp, st, key, acc, s, child, next);
    if more {
      ReadObjectOf(inp, child.st.(pos := next.end), key, Store(acc, key, child.v), ms[1..], name);
    }
  }

  // ---------------------------------------------------------------- the depth limit

  /** Reading a text that spells a value too deep for the limit ends in the exception. */
  lemma {:induction false} ReadValueTooDeep(inp: Input, st: State, cur: Value, v: Value, name: Naming)
    requires Printable(v) && st.pos <= |inp.doc| && Reads(inp.doc, st.pos, Tokens(v, name))
    requires st.depth <= STACK_LIMIT < st.depth + Depth(v)
    ensures ReadValue(inp, st, cur).status == Threw
    decreases Weight(v), 1
  {
    hide FirstToken, ReadToken, ReadObject, ReadArray, ReadScalar, ReadValue, Reads, After, Tokens, Leave,
         SlotTokens, MemberTokens, At, Flat, SlotsDepth, MembersDepth;
    var doc, toks := inp.doc, Tokens(v, name);
    if st.depth == STACK_LIMIT {
      ReadValueAtLimit(inp, st, cur);
    } else {
      TokensFirst(v, name);
      FirstOf(doc, st.pos, toks[0], toks[1..]);
      NoCommentFirst(inp, st.pos, toks[0], toks[1..]);
      var s := st.(pos := ReadToken(doc, st.pos).end, depth := st.depth + 1);
      ReadValueStep(inp, st, cur);
      if v.Array? {
        ReadArrayTooDeep(inp, s, v.slots, name);
        LeaveThrew(ReadArray(inp, s));
      } else {
        ReadObjectTooDeep(inp, s, [], [], v.members, name);
        LeaveThrew(ReadObject(inp, s, [], []));
      }
    }
  }

  lemma {:induction false} ReadValueAtLimit(inp: Input, st: State, cur: Value)
    requires st.pos <= |inp.doc| && st.depth >= STACK_LIMIT
    ensures ReadValue(inp, st, cur).status == Threw
  {
  }

  lemma NoDepth()
    ensures SlotsDepth([]) == 0 && MembersDepth([]) == 0
  {
  }

  lemma LeaveThrew(r: Result)
    requires r.status == Threw
    ensures Leave(r).status == Threw
  {
  }

  lemma {:induction false} ReadArrayTooDeep(inp: Input, st: State, slots: seq<Slot>, name: Naming)
    requires PrintableSlots(slots) && st.pos <= |inp.doc|
    requires Reads(inp.doc, st.pos, SlotTokens(slots, name) + [L_ARRAY_END])
    requires st.depth <= STACK_LIMIT < st.depth + SlotsDepth(slots)
    ensures ReadArray(inp, st).status == Threw
    decreases WeightOfSlots(slots), 3
  {
    hide ReadToken, SkipSpaces, ReadItems, ReadArray, Reads, Tokens, SlotTokens, After, WeightOfSlots, Depth, SlotsDepth, Printable;
    NoDepth();
    ReadArrayStep(inp, st);
    SlotsFirst(inp.doc, st.pos, slots, name);
    ReadsPeeked(inp.doc, st.pos, SlotTokens(slots, name) + [L_ARRAY_END]);
    ReadItemsTooDeep(inp, st.(pos := SkipSpaces(inp.doc, st.pos)), [], slots, name);
  }

  lemma {:induction false} ReadItemsTooDeep(inp: Input, st: State, acc: seq<Slot>, slots: seq<Slot>, name: Naming)
    requires PrintableSlots(slots) && slots != [] && st.pos <= |inp.doc|
    requires Reads(inp.doc, st.pos, SlotTokens(slots, name) + [L_ARRAY_END])
    requires st.depth <= STACK_LIMIT < st.depth + SlotsDepth(slots)
    ensures ReadItems(inp, st, acc).status == Threw
    decreases WeightOfSlots(slots), 2
  {
    hide ReadToken, SkipComments, ReadValue, ReadItems, Reads, Tokens, After, Norm, Recover, At, Depth, SlotsDepth,
         Printable, PrintableSlots, WeightOfSlots, Weight, SlotTokens, NormSlots, SlotValue, CommaTokens;
    var doc, item, more := inp.doc, SlotValue(slots[0]), |slots| > 1;
    var tail := SlotTokens(slots[1..], name) + [L_ARRAY_END];
    var child := ReadValue(inp, st, Null);
    var token := SkipComments(doc, child.st.pos);
    SlotsStep(slots, name);
    SlotTokensStep(slots, name);
    ItemFirst(doc, st.pos, Tokens(item, name), CommaTokens(more) + tail);
    ReadItemsStep(inp, st, acc, child, token);
    if st.depth + Depth(item) > STACK_LIMIT {
      ReadValueTooDeep(inp, st, Null, item, name);
    } else {
      ReadValueOf(inp, st, Null, item, name);
      CommaOrEnd(doc, child.st.pos, more, tail, L_ARRAY_END);
      ReadItemsTooDeep(inp, child.st.(pos := token.end), acc + [Item(child.v)], slots[1..], name);
    }
  }

  lemma {:induction false} ReadObjectTooDeep(
      inp: Input, st: State, last: bytes, acc: seq<Member>, ms: seq<Member>, name: Naming)
    requires PrintableMembers(ms) && st.pos <= |inp.doc|
    requires Reads(inp.doc, st.pos, MemberTokens(ms, name) + [L_OBJECT_END])
    requires st.depth <= STACK_LIMIT < st.depth + MembersDepth(ms)
    ensures ReadObject(inp, st, last, acc).status == Threw
    decreases WeightOfMembers(ms), 2
  {
    hide ReadToken, Reads, Tokens, MemberTokens, After, ReadMember, ReadObject, Store, At,
         Printable, Depth, MembersDepth, WeightOfMembers, AfterName;
    NoDepth();
    NameRead(inp, st, last, acc, ms, name);
    ReadMemberTooDeep(inp, st.(pos := ReadToken(inp.doc, st.pos).end), acc, ms, name);
  }

  lemma {:induction false} ReadMemberTooDeep(inp: Input, st: State, acc: seq<Member>, ms: seq<Member>, name: Naming)
    requires PrintableMembers(ms) && ms != [] && st.pos <= |inp.doc|
    requires Reads(inp.doc, st.pos, AfterName(ms, name))
    requires st.depth <= STACK_LIMIT < st.depth + MembersDepth(ms)
    ensures ReadMember(inp, st, name(ms[0].name), acc).status == Threw
    decreases WeightOfMembers(ms), 1
  {
    hide ReadToken, SkipComments, ReadValue, ReadObject, ReadMember, Reads, Tokens, After, Norm, Store, Find,
         Quoted, Recover, At, Depth, Printable, AfterName, MemberTokens, NormMembers, MembersDepth, PrintableMembers,
         WeightOfMembers, Weight, SlotValue, CommaTokens;
    var doc, key, item, more := inp.doc, name(ms[0].name), ms[0].item, |ms| > 1;
    var tail := MemberTokens(ms[1..], name) + [L_OBJECT_END];
    var s := st.(pos := ReadToken(doc, st.pos).end);
    var cur := SlotValue(Find(acc, key));
    var child := ReadValue(inp, s, cur);
    var next := ReadToken(doc, child.st.pos);
    ColonRead(doc, st.pos, ms, name);
    MembersStep(ms, acc, name);
    ReadMemberStep(inp, st, key, acc, s, child, next);
    if st.depth + Depth(item) > STACK_LIMIT {
      ReadValueTooDeep(inp, s, cur, item, name);
    } else {
      ReadValueOf(inp, s, cur, item, name);
      CommaOrEnd(doc, child.st.pos, more, tail, L_OBJECT_END);
      ReadObjectTooDeep(inp, child.st.(pos := next.end), key, Store(acc, key, child.v), ms[1..], name);
    }
  }

  // ---------------------------------------------------------------- whole documents

  /** What parse makes of a document that spells v. */
  ghost predicate GivesBack(r: Result, v: Value, name: Naming) {
    if Depth(v) <= STACK_LIMIT then r.status == Good && r.st.errors == [] && r.v == Norm(v, name)
    else r.status == Threw
  }

  lemma {:induction false} ParseSpelled(inp: Input, cur: Value, v: Value, name: Naming)
    requires Printable(v) && Reads(inp.doc, 0, Tokens(v, name))
    requires inp.strictRoot ==> v.Array? || v.Object?
    ensures GivesBack(Parse(inp, cur), v, name)
  {
    hide ReadValue, Reads, Tokens, After, FirstToken, NormSlots, NormMembers;
    if Depth(v) <= STACK_LIMIT {
      ReadValueOf(inp, State(0, [], 0), cur, v, name);
    } else {
      ReadValueTooDeep(inp, State(0, [], 0), cur, v, name);
    }
  }

  /** Reader::parse of StyledWriter::write(v): for every value without reals and null string
      pointers, the normal form of v with names cut at their first NUL, or the depth exception
      when v has more than 1000 levels. */
  lemma {:induction false} StyledRoundTrip(inp: Input, cur: Value, v: Value)
    requires Printable(v) && inp.doc == Styled(v, 0) + [LF]
    requires inp.strictRoot ==> v.Array? || v.Object?
    ensures GivesBack(Parse(inp, cur), v, UptoNul)
  {
    hide Parse, Reads, Tokens, Styled, After;
    AtConcat(inp.doc, 0, Styled(v, 0), [LF]);
    StyledSpells(v, 0, inp.doc, 0);
    ParseSpelled(inp, cur, v, UptoNul);
  }

  /** The same for FastWriter, which prints names whole. */
  lemma {:induction false} CompactRoundTrip(inp: Input, cur: Value, v: Value)
    requires Printable(v) && inp.doc == Compact(v) + [LF]
    requires inp.strictRoot ==> v.Array? || v.Object?
    ensures GivesBack(Parse(inp, cur), v, Whole)
  {
    hide Parse, Reads, Tokens, Compact, After;
    AtConcat(inp.doc, 0, Compact(v), [LF]);
    CompactSpells(v, inp.doc, 0);
    ParseSpelled(inp, cur, v, Whole);
  }

  // ---------------------------------------------------------------- the normal form is the value

  predicate NamesNulFree(v: Value)
    decreases Weight(v)
  {
    match v
    case Array(slots) => SlotNamesNulFree(slots)
    case Object(ms) => MemberNamesNulFree(ms)
    case _ => true
  }

  predicate SlotNamesNulFree(slots: seq<Slot>)
    decreases WeightOfSlots(slots)
  {
    slots == [] || (NamesNulFree(SlotValue(slots[0])) && SlotNamesNulFree(slots[1..]))
  }

  predicate MemberNamesNulFree(ms: seq<Member>)
    decreases WeightOfMembers(ms)
  {
    ms == [] || (NulFree(ms[0].name) && NamesNulFree(ms[0].item) && MemberNamesNulFree(ms[1..]))
  }

  /** v with its integers re-tagged and its holes filled with null, and nothing else changed. */
  function Retagged(v: Value): Value
    decreases Weight(v)
  {
    match v
    case Int(i) => Retag(i)
    case UInt(u) => Retag(u)
    case Array(slots) => Array(RetaggedSlots(slots))
    case Object(ms) => Object(RetaggedMembers(ms))
    case _ => v
  }

  function RetaggedSlots(slots: seq<Slot>): seq<Slot>
    decreases WeightOfSlots(slots)
  {
    if slots == [] then [] else [Item(Retagged(SlotValue(slots[0])))] + RetaggedSlots(slots[1..])
  }

  function RetaggedMembers(ms: seq<Member>): seq<Member>
    decreases WeightOfMembers(ms)
  {
    if ms == [] then [] else [Member(ms[0].name, Retagged(ms[0].item))] + RetaggedMembers(ms[1..])
  }

  /** A naming that prints NUL-free names as they are. */
  ghost predicate Faithful(name: Naming) {
    forall s :: NulFree(s) ==> name(s) == s
  }

  ghost predicate Identity(name: Naming) {
    forall s :: name(s) == s
  }

  lemma NameKept(name: Naming, s: bytes)
    requires Faithful(name) && (NulFree(s) || Identity(name))
    ensures name(s) == s
  {
  }

  /** Printing and reading a well-formed value only re-tags it, when its names have no NUL
      or are printed whole. */
  lemma {:induction false} NormIsRetagged(v: Value, name: Naming)
    requires WellFormed(v) && Faithful(name) && (NamesNulFree(v) || Identity(name))
    ensures Norm(v, name) == Retagged(v)
    decreases Weight(v)
  {
    hide Faithful, Identity;
    match v
    case Array(slots) => NormSlotsIsRetagged(slots, name);
    case Object(ms) =>
      NormMembersIsRetagged([], ms, name);
      assert [] + RetaggedMembers(ms) == RetaggedMembers(ms);
      assert [] + ms == ms;
    case _ =>
  }

  lemma {:induction false} NormSlotsIsRetagged(slots: seq<Slot>, name: Naming)
    requires forall k :: 0 <= k < |slots| && slots[k].Item? ==> WellFormed(slots[k].item)
    requires Faithful(name) && (SlotNamesNulFree(slots) || Identity(name))
    ensures NormSlots(slots, name) == RetaggedSlots(slots)
    decreases WeightOfSlots(slots)
  {
    hide Faithful, Identity;
    if slots != [] {
      NormIsRetagged(SlotValue(slots[0]), name);
      NormSlotsIsRetagged(slots[1..], name);
    }
  }

  /** The order depends on the names only. */
  lemma SortedRelabelled(acc: seq<Member>, ms: seq<Member>, m: Member)
    requires Sorted(acc + ms) && ms != [] && m.name == ms[0].name
    ensures Sorted(acc + [m] + ms[1..]) && Sorted(acc + [m])
  {
    hide KeyLess;
    var before, after := acc + ms, acc + [m] + ms[1..];
    assert forall k :: 0 <= k < |before| ==> after[k].name == before[k].name;
    assert forall k :: 0 <= k < |acc + [m]| ==> (acc + [m])[k] == after[k];
  }

  lemma {:induction false} NormMembersIsRetagged(acc: seq<Member>, ms: seq<Member>, name: Naming)
    requires Sorted(acc + ms) && forall k :: 0 <= k < |ms| ==> WellFormed(ms[k].item)
    requires Faithful(name) && (MemberNamesNulFree(ms) || Identity(name))
    ensures NormMembers(acc, ms, name) == acc + RetaggedMembers(ms)
    decreases WeightOfMembers(ms)
  {
    hide Faithful, Identity, Sorted, Store, Norm, Retagged, NulFree, WellFormed, NamesNulFree, Weight;
    if ms == [] {
      assert acc + RetaggedMembers(ms) == acc;
    } else {
      var m := Member(ms[0].name, Retagged(ms[0].item));
      NormIsRetagged(ms[0].item, name);
      NameKept(name, ms[0].name);
      SortedRelabelled(acc, ms, m);
      StoreLast(acc, m.name, m.item);
      NormMembersIsRetagged(acc + [m], ms[1..], name);
      assert acc + [m] + RetaggedMembers(ms[1..]) == acc + RetaggedMembers(ms);
    }
  }

  lemma UptoNulIsFaithful()
    ensures Faithful(UptoNul) && Faithful(Whole) && Identity(Whole)
  {
    forall s | NulFree(s) ensures UptoNul(s) == s { UptoNulOfNulFree(s); }
  }

  // ---------------------------------------------------------------- names with NUL are cut

  lemma {:induction false} RetaggedKeepsNames(v: Value)
    ensures NamesNulFree(Retagged(v)) <==> NamesNulFree(v)
    decreases Weight(v)
  {
    match v
    case Array(slots) => RetaggedSlotsKeepNames(slots);
    case Object(ms) => RetaggedMembersKeepNames(ms);
    case _ =>
  }

  lemma {:induction false} RetaggedSlotsKeepNames(slots: seq<Slot>)
    ensures SlotNamesNulFree(RetaggedSlots(slots)) <==> SlotNamesNulFree(slots)
    decreases WeightOfSlots(slots)
  {
    if slots != [] {
      RetaggedKeepsNames(SlotValue(slots[0]));
      RetaggedSlotsKeepNames(slots[1..]);
    }
  }

  lemma {:induction false} RetaggedMembersKeepNames(ms: seq<Member>)
    ensures MemberNamesNulFree(RetaggedMembers(ms)) <==> MemberNamesNulFree(ms)
    decreases WeightOfMembers(ms)
  {
    hide NulFree;
    if ms != [] {
      RetaggedKeepsNames(ms[0].item);
      RetaggedMembersKeepNames(ms[1..]);
    }
  }

  lemma {:induction false} StoreKeepsNulFree(ms: seq<Member>, name: bytes, v: Value)
    requires MemberNamesNulFree(ms) && NulFree(name) && NamesNulFree(v)
    ensures MemberNamesNulFree(Store(ms, name, v))
  {
    hide NulFree, KeyLess, NamesNulFree;
    if ms != [] && ms[0].name != name && !KeyLess(name, ms[0].name) {
      StoreKeepsNulFree(ms[1..], name, v);
    }
  }

  /** Read back from a styled text, no name has a NUL. */
  lemma {:induction false} NormIsNulFree(v: Value)
    ensures NamesNulFree(Norm(v, UptoNul))
    decreases Weight(v)
  {
    match v
    case Array(slots) => NormSlotsIsNulFree(slots);
    case Object(ms) => NormMembersIsNulFree([], ms);
    case _ =>
  }

  lemma {:induction false} NormSlotsIsNulFree(slots: seq<Slot>)
    ensures SlotNamesNulFree(NormSlots(slots, UptoNul))
    decreases WeightOfSlots(slots)
  {
    if slots != [] {
      NormIsNulFree(SlotValue(slots[0]));
      NormSlotsIsNulFree(slots[1..]);
    }
  }

  lemma {:induction false} NormMembersIsNulFree(acc: seq<Member>, ms: seq<Member>)
    requires MemberNamesNulFree(acc)
    ensures MemberNamesNulFree(NormMembers(acc, ms, UptoNul))
    decreases WeightOfMembers(ms)
  {
    hide NulFree, NamesNulFree, MemberNamesNulFree, Store, Norm;
    if ms != [] {
      NormIsNulFree(ms[0].item);
      StoreKeepsNulFree(acc, UptoNul(ms[0].name), Norm(ms[0].item, UptoNul));
      NormMembersIsNulFree(Store(acc, UptoNul(ms[0].name), Norm(ms[0].item, UptoNul)), ms[1..]);
    }
  }

  /** The round trip through StyledWriter gives back the value up to re-tagging exactly when
      no member name contains a NUL. */
  lemma {:induction false} StyledRoundTripIsExact(v: Value)
    requires WellFormed(v)
    ensures Norm(v, UptoNul) == Retagged(v) <==> NamesNulFree(v)
    ensures Norm(v, Whole) == Retagged(v)
  {
    UptoNulIsFaithful();
    NormIsRetagged(v, Whole);
    if NamesNulFree(v) { NormIsRetagged(v, UptoNul); }
    NormIsNulFree(v);
    RetaggedKeepsNames(v);
  }
}
