/** The reader and the writers put together. */
module JsonCodec {
  import opened Bytes
  import opened JsonValue
  import opened JsonLexer
  import opened JsonText
  import opened JsonDecode
  import opened JsonParse
  import opened JsonRoundTrip
  import opened JsonReadBack
  import opened JsonReader
  import opened JsonWriter

  // ---------------------------------------------------------------- parsed values are well formed

  ghost predicate WellFormedSlots(slots: seq<Slot>) {
    forall k :: 0 <= k < |slots| ==> slots[k].Item? && WellFormed(slots[k].item)
  }

  ghost predicate WellFormedMembers(ms: seq<Member>) {
    Sorted(ms) && forall k :: 0 <= k < |ms| ==> WellFormed(ms[k].item)
  }

  lemma WellFormedContainers(slots: seq<Slot>, ms: seq<Member>)
    ensures WellFormedSlots(slots) ==> WellFormed(Array(slots))
    ensures WellFormedMembers(ms) <==> WellFormed(Object(ms))
  {
  }

  lemma {:induction false} StoreWellFormed(ms: seq<Member>, name: bytes, v: Value)
    requires WellFormedMembers(ms) && WellFormed(v)
    ensures WellFormedMembers(Store(ms, name, v))
  {
    StoreSorted(ms, name, v);
    hide Store, Sorted, WellFormed;
    var r := Store(ms, name, v);
    forall k | 0 <= k < |r| ensures WellFormed(r[k].item) {
      assert r[k] in r;
    }
  }

  /** A value the reader accepts has sorted, distinct member names and no holes. */
  lemma {:induction false} ReadValueWellFormed(inp: Input, st: State, cur: Value)
    requires st.pos <= |inp.doc| && ReadValue(inp, st, cur).status == Good
    ensures WellFormed(ReadValue(inp, st, cur).v)
    decreases |inp.doc| - st.pos, 3
  {
    hide ReadObject, ReadArray, ReadScalar, FirstToken, WellFormed, WellFormedMembers;
    var token := FirstToken(inp, st.pos);
    var s := st.(pos := token.end, depth := st.depth + 1);
    if token.kind == ObjectBegin {
      NoMembersWellFormed();
      ReadObjectWellFormed(inp, s, [], []);
    } else if token.kind == ArrayBegin {
      ReadArrayWellFormed(inp, s);
    } else {
      ReadScalarWellFormed(inp, s, token, cur);
    }
  }

  lemma NoMembersWellFormed()
    ensures WellFormedMembers([])
  {
  }

  lemma ReadScalarWellFormed(inp: Input, s: State, token: Token, cur: Value)
    requires token.start <= token.end <= |inp.doc|
    requires token.kind == StringToken ==> token.start + 2 <= token.end
    ensures var r := ReadScalar(inp, s, token, cur); r.status == Good ==> WellFormed(r.v)
  {
    hide DecodeString;
  }

  lemma {:induction false} ReadObjectWellFormed(inp: Input, st: State, name: bytes, ms: seq<Member>)
    requires st.pos <= |inp.doc| && WellFormedMembers(ms)
    ensures var r := ReadObject(inp, st, name, ms);
      r.status == Good ==> WellFormed(r.v)
    decreases |inp.doc| - st.pos, 2
  {
    hide ReadMember, SkipComments, Recover, WellFormedMembers, WellFormed;
    WellFormedContainers([], ms);
    var tokenName := SkipComments(inp.doc, st.pos);
    if tokenName.kind == StringToken {
      var text := DecodeString(inp.doc, tokenName.start, tokenName.end);
      if text.Text? { ReadMemberWellFormed(inp, st.(pos := tokenName.end), text.s, ms); }
    }
  }

  lemma {:induction false} ReadMemberWellFormed(inp: Input, st: State, name: bytes, ms: seq<Member>)
    requires st.pos <= |inp.doc| && WellFormedMembers(ms)
    ensures var r := ReadMember(inp, st, name, ms);
      r.status == Good ==> WellFormed(r.v)
    decreases |inp.doc| - st.pos, 5
  {
    hide ReadObject, ReadValue, ReadToken, SkipComments, Recover, WellFormedMembers, WellFormed, Store;
    var doc := inp.doc;
    var colon := ReadToken(doc, st.pos);
    if colon.kind == MemberSeparator {
      var s := st.(pos := colon.end);
      var child := ReadValue(inp, s, SlotValue(Find(ms, name)));
      if child.status == Good {
        ReadValueWellFormed(inp, s, SlotValue(Find(ms, name)));
        var ms' := Store(ms, name, child.v);
        StoreWellFormed(ms, name, child.v);
        WellFormedContainers([], ms');
        var comma := ReadToken(doc, child.st.pos);
        var next := if comma.kind == CommentToken then SkipComments(doc, comma.end) else comma;
        ReadObjectWellFormed(inp, child.st.(pos := next.end), name, ms');
      }
    }
  }

  lemma {:induction false} ReadArrayWellFormed(inp: Input, st: State)
    requires st.pos <= |inp.doc|
    ensures var r := ReadArray(inp, st);
      r.status == Good ==> WellFormed(r.v)
    decreases |inp.doc| - st.pos, 5
  {
    hide ReadItems, ReadToken, SkipSpaces;
    var p := SkipSpaces(inp.doc, st.pos);
    if ByteAt(inp.doc, p) != RBRACKET { ReadItemsWellFormed(inp, st.(pos := p), []); }
  }

  lemma {:induction false} ReadItemsWellFormed(inp: Input, st: State, slots: seq<Slot>)
    requires st.pos <= |inp.doc| && WellFormedSlots(slots)
    ensures var r := ReadItems(inp, st, slots);
      r.status == Good ==> WellFormed(r.v)
    decreases |inp.doc| - st.pos, 4
  {
    hide ReadValue, SkipComments, Recover, WellFormed;
    var child := ReadValue(inp, st, Null);
    if child.status == Good {
      ReadValueWellFormed(inp, st, Null);
      var slots' := slots + [Item(child.v)];
      WellFormedContainers(slots', []);
      var token := SkipComments(inp.doc, child.st.pos);
      if token.kind == ArraySeparator {
        ReadItemsWellFormed(inp, child.st.(pos := token.end), slots');
      }
    }
  }

  lemma ParseWellFormed(inp: Input, cur: Value)
    requires Parse(inp, cur).status == Good
    ensures WellFormed(Parse(inp, cur).v)
  {
    hide ReadValue, FirstToken, WellFormed;
    ReadValueWellFormed(inp, State(0, [], 0), cur);
  }

  // ---------------------------------------------------------------- the two writers agree

  /** All tokens of a document up to the end of the stream. */
  function AllTokens(doc: bytes, p: nat): seq<Lexeme>
    requires p <= |doc|
    decreases |doc| - p
  {
    var t := ReadToken(doc, p);
    if t.kind == EndOfStream then [] else [Lexeme(t.kind, doc[t.start..t.end])] + AllTokens(doc, t.end)
  }

  predicate NoEnd(toks: seq<Lexeme>) {
    forall l :: l in toks ==> l.kind != EndOfStream
  }

  lemma NoEndTail(toks: seq<Lexeme>)
    requires toks != [] && NoEnd(toks)
    ensures toks[0].kind != EndOfStream && NoEnd(toks[1..])
  {
  }

  lemma HeadTail(toks: seq<Lexeme>, rest: seq<Lexeme>)
    requires toks != []
    ensures [toks[0]] + (toks[1..] + rest) == toks + rest
  {
  }

  lemma {:induction false} ReadsAreFirst(doc: bytes, p: nat, toks: seq<Lexeme>)
    requires p <= |doc| && Reads(doc, p, toks) && NoEnd(toks)
    ensures AllTokens(doc, p) == toks + AllTokens(doc, After(doc, p, |toks|))
    decreases |toks|
  {
    hide ReadToken, NoEnd;
    if toks == [] {
      assert toks + AllTokens(doc, p) == AllTokens(doc, p);
    } else {
      var t := ReadToken(doc, p);
      NoEndTail(toks);
      assert toks[0] == Lexeme(t.kind, doc[t.start..t.end]);
      ReadsAreFirst(doc, t.end, toks[1..]);
      HeadTail(toks, AllTokens(doc, After(doc, t.end, |toks| - 1)));
    }
  }

  lemma {:induction false} TokensAreNoEnd(v: Value, name: Naming)
    ensures forall l :: l in Tokens(v, name) ==> l.kind != EndOfStream
    decreases Weight(v)
  {
    hide Flat, Quoted;
    match v
    case Array(slots) => SlotTokensAreNoEnd(slots, name);
    case Object(ms) => MemberTokensAreNoEnd(ms, name);
    case _ =>
  }

  lemma {:induction false} SlotTokensAreNoEnd(slots: seq<Slot>, name: Naming)
    ensures forall l :: l in SlotTokens(slots, name) ==> l.kind != EndOfStream
    decreases WeightOfSlots(slots)
  {
    hide Tokens;
    if slots != [] {
      TokensAreNoEnd(SlotValue(slots[0]), name);
      SlotTokensAreNoEnd(slots[1..], name);
    }
  }

  lemma {:induction false} MemberTokensAreNoEnd(ms: seq<Member>, name: Naming)
    ensures forall l :: l in MemberTokens(ms, name) ==> l.kind != EndOfStream
    decreases WeightOfMembers(ms)
  {
    hide Tokens, Quoted;
    if ms != [] {
      TokensAreNoEnd(ms[0].item, name);
      MemberTokensAreNoEnd(ms[1..], name);
    }
  }

  /** A text that spells v and a line feed behind it has exactly the tokens of v. */
  lemma {:induction false} AllTokensOf(doc: bytes, v: Value, name: Naming)
    requires |doc| > 0 && doc[|doc| - 1] == LF && Spells(doc, 0, Tokens(v, name), |doc| - 1)
    ensures AllTokens(doc, 0) == Tokens(v, name)
  {
    TokensAreNoEnd(v, name);
    hide Tokens, Reads, After;
    var toks := Tokens(v, name);
    ReadsAreFirst(doc, 0, toks);
    assert ReadToken(doc, |doc| - 1).kind == EndOfStream;
    assert toks + [] == toks;
  }

  /** The tokens of a value do not depend on the naming when it keeps the names. */
  lemma {:induction false} SameTokens(v: Value)
    requires NamesNulFree(v)
    ensures Tokens(v, UptoNul) == Tokens(v, Whole)
    decreases Weight(v)
  {
    hide Flat, Quoted;
    match v
    case Array(slots) => SameSlotTokens(slots);
    case Object(ms) => SameMemberTokens(ms);
    case _ =>
  }

  lemma {:induction false} SameSlotTokens(slots: seq<Slot>)
    requires SlotNamesNulFree(slots)
    ensures SlotTokens(slots, UptoNul) == SlotTokens(slots, Whole)
    decreases WeightOfSlots(slots)
  {
    hide Tokens;
    if slots != [] {
      SameTokens(SlotValue(slots[0]));
      SameSlotTokens(slots[1..]);
    }
  }

  lemma {:induction false} SameMemberTokens(ms: seq<Member>)
    requires MemberNamesNulFree(ms)
    ensures MemberTokens(ms, UptoNul) == MemberTokens(ms, Whole)
    decreases WeightOfMembers(ms)
  {
    hide Tokens, Quoted;
    if ms != [] {
      SameTokens(ms[0].item);
      SameMemberTokens(ms[1..]);
      UptoNulOfNulFree(ms[0].name);
    }
  }

  /** The documents of the two writers have the same token sequence when no name has a NUL. */
  lemma {:induction false} WritersAgree(v: Value)
    requires Printable(v) && NamesNulFree(v)
    ensures AllTokens(Styled(v, 0) + [LF], 0) == AllTokens(Compact(v) + [LF], 0) == Tokens(v, Whole)
  {
    hide Tokens, Styled, Compact, AllTokens, Spells;
    var s, c := Styled(v, 0) + [LF], Compact(v) + [LF];
    AtConcat(s, 0, Styled(v, 0), [LF]);
    AtConcat(c, 0, Compact(v), [LF]);
    StyledSpells(v, 0, s, 0);
    CompactSpells(v, c, 0);
    SameTokens(v);
    AllTokensOf(s, v, UptoNul);
    AllTokensOf(c, v, Whole);
  }

  // ---------------------------------------------------------------- the objects at work

  /** Value::toStyledString. */
  method ToStyledString(v: Value) returns (text: bytes)
    requires WellFormed(v) && Printable(v)
    ensures text == Styled(v, 0) + [LF]
  {
    var writer := new StyledWriter();
    text := writer.Write(v);
  }

  /** Print with StyledWriter, read with Reader: the value comes back up to re-tagged integers,
      filled holes and names cut at their first NUL, unless it is nested too deep. */
  method StyledThenRead(v: Value, isDouble: bytes -> bool) returns (status: Status, back: Value)
    requires WellFormed(v) && Printable(v)
    ensures Depth(v) <= STACK_LIMIT ==> status == Good && back == Norm(v, UptoNul)
    ensures Depth(v) <= STACK_LIMIT && NamesNulFree(v) ==> back == Retagged(v)
    ensures Depth(v) > STACK_LIMIT ==> status == Threw
  {
    hide Parse, Norm, Retagged, Styled, Depth, NamesNulFree, WellFormed, Printable;
    var text := ToStyledString(v);
    var reader := new Reader(true, false, isDouble);
    status, back := reader.Parse(text, Null);
    StyledRoundTrip(reader.Inp(), Null, v);
    StyledRoundTripIsExact(v);
  }

  /** The same with FastWriter, which keeps every name. */
  method CompactThenRead(v: Value, isDouble: bytes -> bool) returns (status: Status, back: Value)
    requires WellFormed(v) && Printable(v)
    ensures Depth(v) <= STACK_LIMIT ==> status == Good && back == Retagged(v)
    ensures Depth(v) > STACK_LIMIT ==> status == Threw
  {
    hide Parse, Norm, Retagged, Compact, Depth, WellFormed, Printable;
    var writer := new FastWriter();
    var text := writer.Write(v);
    var reader := new Reader(true, false, isDouble);
    status, back := reader.Parse(text, Null);
    CompactRoundTrip(reader.Inp(), Null, v);
    StyledRoundTripIsExact(v);
  }
}
