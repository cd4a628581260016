/** The values a reader gives: every accepted document is in normal form already, so
    reading, printing and reading again changes nothing. */
module JsonSettled {
  import opened Bytes
  import opened JsonValue
  import opened JsonLexer
  import opened JsonText
  import opened JsonDecode
  import opened JsonParse
  import opened JsonReadBack
  import opened JsonCodec
  import opened JsonOrder

  /** Integers are tagged as the reader tags them, arrays have no holes, strings have a
      pointer, and there are at most d levels. */
  predicate Settled(v: Value, d: int)
    decreases Weight(v)
  {
    && d >= 1
    && match v
       case Int(i) => i <= MAX_INT
       case UInt(u) => u > MAX_INT
       case NullString => false
       case Array(slots) => SettledSlots(slots, d - 1)
       case Object(ms) => SettledMembers(ms, d - 1)
       case _ => true
  }

  predicate SettledSlots(slots: seq<Slot>, d: int)
    decreases WeightOfSlots(slots)
  {
    slots == [] || (slots[0].Item? && Settled(slots[0].item, d) && SettledSlots(slots[1..], d))
  }

  predicate SettledMembers(ms: seq<Member>, d: int)
    decreases WeightOfMembers(ms)
  {
    ms == [] || (Settled(ms[0].item, d) && SettledMembers(ms[1..], d))
  }

  // ---------------------------------------------------------------- what the reader accepts

  lemma {:induction false} AppendSettled(slots: seq<Slot>, v: Value, d: int)
    requires SettledSlots(slots, d) && Settled(v, d)
    ensures SettledSlots(slots + [Item(v)], d)
  {
    hide Settled;
    if slots != [] {
      AppendSettled(slots[1..], v, d);
      assert (slots + [Item(v)])[1..] == slots[1..] + [Item(v)];
    }
  }

  lemma {:induction false} StoreSettled(ms: seq<Member>, name: bytes, v: Value, d: int)
    requires SettledMembers(ms, d) && Settled(v, d)
    ensures SettledMembers(Store(ms, name, v), d)
  {
    hide Settled, KeyLess;
    if ms != [] && ms[0].name != name && !KeyLess(name, ms[0].name) {
      StoreSettled(ms[1..], name, v, d);
      assert Store(ms, name, v)[1..] == Store(ms[1..], name, v);
    } else {
      assert Store(ms, name, v)[1..] == [] || Store(ms, name, v)[1..] == ms || Store(ms, name, v)[1..] == ms[1..];
    }
  }

  /** A value that was accepted `depth` calls deep fits into the levels that were left. */
  ghost predicate Fits(r: Result, depth: int) {
    r.status == Good ==> r.st.depth == depth && Settled(r.v, STACK_LIMIT - depth)
  }

  lemma ReadScalarFits(inp: Input, s: State, token: Token, cur: Value)
    requires token.start <= token.end <= |inp.doc| && s.depth <= STACK_LIMIT
    requires token.kind == StringToken ==> token.start + 2 <= token.end
    ensures Fits(ReadScalar(inp, s, token, cur), s.depth - 1)
  {
    hide DecodeString;
  }

  lemma {:induction false} LeaveFits(r: Result, depth: int)
    requires r.status == Good ==> r.st.depth == depth + 1 && Settled(r.v, STACK_LIMIT - depth)
    ensures Fits(Leave(r), depth)
  {
  }

  lemma {:induction false} ReadValueFits(inp: Input, st: State, cur: Value)
    requires st.pos <= |inp.doc|
    ensures Fits(ReadValue(inp, st, cur), st.depth)
    decreases |inp.doc| - st.pos, 3
  {
    hide FirstToken, ReadObject, ReadArray, ReadScalar, Leave, Settled;
    if st.depth < STACK_LIMIT {
      var token := FirstToken(inp, st.pos);
      var s := st.(pos := token.end, depth := st.depth + 1);
      if token.kind == ObjectBegin {
        ReadObjectFits(inp, s, [], []);
        LeaveFits(ReadObject(inp, s, [], []), st.depth);
      } else if token.kind == ArrayBegin {
        ReadArrayFits(inp, s);
        LeaveFits(ReadArray(inp, s), st.depth);
      } else {
        ReadScalarFits(inp, s, token, cur);
      }
    }
  }

  /** What readObject and readArray give: a container one level above its children. */
  ghost predicate FitsAbove(r: Result, depth: int) {
    r.status == Good ==> r.st.depth == depth && Settled(r.v, STACK_LIMIT - depth + 1)
  }

  lemma {:induction false} ContainersFit(slots: seq<Slot>, ms: seq<Member>, d: int)
    requires d >= 0
    ensures SettledSlots(slots, d) ==> Settled(Array(slots), d + 1)
    ensures SettledMembers(ms, d) ==> Settled(Object(ms), d + 1)
  {
  }

  lemma {:induction false} ReadObjectFits(inp: Input, st: State, name: bytes, ms: seq<Member>)
    requires st.pos <= |inp.doc| && st.depth <= STACK_LIMIT && SettledMembers(ms, STACK_LIMIT - st.depth)
    ensures FitsAbove(ReadObject(inp, st, name, ms), st.depth)
    decreases |inp.doc| - st.pos, 2
  {
    hide SkipComments, DecodeString, ReadMember, Recover, Settled, SettledMembers;
    ContainersFit([], ms, STACK_LIMIT - st.depth);
    var tokenName := SkipComments(inp.doc, st.pos);
    if tokenName.kind == StringToken {
      var text := DecodeString(inp.doc, tokenName.start, tokenName.end);
      if text.Text? { ReadMemberFits(inp, st.(pos := tokenName.end), text.s, ms); }
    }
  }

  lemma {:induction false} ReadMemberFits(inp: Input, st: State, name: bytes, ms: seq<Member>)
    requires st.pos <= |inp.doc| && st.depth <= STACK_LIMIT && SettledMembers(ms, STACK_LIMIT - st.depth)
    ensures FitsAbove(ReadMember(inp, st, name, ms), st.depth)
    decreases |inp.doc| - st.pos, 5
  {
    hide ReadObject, ReadValue, ReadToken, SkipComments, Recover, Settled, SettledMembers, Store, Find;
    var doc := inp.doc;
    var colon := ReadToken(doc, st.pos);
    if colon.kind == MemberSeparator {
      var s := st.(pos := colon.end);
      var child := ReadValue(inp, s, SlotValue(Find(ms, name)));
      if child.status == Good {
        ReadValueFits(inp, s, SlotValue(Find(ms, name)));
        var ms' := Store(ms, name, child.v);
        StoreSettled(ms, name, child.v, STACK_LIMIT - st.depth);
        ContainersFit([], ms', STACK_LIMIT - st.depth);
        var comma := ReadToken(doc, child.st.pos);
        var next := if comma.kind == CommentToken then SkipComments(doc, comma.end) else comma;
        ReadObjectFits(inp, child.st.(pos := next.end), name, ms');
      }
    }
  }

  lemma {:induction false} ReadArrayFits(inp: Input, st: State)
    requires st.pos <= |inp.doc| && st.depth <= STACK_LIMIT
    ensures FitsAbove(ReadArray(inp, st), st.depth)
    decreases |inp.doc| - st.pos, 5
  {
    hide ReadItems, ReadToken, SkipSpaces;
    var p := SkipSpaces(inp.doc, st.pos);
    if ByteAt(inp.doc, p) != RBRACKET { ReadItemsFits(inp, st.(pos := p), []); }
  }

  lemma {:induction false} ReadItemsFits(inp: Input, st: State, slots: seq<Slot>)
    requires st.pos <= |inp.doc| && st.depth <= STACK_LIMIT && SettledSlots(slots, STACK_LIMIT - st.depth)
    ensures FitsAbove(ReadItems(inp, st, slots), st.depth)
    decreases |inp.doc| - st.pos, 4
  {
    hide ReadValue, SkipComments, Recover, Settled, SettledSlots;
    var child := ReadValue(inp, st, Null);
    if child.status == Good {
      ReadValueFits(inp, st, Null);
      var slots' := slots + [Item(child.v)];
      AppendSettled(slots, child.v, STACK_LIMIT - st.depth);
      ContainersFit(slots', [], STACK_LIMIT - st.depth);
      var token := SkipComments(inp.doc, child.st.pos);
      if token.kind == ArraySeparator {
        ReadItemsFits(inp, child.st.(pos := token.end), slots');
      }
    }
  }

  /** Whatever the document: an accepted value is well formed, in normal form, and has at
      most 1000 levels. */
  lemma ParseSettles(inp: Input, cur: Value)
    requires Parse(inp, cur).status == Good
    ensures WellFormed(Parse(inp, cur).v) && Settled(Parse(inp, cur).v, STACK_LIMIT)
  {
    hide ReadValue, FirstToken, Settled, WellFormed;
    ReadValueFits(inp, State(0, [], 0), cur);
    ParseWellFormed(inp, cur);
  }

  // ---------------------------------------------------------------- settled values are their normal form

  lemma {:induction false} SettledFacts(v: Value, d: int)
    requires Settled(v, d)
    ensures Retagged(v) == v && Depth(v) <= d
    decreases Weight(v)
  {
    match v
    case Array(slots) => SettledSlotsFacts(slots, d - 1);
    case Object(ms) => SettledMembersFacts(ms, d - 1);
    case _ =>
  }

  lemma {:induction false} SettledSlotsFacts(slots: seq<Slot>, d: int)
    requires SettledSlots(slots, d) && d >= 0
    ensures RetaggedSlots(slots) == slots && SlotsDepth(slots) <= d
    decreases WeightOfSlots(slots)
  {
    hide Settled, Depth, Retagged;
    if slots != [] {
      SettledFacts(slots[0].item, d);
      SettledSlotsFacts(slots[1..], d);
    }
  }

  lemma {:induction false} SettledMembersFacts(ms: seq<Member>, d: int)
    requires SettledMembers(ms, d) && d >= 0
    ensures RetaggedMembers(ms) == ms && MembersDepth(ms) <= d
    decreases WeightOfMembers(ms)
  {
    hide Settled, Depth, Retagged;
    if ms != [] {
      SettledFacts(ms[0].item, d);
      SettledMembersFacts(ms[1..], d);
    }
  }

  /** Reading a document, printing the value with FastWriter and reading that again gives the
      same value, whatever the document looked like. */
  lemma ReadPrintRead(inp: Input, again: Input, cur: Value)
    requires Parse(inp, cur).status == Good && Printable(Parse(inp, cur).v)
    requires again.doc == Compact(Parse(inp, cur).v) + [LF] && again.strictRoot == inp.strictRoot
    ensures var r := Parse(again, cur);
      r.status == Good && r.st.errors == [] && r.v == Parse(inp, cur).v
  {
    hide Parse, Compact, Depth, Settled, Norm, Retagged, WellFormed, Printable;
    var v := Parse(inp, cur).v;
    ParseSettles(inp, cur);
    SettledFacts(v, STACK_LIMIT);
    StrictRootIsContainer(inp, cur);
    StyledRoundTripIsExact(v);
    CompactRoundTrip(again, cur, v);
  }

  // ---------------------------------------------------------------- exactly what survives

  /** The reader never gives a string without a pointer, so a value that comes back has none. */
  lemma {:induction false} SettledIsPrintable(v: Value, d: int)
    requires RealFree(v) && Settled(Retagged(v), d)
    ensures Printable(v)
    decreases Weight(v)
  {
    match v
    case Array(slots) => SettledSlotsPrintable(slots, d - 1);
    case Object(ms) => SettledMembersPrintable(ms, d - 1);
    case _ =>
  }

  lemma {:induction false} SettledSlotsPrintable(slots: seq<Slot>, d: int)
    requires (forall k :: 0 <= k < |slots| && slots[k].Item? ==> RealFree(slots[k].item))
    requires SettledSlots(RetaggedSlots(slots), d)
    ensures PrintableSlots(slots)
    decreases WeightOfSlots(slots)
  {
    hide Settled, Printable, Retagged, RealFree;
    if slots != [] {
      assert RetaggedSlots(slots)[1..] == RetaggedSlots(slots[1..]);
      NullIsRealFree();
      SettledIsPrintable(SlotValue(slots[0]), d);
      SettledSlotsPrintable(slots[1..], d);
    }
  }

  lemma NullIsRealFree()
    ensures RealFree(Null)
  {
  }

  lemma {:induction false} SettledMembersPrintable(ms: seq<Member>, d: int)
    requires (forall k :: 0 <= k < |ms| ==> RealFree(ms[k].item)) && SettledMembers(RetaggedMembers(ms), d)
    ensures PrintableMembers(ms)
    decreases WeightOfMembers(ms)
  {
    hide Settled, Printable, Retagged, RealFree;
    if ms != [] {
      assert RetaggedMembers(ms)[1..] == RetaggedMembers(ms[1..]);
      SettledIsPrintable(ms[0].item, d);
      SettledMembersPrintable(ms[1..], d);
    }
  }

  /** A real-free value survives FastWriter and Reader, up to re-tagged integers and filled
      holes, exactly when it has no string without a pointer and at most 1000 levels. */
  lemma {:induction false} CompactRoundTripExactly(inp: Input, cur: Value, v: Value)
    requires WellFormed(v) && RealFree(v) && inp.doc == Compact(v) + [LF] && !inp.strictRoot
    ensures (Parse(inp, cur).status == Good && Parse(inp, cur).v == Retagged(v)) <==>
      Printable(v) && Depth(v) <= STACK_LIMIT
  {
    hide Parse, Compact, Depth, Settled, Norm, Retagged, WellFormed, Printable, RealFree;
    var r := Parse(inp, cur);
    StyledRoundTripIsExact(v);
    if Printable(v) { CompactRoundTrip(inp, cur, v); }
    if r.status == Good && r.v == Retagged(v) {
      ParseSettles(inp, cur);
      SettledIsPrintable(v, STACK_LIMIT);
    }
  }

  /** The same for the styled text of a value without such strings: its member names must be
      free of NULs as well. */
  lemma {:induction false} StyledRoundTripExactly(inp: Input, cur: Value, v: Value)
    requires WellFormed(v) && Printable(v) && inp.doc == Styled(v, 0) + [LF] && !inp.strictRoot
    ensures (Parse(inp, cur).status == Good && Parse(inp, cur).v == Retagged(v)) <==>
      NamesNulFree(v) && Depth(v) <= STACK_LIMIT
  {
    hide Parse, Styled, Depth, Norm, Retagged, WellFormed, Printable, NamesNulFree;
    StyledRoundTripIsExact(v);
    StyledRoundTrip(inp, cur, v);
  }

  lemma StrictRootIsContainer(inp: Input, cur: Value)
    requires Parse(inp, cur).status == Good
    ensures inp.strictRoot ==> Parse(inp, cur).v.Array? || Parse(inp, cur).v.Object?
  {
    hide ReadValue, FirstToken;
  }

  // ---------------------------------------------------------------- what is read back

  lemma {:induction false} StorePrintable(ms: seq<Member>, name: bytes, v: Value)
    requires PrintableMembers(ms) && Printable(v)
    ensures PrintableMembers(Store(ms, name, v))
  {
    hide Printable, KeyLess;
    if ms != [] && ms[0].name != name && !KeyLess(name, ms[0].name) {
      StorePrintable(ms[1..], name, v);
      assert Store(ms, name, v)[1..] == Store(ms[1..], name, v);
    } else {
      assert Store(ms, name, v)[1..] == [] || Store(ms, name, v)[1..] == ms || Store(ms, name, v)[1..] == ms[1..];
    }
  }

  /** The normal form of a printable value is settled and printable. */
  lemma {:induction false} NormSettles(v: Value, name: Naming, d: int)
    requires Printable(v) && Depth(v) <= d
    ensures Settled(Norm(v, name), d) && Printable(Norm(v, name))
    decreases Weight(v)
  {
    match v
    case Array(slots) => NormSlotsSettle(slots, name, d - 1);
    case Object(ms) => NormMembersSettle([], ms, name, d - 1);
    case _ =>
  }

  lemma {:induction false} NormSlotsSettle(slots: seq<Slot>, name: Naming, d: int)
    requires PrintableSlots(slots) && SlotsDepth(slots) <= d
    ensures SettledSlots(NormSlots(slots, name), d) && PrintableSlots(NormSlots(slots, name))
    decreases WeightOfSlots(slots)
  {
    hide Settled, Depth, Printable, Norm;
    if slots != [] {
      NormSettles(SlotValue(slots[0]), name, d);
      NormSlotsSettle(slots[1..], name, d);
      assert NormSlots(slots, name)[1..] == NormSlots(slots[1..], name);
    }
  }

  lemma {:induction false} NormMembersSettle(acc: seq<Member>, ms: seq<Member>, name: Naming, d: int)
    requires PrintableMembers(ms) && MembersDepth(ms) <= d
    requires PrintableMembers(acc) && SettledMembers(acc, d)
    ensures SettledMembers(NormMembers(acc, ms, name), d) && PrintableMembers(NormMembers(acc, ms, name))
    decreases WeightOfMembers(ms)
  {
    hide Settled, Depth, Printable, Norm, Store;
    if ms != [] {
      var v := Norm(ms[0].item, name);
      NormSettles(ms[0].item, name, d);
      NormMembersFrom(acc, ms, name);
      StoreSettled(acc, name(ms[0].name), v, d);
      StorePrintable(acc, name(ms[0].name), v);
      NormMembersSettle(Store(acc, name(ms[0].name), v), ms[1..], name, d);
    }
  }

  lemma {:induction false} NormMembersFrom(acc: seq<Member>, ms: seq<Member>, name: Naming)
    requires ms != []
    ensures NormMembers(acc, ms, name) == NormMembers(Store(acc, name(ms[0].name), Norm(ms[0].item, name)), ms[1..], name)
  {
    hide Norm, Store;
  }

  // ---------------------------------------------------------------- a store seen through the text

  lemma {:induction false} StoreAbove(acc: seq<Member>, ms: seq<Member>, k: bytes, v: Value)
    requires forall j :: 0 <= j < |ms| ==> KeyLess(k, ms[j].name)
    ensures Store(acc + ms, k, v) == Store(acc, k, v) + ms
  {
    if acc == [] {
      assert [] + ms == ms;
      if ms != [] { KeyTrichotomy(k, ms[0].name); }
    } else {
      assert (acc + ms)[1..] == acc[1..] + ms;
      StoreAbove(acc[1..], ms, k, v);
    }
  }

  lemma {:induction false} StoreBehind(acc: seq<Member>, ms: seq<Member>, k: bytes, v: Value)
    requires forall j :: 0 <= j < |acc| ==> KeyLess(acc[j].name, k)
    ensures Store(acc + ms, k, v) == acc + Store(ms, k, v)
  {
    hide KeyLess;
    if acc == [] {
      assert [] + ms == ms && [] + Store(ms, k, v) == Store(ms, k, v);
    } else {
      KeyTrichotomy(acc[0].name, k);
      assert (acc + ms)[1..] == acc[1..] + ms;
      StoreBehind(acc[1..], ms, k, v);
      Reassembled(acc, Store(ms, k, v));
    }
  }

  lemma Reassembled(acc: seq<Member>, rest: seq<Member>)
    requires acc != []
    ensures [acc[0]] + (acc[1..] + rest) == acc + rest
  {
  }

  lemma {:induction false} StoreFirst(acc: seq<Member>, ms: seq<Member>, k: bytes, v: Value)
    requires ms != [] && ms[0].name == k
    ensures acc + Store(ms, k, v) == acc + [Member(k, v)] + ms[1..]
  {
  }

  /** A name cut at its first NUL does not come after the whole name. */
  lemma {:induction false} CutIsBelow(k: bytes, n: bytes)
    requires KeyLess(k, n)
    ensures KeyLess(UptoNul(k), n)
  {
    PrefixIsBelow(UptoNul(k), k, n);
  }

  lemma {:induction false} PrefixIsBelow(t: bytes, k: bytes, n: bytes)
    requires t <= k && KeyLess(k, n)
    ensures KeyLess(t, n)
  {
    KeyLessUnfold(k, n);
    KeyLessUnfold(t, n);
    if t != [] && k[0] == n[0] { PrefixIsBelow(t[1..], k[1..], n[1..]); }
  }

  /** Members as they are after reading back: sorted, settled, with names that have no NUL. */
  ghost predicate Kept(ms: seq<Member>) {
    Sorted(ms) && (forall k :: 0 <= k < |ms| ==> WellFormed(ms[k].item)) && MemberNamesNulFree(ms)
    && RetaggedMembers(ms) == ms
  }

  lemma KeptTail(ms: seq<Member>)
    requires ms != [] && Kept(ms)
    ensures Kept(ms[1..]) && NulFree(ms[0].name) && Norm(ms[0].item, UptoNul) == ms[0].item
    ensures NormMembers([], [], UptoNul) == []
  {
    hide Sorted, WellFormed, NamesNulFree, Retagged, NulFree, Norm;
    SortedTail(ms);
    UptoNulIsFaithful();
    assert RetaggedMembers(ms)[0] == Member(ms[0].name, Retagged(ms[0].item));
    assert RetaggedMembers(ms)[1..] == RetaggedMembers(ms[1..]);
    NormIsRetagged(ms[0].item, UptoNul);
  }

  lemma {:induction false} KeptAppended(acc: seq<Member>, ms: seq<Member>)
    requires Kept(ms) && Sorted(acc + ms)
    ensures NormMembers(acc, ms, UptoNul) == acc + ms
  {
    hide Sorted, WellFormed, MemberNamesNulFree, RetaggedMembers, NormMembers;
    UptoNulIsFaithful();
    NormMembersIsRetagged(acc, ms, UptoNul);
  }

  /** The members of a kept object after a store, printed and read back: the value is stored
      under the name up to its first NUL. */
  lemma {:induction false} NormOfStore(acc: seq<Member>, ms: seq<Member>, k: bytes, v: Value)
    requires Sorted(acc + ms) && Kept(ms)
    requires forall j :: 0 <= j < |acc| ==> KeyLess(acc[j].name, k)
    ensures NormMembers(acc, Store(ms, k, v), UptoNul) == Store(acc + ms, UptoNul(k), Norm(v, UptoNul))
    decreases |ms|
  {
    hide Sorted, KeyLess, Norm, Kept;
    var t, v' := UptoNul(k), Norm(v, UptoNul);
    if ms == [] {
      NormOne(acc, Member(k, v), []);
      assert acc + [] == acc;
    } else if ms[0].name == k {
      KeptTail(ms);
      UptoNulOfNulFree(k);
      NormOne(acc, Member(k, v), ms[1..]);
      OverwriteBehind(acc, ms, k, v');
    } else if KeyLess(k, ms[0].name) {
      NormOne(acc, Member(k, v), ms);
      InsertBefore(acc, ms, k, v');
    } else {
      KeptTail(ms);
      KeyTrichotomy(ms[0].name, k);
      UptoNulOfNulFree(ms[0].name);
      NormOne(acc, ms[0], Store(ms[1..], k, v));
      MoveFirst(acc, ms);
      NormOfStore(acc + [ms[0]], ms[1..], k, v);
    }
  }

  lemma {:induction false} NormOne(acc: seq<Member>, m: Member, rest: seq<Member>)
    ensures NormMembers(acc, [m] + rest, UptoNul)
         == NormMembers(Store(acc, UptoNul(m.name), Norm(m.item, UptoNul)), rest, UptoNul)
    ensures NormMembers(acc, [m], UptoNul) == Store(acc, UptoNul(m.name), Norm(m.item, UptoNul))
  {
    hide Norm, Store;
    assert ([m] + rest)[1..] == rest;
    NormMembersFrom(acc, [m], UptoNul);
  }

  lemma {:induction false} MoveFirst(acc: seq<Member>, ms: seq<Member>)
    requires ms != [] && Sorted(acc + ms)
    ensures acc + [ms[0]] + ms[1..] == acc + ms && Store(acc, ms[0].name, ms[0].item) == acc + [ms[0]]
  {
    SortedRelabelled(acc, ms, ms[0]);
    hide Sorted;
    StoreLast(acc, ms[0].name, ms[0].item);
  }

  lemma {:induction false} OverwriteBehind(acc: seq<Member>, ms: seq<Member>, k: bytes, v: Value)
    requires ms != [] && ms[0].name == k && Sorted(acc + ms) && Kept(ms)
    requires forall j :: 0 <= j < |acc| ==> KeyLess(acc[j].name, k)
    ensures NormMembers(Store(acc, k, v), ms[1..], UptoNul) == Store(acc + ms, k, v)
  {
    hide Sorted, KeyLess, Kept, Store, NormMembers;
    KeptTail(ms);
    SortedRelabelled(acc, ms, Member(k, v));
    StoreLast(acc, k, v);
    KeptAppended(acc + [Member(k, v)], ms[1..]);
    StoreBehind(acc, ms, k, v);
    StoreFirst(acc, ms, k, v);
  }

  lemma {:induction false} InsertBefore(acc: seq<Member>, ms: seq<Member>, k: bytes, v: Value)
    requires ms != [] && KeyLess(k, ms[0].name) && Sorted(acc + ms) && Kept(ms)
    ensures NormMembers(Store(acc, UptoNul(k), v), ms, UptoNul) == Store(acc + ms, UptoNul(k), v)
  {
    hide KeyLess;
    forall j | 0 <= j < |ms| ensures KeyLess(UptoNul(k), ms[j].name) {
      if j > 0 { KeyLessTransitive(k, ms[0].name, ms[j].name); }
      CutIsBelow(k, ms[j].name);
    }
    hide Sorted, Kept;
    StoreAbove(acc, ms, UptoNul(k), v);
    StoreSorted(acc + ms, UptoNul(k), v);
    KeptAppended(Store(acc, UptoNul(k), v), ms);
  }
}
