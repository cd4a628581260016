/** Documents the reader refuses, and the error it reports for them. */
module JsonRefused {
  import opened Bytes
  import opened JsonValue
  import opened JsonLexer
  import opened JsonText
  import opened JsonDecode
  import opened JsonStrings
  import opened JsonParse
  import opened JsonReadBack
  import opened JsonGrammar
  import opened JsonAccepted

  // ---------------------------------------------------------------- what is wrong with a document

  /** Where the first fault of a value is: in a scalar, or in a container behind the items or members
      that end at `from`. */
  datatype Fault =
    | NoValue(at: nat)
    | NoNumber(at: nat, point: nat, exponent: nat, end: nat)
    | NoText(at: nat, chars: seq<Char>)
    | InArray(start: nat, items: seq<Entry>, from: nat, item: ItemFault)
    | InObject(start: nat, members: seq<Named>, from: nat, member: MemberFault)

  datatype ItemFault = BadItem(inner: Fault) | NoComma(tree: Tree, at: nat)

  datatype MemberFault =
    | NoName(at: nat)
    | BadName(at: nat, chars: seq<Char>)
    | NoColon(name: nat, key: seq<Char>, at: nat)
    | BadValue(name: nat, key: seq<Char>, colon: nat, inner: Fault)
    | NoSeparator(m: Named, at: nat)

  /** The error with this token. */
  predicate Reported(doc: bytes, at: nat, kind: ErrorKind, e: ErrorInfo) {
    at <= |doc| && ReadToken(doc, at).start == at && e == ErrorInfo(kind, ReadToken(doc, at), Nowhere)
  }

  /** The items stand from p on, each with its comma, up to q. */
  ghost predicate ItemsBefore(inp: Input, p: nat, items: seq<Entry>, q: nat)
    decreases |items|
  {
    if items == [] then p == q
    else
      var e := items[0];
      && Lead(inp, p, e.item.start) && Stands(inp, e.item) && Gap(inp.doc, e.item.end, e.mark)
      && ByteIs(inp.doc, e.mark, 44) && ItemsBefore(inp, e.mark + 1, items[1..], q)
  }

  /** The members stand from p on, each with its separator, up to q. */
  ghost predicate MembersBefore(inp: Input, p: nat, ms: seq<Named>, q: nat)
    decreases |ms|
  {
    if ms == [] then p == q
    else
      && MemberStands(inp, p, ms[0]) && Separated(inp.doc, ms[0].item.end, ms[0].next)
      && MembersBefore(inp, ms[0].next, ms[1..], q)
  }

  function LastKey(last: seq<Char>, ms: seq<Named>): seq<Char>
    decreases |ms|
  {
    if ms == [] then last else LastKey(ms[0].key, ms[1..])
  }

  predicate IsHex(b: byte) {
    48 <= b <= 57 || 65 <= b <= 70 || 97 <= b <= 102
  }

  /** The first byte from p on that is no hexadecimal digit stands in front of `pos`. */
  predicate HexUntil(doc: bytes, p: nat, pos: nat) {
    p < pos <= p + 4 && pos <= |doc| && (forall k :: p <= k < pos - 1 ==> IsHex(doc[k])) && !IsHex(doc[pos - 1])
  }

  /** The escape at k is none, in a string that ends at `end`. */
  predicate EscapeFails(doc: bytes, k: nat, end: nat, kind: ErrorKind, pos: nat) {
    && k + 2 <= end <= |doc| && doc[k] == 92
    && match kind
       case BadEscape => doc[k + 1] !in {34, 47, 92, 98, 102, 110, 114, 116, 117} && pos == k + 2
       case FourDigitsExpected => doc[k + 1] == 117 && end < k + 6 && pos == k + 2
       case HexDigitExpected =>
         doc[k + 1] == 117 && k + 6 <= end
         && (HexUntil(doc, k + 2, pos)
             || (IsHighAt(doc, k, end) && k + 12 <= end && doc[k + 6] == 92 && doc[k + 7] == 117
                 && HexUntil(doc, k + 8, pos)))
       case SurrogateTooShort => IsHighAt(doc, k, end) && end < k + 12 && pos == k + 6
       case SecondSurrogateExpected =>
         IsHighAt(doc, k, end) && k + 12 <= end
         && if doc[k + 6] != 92 then pos == k + 7 else doc[k + 7] != 117 && pos == k + 8
       case _ => false
  }

  /** \uD800 to \uDBFF at k. */
  predicate IsHighAt(doc: bytes, k: nat, end: nat) {
    && k + 6 <= end <= |doc| && doc[k] == 92 && doc[k + 1] == 117
    && doc[k + 2] in {68, 100} && doc[k + 3] in {56, 57, 65, 66, 97, 98} && IsHex(doc[k + 4]) && IsHex(doc[k + 5])
  }

  /** A string token with these characters and then an escape that is none. */
  ghost predicate TextFails(doc: bytes, at: nat, cs: seq<Char>, e: ErrorInfo) {
    && at <= |doc| && ReadToken(doc, at).start == at && ReadToken(doc, at).kind == StringToken
    && e.token == ReadToken(doc, at) && e.extra.Somewhere?
    && AreChars(cs) && Paired(cs) && At(doc, at + 1, CharsText(cs))
    && EscapeFails(doc, at + 1 + |CharsText(cs)|, e.token.end - 1, e.kind, e.extra.pos)
  }

  /** Reading a value at p fails with this error. */
  ghost predicate Fails(inp: Input, p: nat, f: Fault, e: ErrorInfo)
    decreases f
  {
    match f
    case NoValue(at) =>
      && Lead(inp, p, at) && Reported(inp.doc, at, ValueExpected, e)
      && e.token.kind !in {ObjectBegin, ArrayBegin, StringToken, NumberToken, TrueToken, FalseToken, NullToken}
      && (inp.allowComments ==> e.token.kind != CommentToken)
    case NoNumber(at, a, b, end) =>
      && Lead(inp, p, at) && IsNumber(inp.doc, at, a, b, end) && Reported(inp.doc, at, NotANumber, e) && end <= |inp.doc|
      && at <= end && !IsWord(inp.doc[at..end]) && !inp.isDouble(inp.doc[at..end])
    case NoText(at, cs) => Lead(inp, p, at) && TextFails(inp.doc, at, cs, e)
    case InArray(start, items, from, item) =>
      && Lead(inp, p, start) && ByteIs(inp.doc, start, 91) && ItemsBefore(inp, start + 1, items, from)
      && from <= |inp.doc| && (items == [] ==> ReadToken(inp.doc, from).kind != ArrayEnd)
      && ItemFails(inp, from, item, e)
    case InObject(start, ms, from, member) =>
      && Lead(inp, p, start) && ByteIs(inp.doc, start, 123) && MembersBefore(inp, start + 1, ms, from)
      && MemberFails(inp, from, LastKey([], ms), member, e)
  }

  /** An item with a fault in it, or with neither a comma nor a bracket behind it. */
  ghost predicate ItemFails(inp: Input, p: nat, f: ItemFault, e: ErrorInfo)
    decreases f
  {
    match f
    case BadItem(inner) => Fails(inp, p, inner, e)
    case NoComma(t, at) =>
      && Lead(inp, p, t.start) && Stands(inp, t) && Gap(inp.doc, t.end, at)
      && Reported(inp.doc, at, MissingCommaOrBracket, e) && e.token.kind !in {ArraySeparator, ArrayEnd, CommentToken}
  }

  /** No name, a name that is no string, no colon behind the name, a value with a fault in it, or neither
      a comma, a brace nor a comment behind the value. */
  ghost predicate MemberFails(inp: Input, p: nat, last: seq<Char>, f: MemberFault, e: ErrorInfo)
    decreases f
  {
    match f
    case NoName(at) =>
      && Gap(inp.doc, p, at) && Reported(inp.doc, at, MissingBraceOrName, e)
      && e.token.kind !in {StringToken, CommentToken} && (e.token.kind == ObjectEnd ==> last != [])
    case BadName(at, cs) => Gap(inp.doc, p, at) && TextFails(inp.doc, at, cs, e)
    case NoColon(name, key, at) =>
      && Gap(inp.doc, p, name) && StringAt(inp.doc, name, key, name + |StringText(key)|)
      && White(inp.doc, name + |StringText(key)|, at) && Reported(inp.doc, at, MissingColon, e)
      && e.token.kind != MemberSeparator
    case BadValue(name, key, colon, inner) =>
      && Gap(inp.doc, p, name) && StringAt(inp.doc, name, key, name + |StringText(key)|)
      && White(inp.doc, name + |StringText(key)|, colon) && ByteIs(inp.doc, colon, 58)
      && Fails(inp, colon + 1, inner, e)
    case NoSeparator(m, at) =>
      && MemberStands(inp, p, m) && White(inp.doc, m.item.end, at)
      && Reported(inp.doc, at, MissingCommaOrBrace, e)
      && e.token.kind !in {ObjectEnd, ArraySeparator, CommentToken}
  }

  /** How many levels are entered up to the fault. */
  function FaultHeight(f: Fault): (n: nat)
    ensures n >= 1
    decreases f
  {
    match f
    case InArray(_, items, _, item) => 1 + Max(ItemsHeight(items), ItemHeight(item))
    case InObject(_, ms, _, member) => 1 + Max(MembersHeight(ms), MemberHeight(member))
    case _ => 1
  }

  function ItemHeight(f: ItemFault): nat
    decreases f
  {
    match f
    case BadItem(inner) => FaultHeight(inner)
    case NoComma(t, _) => Height(t)
  }

  function MemberHeight(f: MemberFault): nat
    decreases f
  {
    match f
    case BadValue(_, _, _, inner) => FaultHeight(inner)
    case NoSeparator(m, _) => Height(m.item)
    case _ => 0
  }

  // ---------------------------------------------------------------- strings

  lemma HexExactly(b: byte)
    ensures IsHex(b) <==> HexDigitValue(b) >= 0
  {
  }

  lemma {:induction false} HexStops(doc: bytes, p: nat, n: nat, unicode: nat, pos: nat)
    requires p < pos <= p + n && p + n <= |doc|
    requires (forall k :: p <= k < pos - 1 ==> IsHex(doc[k])) && !IsHex(doc[pos - 1])
    ensures HexLoop(doc, p, n, unicode) == HexError(HexDigitExpected, pos)
    decreases n
  {
    hide HexDigitValue, IsHex;
    HexExactly(doc[p]);
    if p + 1 < pos { HexStops(doc, p + 1, n - 1, unicode * 16 + HexDigitValue(doc[p]), pos); }
  }

  lemma {:induction false} EscapeStops(doc: bytes, p: nat, end: nat, pos: nat)
    requires p + 4 <= end <= |doc| && HexUntil(doc, p, pos)
    ensures DecodeEscape(doc, p, end) == HexError(HexDigitExpected, pos)
  {
    hide HexLoop, IsHex;
    HexStops(doc, p, 4, 0, pos);
  }

  /** A high surrogate is one. */
  lemma {:induction false} HighDecodes(doc: bytes, k: nat, end: nat)
    requires IsHighAt(doc, k, end)
    ensures var u := DecodeEscape(doc, k + 2, end);
      u.HexValue? && u.pos == k + 6 && IsHighSurrogate(u.unicode)
  {
    hide HexLoop, DecodeEscape;
    HexExactly(doc[k + 4]);
    HexExactly(doc[k + 5]);
    var a, b, c, d := HexDigitValue(doc[k + 2]), HexDigitValue(doc[k + 3]), HexDigitValue(doc[k + 4]), HexDigitValue(doc[k + 5]);
    assert a == 13 && 8 <= b <= 11;
    FourHexDigits(doc, k + 2, end, a, b, c, d);
  }

  lemma {:induction false} PointFails(doc: bytes, k: nat, end: nat, kind: ErrorKind, pos: nat)
    requires EscapeFails(doc, k, end, kind, pos) && kind != BadEscape
    ensures doc[k + 1] == 117 && DecodeCodePoint(doc, k + 2, end) == HexError(kind, pos)
  {
    hide HexLoop, DecodeEscape, IsHighAt, HexUntil, IsHighSurrogate;
    if kind == FourDigitsExpected {
      assert DecodeEscape(doc, k + 2, end) == HexError(FourDigitsExpected, k + 2) by { TooShort(doc, k + 2, end); }
    } else if kind == HexDigitExpected && HexUntil(doc, k + 2, pos) {
      EscapeStops(doc, k + 2, end, pos);
    } else {
      HighLetters(doc, k, end);
      HighDecodes(doc, k, end);
      if kind == HexDigitExpected { EscapeStops(doc, k + 8, end, pos); }
    }
  }

  lemma TooShort(doc: bytes, p: nat, end: nat)
    requires p <= end <= |doc| && end < p + 4
    ensures DecodeEscape(doc, p, end) == HexError(FourDigitsExpected, p)
  {
  }

  lemma HighLetters(doc: bytes, k: nat, end: nat)
    requires IsHighAt(doc, k, end)
    ensures k + 6 <= end <= |doc| && doc[k + 1] == 117
  {
  }

  lemma {:induction false} LoopFails(doc: bytes, k: nat, end: nat, acc: bytes, kind: ErrorKind, pos: nat)
    requires EscapeFails(doc, k, end, kind, pos)
    ensures DecodeLoop(doc, k, end, acc) == BadText(kind, pos)
  {
    hide DecodeCodePoint, HexUntil, IsHighAt, Utf8;
    if kind != BadEscape { PointFails(doc, k, end, kind, pos); }
  }

  /** Characters in front of something else. */
  lemma {:induction false} DecodeSome(doc: bytes, p: nat, end: nat, acc: bytes, cs: seq<Char>) returns (acc': bytes)
    requires AreChars(cs) && Paired(cs) && At(doc, p, CharsText(cs)) && p + |CharsText(cs)| <= end <= |doc|
    ensures DecodeLoop(doc, p, end, acc) == DecodeLoop(doc, p + |CharsText(cs)|, end, acc')
    decreases |cs|
  {
    hide IsChar, At, DecodeLoop, CharText, Utf8, UnitValue, IsHigh;
    if cs == [] {
      acc' := acc;
    } else {
      var c, rest := cs[0], cs[1..];
      AtConcat(doc, p, CharText(c), CharsText(rest));
      if !IsHigh(c) {
        DecodeLowChar(doc, p, end, acc, c);
        acc' := DecodeSome(doc, p + |CharText(c)|, end, acc + CharMeaning(c), rest);
      } else {
        var d := cs[1];
        assert rest[0] == d && rest[1..] == cs[2..];
        HighIsUnit(c);
        UnitIsSix(d);
        AtConcat(doc, p + 6, CharText(d), CharsText(rest[1..]));
        HighHasDigits(c, d);
        DecodePair(doc, p, end, acc, c, d);
        var u := 0x10000 + UnitValue(c.digits) % 0x400 * 0x400 + UnitValue(d.digits) % 0x400;
        acc' := DecodeSome(doc, p + 12, end, acc + Utf8(u), cs[2..]);
      }
    }
  }

  lemma {:induction false} TextIsBad(doc: bytes, at: nat, cs: seq<Char>, e: ErrorInfo)
    requires TextFails(doc, at, cs, e)
    ensures e.token == ReadToken(doc, at) && e.token.start == at && e.token.kind == StringToken && e.extra.Somewhere?
    ensures DecodeString(doc, at, e.token.end) == BadText(e.kind, e.extra.pos)
  {
    hide ReadToken, DecodeLoop, CharsText, AreChars, Paired, EscapeFails, At;
    var end := e.token.end - 1;
    FailBounds(doc, at + 1 + |CharsText(cs)|, end, e.kind, e.extra.pos);
    var acc := DecodeSome(doc, at + 1, end, [], cs);
    LoopFails(doc, at + 1 + |CharsText(cs)|, end, acc, e.kind, e.extra.pos);
  }

  lemma FailBounds(doc: bytes, k: nat, end: nat, kind: ErrorKind, pos: nat)
    requires EscapeFails(doc, k, end, kind, pos)
    ensures k <= end <= |doc|
  {
  }

  // ---------------------------------------------------------------- up to the fault

  lemma {:induction false} ItemsUpTo(inp: Input, st: State, acc: seq<Slot>, items: seq<Entry>, q: nat)
    requires st.pos <= |inp.doc| && ItemsBefore(inp, st.pos, items, q) && st.depth + ItemsHeight(items) <= STACK_LIMIT
    ensures q <= |inp.doc|
    ensures ReadItems(inp, st, acc) == ReadItems(inp, st.(pos := q), acc + Slots(inp.doc, items))
    decreases |items|
  {
    hide *;
    FirstBefore(inp, st.pos, items, q);
    if items == [] {
      NoSlots(inp.doc, acc);
    } else {
      var doc, e, rest := inp.doc, items[0], items[1..];
      var v := TreeValue(doc, e.item);
      SlotsOfFirst(doc, items);
      StandsReads(inp, st, Null, e.item);
      ReachedAt(ReadValue(inp, st, Null), st, Height(e.item), ItemsHeight(rest), e.item.end, v);
      MarkToken(doc, e.item.end, e.mark, 44);
      ItemStep(inp, st, acc, ReadValue(inp, st, Null), SkipComments(doc, e.item.end));
      ItemsUpTo(inp, st.(pos := e.mark + 1), acc + [Item(v)], rest, q);
      AppendStep(acc, Item(v), Slots(doc, rest));
    }
  }

  lemma {:induction false} NoSlots(doc: bytes, acc: seq<Slot>)
    ensures acc + Slots(doc, []) == acc
  {
  }

  lemma {:induction false} FirstBefore(inp: Input, p: nat, items: seq<Entry>, q: nat)
    requires ItemsBefore(inp, p, items, q)
    ensures items == [] ==> p == q
    ensures items != [] ==>
      var e := items[0];
      && Lead(inp, p, e.item.start) && Stands(inp, e.item) && Gap(inp.doc, e.item.end, e.mark)
      && ByteIs(inp.doc, e.mark, 44) && ItemsBefore(inp, e.mark + 1, items[1..], q)
  {
    hide Lead, Stands, Gap;
  }

  lemma ReachedAt(r: Result, st: State, h: nat, g: nat, q: nat, v: Value)
    requires Reaches(r, st, h, q, v) && st.depth + Max(h, g) <= STACK_LIMIT
    ensures r == Result(Good, st.(pos := q), v) && st.depth + g <= STACK_LIMIT && st.depth <= STACK_LIMIT
  {
  }

  lemma ReachedEnd(r: Result, st: State, h: nat, q: nat, v: Value)
    requires Reaches(r, st, h, q, v) && st.depth + h <= STACK_LIMIT
    ensures r == Result(Good, st.(pos := q), v)
  {
  }

  lemma {:induction false} FirstMemberBefore(inp: Input, p: nat, last: seq<Char>, ms: seq<Named>, q: nat)
    requires MembersBefore(inp, p, ms, q)
    ensures ms == [] ==> p == q && LastKey(last, ms) == last
    ensures ms != [] ==>
      && MemberStands(inp, p, ms[0]) && Separated(inp.doc, ms[0].item.end, ms[0].next)
      && MembersBefore(inp, ms[0].next, ms[1..], q) && LastKey(last, ms) == LastKey(ms[0].key, ms[1..])
  {
    hide MemberStands, Separated;
  }

  lemma {:induction false} MembersUpTo(
      inp: Input, st: State, last: seq<Char>, acc: seq<Member>, ms: seq<Named>, q: nat)
    returns (acc': seq<Member>)
    requires st.pos <= |inp.doc| && MembersBefore(inp, st.pos, ms, q) && st.depth + MembersHeight(ms) <= STACK_LIMIT
    ensures q <= |inp.doc|
    ensures ReadObject(inp, st, TextOf(last), acc) == ReadObject(inp, st.(pos := q), TextOf(LastKey(last, ms)), acc')
    decreases |ms|
  {
    hide *;
    FirstMemberBefore(inp, st.pos, last, ms, q);
    if ms == [] {
      acc' := acc;
    } else {
      var doc, m := inp.doc, ms[0];
      FieldsOfFirst(doc, acc, ms);
      PartsOfMember(inp, st.pos, m);
      var k := NameReads(inp, st, last, acc, m);
      var s := st.(pos := k);
      var u := st.(pos := m.colon + 1);
      var cur := SlotValue(Find(acc, TextOf(m.key)));
      ColonToken(doc, k, m.colon + 1);
      StandsReads(inp, u, cur, m.item);
      ReachedAt(ReadValue(inp, u, cur), u, Height(m.item), MembersHeight(ms[1..]), m.item.end, TreeValue(doc, m.item));
      BehindMember(inp, s, TextOf(m.key), acc, u, ReadValue(inp, u, cur));
      SeparatedToken(doc, m.item.end, m.next);
      acc' := MembersUpTo(inp, st.(pos := m.next), m.key, Store(acc, TextOf(m.key), TreeValue(doc, m.item)), ms[1..], q);
    }
  }

  /** The name of a member is read. */
  lemma {:induction false} NameReads(inp: Input, st: State, last: seq<Char>, acc: seq<Member>, m: Named) returns (k: nat)
    requires st.pos <= |inp.doc| && Gap(inp.doc, st.pos, m.name)
    requires AreChars(m.key) && Paired(m.key) && At(inp.doc, m.name, StringText(m.key))
    ensures k == m.name + |StringText(m.key)| <= |inp.doc|
    ensures ReadObject(inp, st, TextOf(last), acc) == ReadMember(inp, st.(pos := k), TextOf(m.key), acc)
  {
    hide *;
    k := m.name + |StringText(m.key)|;
    GapIsSkipped(inp.doc, st.pos, m.name);
    StringReads(inp.doc, m.name, m.key);
    NoComment(inp.doc, m.name);
    NameOf(m.key);
    NameStep(inp, st, TextOf(last), acc, SkipComments(inp.doc, st.pos));
  }

  // ---------------------------------------------------------------- at the fault

  /** The call fails with one more error. */
  predicate Refuses(r: Result, st: State, e: ErrorInfo) {
    r.status == Bad && r.st.errors == st.errors + [e]
  }

  lemma {:induction false} ItemsFail(inp: Input, st: State, acc: seq<Slot>)
    requires st.pos <= |inp.doc|
    ensures var child, r := ReadValue(inp, st, Null), ReadItems(inp, st, acc);
      && (child.status == Bad ==> r.status == Bad && r.st.errors == child.st.errors && r.v.Array?)
      && var t := SkipComments(inp.doc, child.st.pos);
         child.status == Good && t.kind !in {ArraySeparator, ArrayEnd} ==>
           Refuses(r, child.st, ErrorInfo(MissingCommaOrBracket, t, Nowhere)) && r.v.Array?
  {
    hide ReadValue, SkipComments, Recover;
  }

  lemma {:induction false} ObjectFails(inp: Input, st: State, last: bytes, acc: seq<Member>)
    requires st.pos <= |inp.doc|
    ensures var t, r := SkipComments(inp.doc, st.pos), ReadObject(inp, st, last, acc);
      && (t.kind != StringToken && (t.kind == ObjectEnd ==> last != []) ==>
            Refuses(r, st, ErrorInfo(MissingBraceOrName, t, Nowhere)) && r.v.Object?)
      && (t.kind == StringToken ==>
            var d := DecodeString(inp.doc, t.start, t.end);
            d.BadText? ==> Refuses(r, st, ErrorInfo(d.kind, t, Somewhere(d.pos))) && r.v.Object?)
  {
    hide SkipComments, DecodeString, ReadMember, Recover;
  }

  lemma {:induction false} MemberFails1(inp: Input, st: State, key: bytes, acc: seq<Member>)
    requires st.pos <= |inp.doc|
    ensures var colon, r := ReadToken(inp.doc, st.pos), ReadMember(inp, st, key, acc);
      if colon.kind != MemberSeparator then Refuses(r, st, ErrorInfo(MissingColon, colon, Nowhere)) && r.v.Object?
      else
        var child := ReadValue(inp, st.(pos := colon.end), SlotValue(Find(acc, key)));
        && (child.status == Bad ==> r.status == Bad && r.st.errors == child.st.errors && r.v.Object?)
        && var t := ReadToken(inp.doc, child.st.pos);
           child.status == Good && t.kind !in {ObjectEnd, ArraySeparator, CommentToken} ==>
             Refuses(r, child.st, ErrorInfo(MissingCommaOrBrace, t, Nowhere)) && r.v.Object?
  {
    hide ReadValue, ReadObject, ReadToken, SkipComments, Recover, Store, Find;
  }

  lemma LeaveRefuses(r: Result, st: State, s: State, e: ErrorInfo)
    requires Refuses(r, s, e) && s.errors == st.errors
    ensures Refuses(Leave(r), st, e) && Leave(r).v == r.v
  {
  }

  /** A token behind a gap or behind white space. */
  lemma {:induction false} ReportedBehindGap(doc: bytes, p: nat, at: nat, kind: ErrorKind, e: ErrorInfo)
    requires Gap(doc, p, at) && Reported(doc, at, kind, e) && e.token.kind != CommentToken
    ensures p <= at <= |doc| && e == ErrorInfo(kind, SkipComments(doc, p), Nowhere)
  {
    hide ReadToken, Gap, SkipComments;
    GapIsSkipped(doc, p, at);
    NoComment(doc, at);
  }

  lemma ReportedBehindWhite(doc: bytes, p: nat, at: nat, kind: ErrorKind, e: ErrorInfo)
    requires White(doc, p, at) && Reported(doc, at, kind, e)
    ensures p <= at <= |doc| && e == ErrorInfo(kind, ReadToken(doc, p), Nowhere)
  {
    hide ReadToken;
    WhiteIsBlank(doc, p, at);
  }

  lemma {:induction false} ScalarFails(inp: Input, s: State, cur: Value, e: ErrorInfo)
    requires e.token.start <= e.token.end <= |inp.doc|
    requires e.token.kind == StringToken ==> e.token.start + 2 <= e.token.end
    requires
      || (e.kind == ValueExpected && e.extra == Nowhere
          && e.token.kind !in {NumberToken, StringToken, TrueToken, FalseToken, NullToken})
      || (e.token.kind == NumberToken && e.kind == NotANumber && e.extra == Nowhere
          && var text := inp.doc[e.token.start..e.token.end]; !IsWord(text) && !inp.isDouble(text))
      || (e.token.kind == StringToken && e.extra.Somewhere?
          && DecodeString(inp.doc, e.token.start, e.token.end) == BadText(e.kind, e.extra.pos))
    ensures Refuses(ReadScalar(inp, s, e.token, cur), s, e)
  {
    hide IsWord, DecodeNumber, DecodeString, NumberValue;
    if e.token.kind == NumberToken { WordDecodes(inp.doc[e.token.start..e.token.end]); }
  }

  /** The part of Fails for a scalar. */
  lemma {:induction false} ScalarFault(inp: Input, p: nat, f: Fault, e: ErrorInfo)
    requires Fails(inp, p, f, e) && !f.InArray? && !f.InObject?
    ensures Lead(inp, p, e.token.start) && e.token.start <= |inp.doc| && e.token == ReadToken(inp.doc, e.token.start)
    ensures e.token.kind !in {ObjectBegin, ArrayBegin} && (inp.allowComments ==> e.token.kind != CommentToken)
    ensures
      || (e.kind == ValueExpected && e.extra == Nowhere
          && e.token.kind !in {NumberToken, StringToken, TrueToken, FalseToken, NullToken})
      || (e.token.kind == NumberToken && e.kind == NotANumber && e.extra == Nowhere
          && var text := inp.doc[e.token.start..e.token.end]; !IsWord(text) && !inp.isDouble(text))
      || (e.token.kind == StringToken && e.extra.Somewhere?
          && DecodeString(inp.doc, e.token.start, e.token.end) == BadText(e.kind, e.extra.pos))
  {
    hide ReadToken, Lead, IsWord, DecodeString, TextFails, IsNumber;
    match f
    case NoNumber(at, a, b, end) => NumberStarts(inp.doc, at, a, b, end);
    case NoText(at, cs) => TextIsBad(inp.doc, at, cs, e);
    case NoValue(_) =>
  }

  /** The token in front of which a value is expected. */
  lemma LeadToToken(inp: Input, p: nat, t: Token)
    requires Lead(inp, p, t.start) && t.start <= |inp.doc| && t == ReadToken(inp.doc, t.start)
    requires inp.allowComments ==> t.kind != CommentToken
    ensures p <= |inp.doc| && FirstToken(inp, p) == t
  {
    hide ReadToken, SkipComments, Gap;
    LeadIsSkipped(inp, p, t.start);
    if !inp.allowComments { WhiteIsBlank(inp.doc, p, t.start); }
  }

  lemma {:induction false} FaultInArray(inp: Input, p: nat, f: Fault, e: ErrorInfo)
    requires Fails(inp, p, f, e) && f.InArray?
    ensures Lead(inp, p, f.start) && ByteIs(inp.doc, f.start, 91) && ItemsBefore(inp, f.start + 1, f.items, f.from)
    ensures f.from <= |inp.doc| && (f.items == [] ==> ReadToken(inp.doc, f.from).kind != ArrayEnd)
    ensures match f.item
            case BadItem(inner) =>
              Fails(inp, f.from, inner, e) && FaultHeight(f) >= 1 + FaultHeight(inner)
            case NoComma(t, at) =>
              && Lead(inp, f.from, t.start) && Stands(inp, t) && Gap(inp.doc, t.end, at)
              && Reported(inp.doc, at, MissingCommaOrBracket, e)
              && e.token.kind !in {ArraySeparator, ArrayEnd, CommentToken}
              && FaultHeight(f) >= 1 + Height(t)
    ensures FaultHeight(f) >= 1 + ItemsHeight(f.items)
  {
    hide ReadToken, Lead, ItemsBefore, Stands, Gap, Reported, ItemsHeight, Height;
  }

  lemma {:induction false} FaultInObject(inp: Input, p: nat, f: Fault, e: ErrorInfo)
    requires Fails(inp, p, f, e) && f.InObject?
    ensures Lead(inp, p, f.start) && ByteIs(inp.doc, f.start, 123) && MembersBefore(inp, f.start + 1, f.members, f.from)
    ensures MemberFails(inp, f.from, LastKey([], f.members), f.member, e)
    ensures FaultHeight(f) >= 1 + MembersHeight(f.members) && FaultHeight(f) >= 1 + MemberHeight(f.member)
  {
    hide Lead, MembersBefore, MemberFails, MembersHeight, MemberHeight;
  }

  /** A value with a fault is refused, with this error and no other. */
  lemma {:induction false} FaultReads(inp: Input, st: State, cur: Value, f: Fault, e: ErrorInfo)
    requires st.pos <= |inp.doc| && Fails(inp, st.pos, f, e) && st.depth + FaultHeight(f) <= STACK_LIMIT
    ensures var r := ReadValue(inp, st, cur);
      Refuses(r, st, e) && (f.InArray? ==> r.v.Array?) && (f.InObject? ==> r.v.Object?)
    decreases f, 2
  {
    hide *;
    ReadValueStep(inp, st, cur);
    if f.InArray? {
      FaultInArray(inp, st.pos, f, e);
      BracketToken(inp, st.pos, f.start, 91);
      var s := st.(pos := f.start + 1, depth := st.depth + 1);
      ArrayFaultReads(inp, s, st.pos, f, e);
      LeaveRefuses(ReadArray(inp, s), st, s, e);
    } else if f.InObject? {
      FaultInObject(inp, st.pos, f, e);
      BracketToken(inp, st.pos, f.start, 123);
      var s := st.(pos := f.start + 1, depth := st.depth + 1);
      EmptyName();
      LastIsName(inp, s.pos, [], f.members, f.from);
      var acc := MembersUpTo(inp, s, [], [], f.members, f.from);
      MemberFaultReads(inp, s.(pos := f.from), LastKey([], f.members), acc, f.member, e);
      SameErrors(ReadObject(inp, s, [], []), s.(pos := f.from), s, e);
      LeaveRefuses(ReadObject(inp, s, [], []), st, s, e);
    } else {
      ScalarFault(inp, st.pos, f, e);
      LeadToToken(inp, st.pos, e.token);
      var s := st.(pos := e.token.end, depth := st.depth + 1);
      ScalarFails(inp, s, cur, e);
      SameErrors(ReadScalar(inp, s, e.token, cur), s, st, e);
    }
  }

  lemma {:induction false} LastIsName(inp: Input, p: nat, last: seq<Char>, ms: seq<Named>, q: nat)
    requires MembersBefore(inp, p, ms, q) && (last == [] || (AreChars(last) && Paired(last)))
    ensures AreChars(LastKey(last, ms)) && Paired(LastKey(last, ms))
    decreases |ms|
  {
    hide *;
    FirstMemberBefore(inp, p, last, ms, q);
    if ms == [] {
      NameOf(last);
    } else {
      PartsOfMember(inp, p, ms[0]);
      LastIsName(inp, ms[0].next, ms[0].key, ms[1..], q);
    }
  }

  lemma SameErrors(r: Result, s: State, st: State, e: ErrorInfo)
    requires Refuses(r, s, e) && s.errors == st.errors
    ensures Refuses(r, st, e)
  {
  }

  lemma BracketToken(inp: Input, p: nat, at: nat, b: byte)
    requires Lead(inp, p, at) && ByteIs(inp.doc, at, b) && b in {91, 123}
    ensures p <= at < |inp.doc|
    ensures FirstToken(inp, p) == Token(if b == 91 then ArrayBegin else ObjectBegin, at, at + 1)
  {
    hide ReadToken, Lead;
    PunctuationExactly(inp.doc, at);
    LeadIsSkipped(inp, p, at);
  }

  lemma {:induction false} ArrayFaultReads(inp: Input, st: State, p: nat, f: Fault, e: ErrorInfo)
    requires Fails(inp, p, f, e) && f.InArray? && st.pos == f.start + 1 <= |inp.doc|
    requires st.depth + FaultHeight(f) <= STACK_LIMIT + 1
    ensures var r := ReadArray(inp, st); Refuses(r, st, e) && r.v.Array?
    decreases f, 1
  {
    hide *;
    var doc := inp.doc;
    FaultInArray(inp, p, f, e);
    NotYetShut(inp, st.pos, f);
    ReadArrayStep(inp, st);
    PeekedItems(inp, st);
    ItemsUpTo(inp, st, [], f.items, f.from);
    var s, acc := st.(pos := f.from), [] + Slots(doc, f.items);
    ItemsFail(inp, s, acc);
    match f.item
    case BadItem(inner) =>
      FaultReads(inp, s, Null, inner, e);
      PassedOn(ReadValue(inp, s, Null), ReadItems(inp, s, acc), s, st, e);
    case NoComma(t, at) =>
      StandsReads(inp, s, Null, t);
      ReachedEnd(ReadValue(inp, s, Null), s, Height(t), t.end, TreeValue(doc, t));
      ReportedBehindGap(doc, t.end, at, MissingCommaOrBracket, e);
      SameErrors(ReadItems(inp, s, acc), s.(pos := t.end), st, e);
  }

  lemma PassedOn(child: Result, r: Result, s: State, st: State, e: ErrorInfo)
    requires Refuses(child, s, e) && s.errors == st.errors
    requires child.status == Bad ==> r.status == Bad && r.st.errors == child.st.errors
    ensures Refuses(r, st, e) && child.status == Bad
  {
  }

  /** No closing bracket stands in front of the items. */
  lemma {:induction false} NotYetShut(inp: Input, p: nat, f: Fault)
    requires f.InArray? && p <= |inp.doc| && ItemsBefore(inp, p, f.items, f.from)
    requires f.from <= |inp.doc| && (f.items == [] ==> ReadToken(inp.doc, f.from).kind != ArrayEnd)
    ensures ReadToken(inp.doc, p).kind != ArrayEnd
  {
    hide *;
    FirstBefore(inp, p, f.items, f.from);
    if f.items != [] {
      var t := f.items[0].item;
      FirstOfTree(inp, t);
      LeadIsSkipped(inp, p, t.start);
      if ReadToken(inp.doc, p).kind == ArrayEnd { FirstIsToken(inp, p); }
    }
  }

  lemma {:induction false} MemberFaultReads(
      inp: Input, st: State, last: seq<Char>, acc: seq<Member>, f: MemberFault, e: ErrorInfo)
    requires st.pos <= |inp.doc| && MemberFails(inp, st.pos, last, f, e)
    requires st.depth + MemberHeight(f) <= STACK_LIMIT && (AreChars(last) && Paired(last))
    ensures var r := ReadObject(inp, st, TextOf(last), acc); Refuses(r, st, e) && r.v.Object?
    decreases f, 1
  {
    hide *;
    var doc := inp.doc;
    ObjectFails(inp, st, TextOf(last), acc);
    MemberFault1(inp, st.pos, last, f, e);
    match f
    case NoName(at) =>
      NameOf(last);
      ReportedBehindGap(doc, st.pos, at, MissingBraceOrName, e);
    case BadName(at, cs) =>
      TextIsBad(doc, at, cs, e);
      GapIsSkipped(doc, st.pos, at);
      NoComment(doc, at);
    case NoColon(name, key, at) =>
      var k := NameReads(inp, st, last, acc, Named(name, key, 0, Tree(0, 0, TNull), 0));
      MemberFails1(inp, st.(pos := k), TextOf(key), acc);
      ReportedBehindWhite(doc, k, at, MissingColon, e);
      SameErrors(ReadObject(inp, st, TextOf(last), acc), st.(pos := k), st, e);
    case BadValue(name, key, colon, inner) =>
      var k := NameReads(inp, st, last, acc, Named(name, key, 0, Tree(0, 0, TNull), 0));
      var s, cur := st.(pos := colon + 1), SlotValue(Find(acc, TextOf(key)));
      ColonToken(doc, k, colon + 1);
      MemberFails1(inp, st.(pos := k), TextOf(key), acc);
      FaultReads(inp, s, cur, inner, e);
      PassedOn(ReadValue(inp, s, cur), ReadObject(inp, st, TextOf(last), acc), s, st, e);
    case NoSeparator(m, at) =>
      PartsOfMember(inp, st.pos, m);
      var k := NameReads(inp, st, last, acc, m);
      var s, cur := st.(pos := m.colon + 1), SlotValue(Find(acc, TextOf(m.key)));
      ColonToken(doc, k, m.colon + 1);
      MemberFails1(inp, st.(pos := k), TextOf(m.key), acc);
      StandsReads(inp, s, cur, m.item);
      ReachedEnd(ReadValue(inp, s, cur), s, Height(m.item), m.item.end, TreeValue(doc, m.item));
      ReportedBehindWhite(doc, m.item.end, at, MissingCommaOrBrace, e);
      SameErrors(ReadObject(inp, st, TextOf(last), acc), s.(pos := m.item.end), st, e);
  }

  /** The parts of a fault of a member. */
  lemma {:induction false} MemberFault1(inp: Input, p: nat, last: seq<Char>, f: MemberFault, e: ErrorInfo)
    requires MemberFails(inp, p, last, f, e)
    ensures match f
            case NoName(at) =>
              && Gap(inp.doc, p, at) && Reported(inp.doc, at, MissingBraceOrName, e)
              && e.token.kind !in {StringToken, CommentToken} && (e.token.kind == ObjectEnd ==> last != [])
            case BadName(at, cs) => Gap(inp.doc, p, at) && TextFails(inp.doc, at, cs, e)
            case NoColon(name, key, at) =>
              && Gap(inp.doc, p, name) && AreChars(key) && Paired(key) && At(inp.doc, name, StringText(key))
              && White(inp.doc, name + |StringText(key)|, at) && Reported(inp.doc, at, MissingColon, e)
              && e.token.kind != MemberSeparator
            case BadValue(name, key, colon, inner) =>
              && Gap(inp.doc, p, name) && AreChars(key) && Paired(key) && At(inp.doc, name, StringText(key))
              && Shut(inp.doc, name + |StringText(key)|, 58, colon + 1) && Fails(inp, colon + 1, inner, e)
              && MemberHeight(f) == FaultHeight(inner)
            case NoSeparator(m, at) =>
              && MemberStands(inp, p, m) && White(inp.doc, m.item.end, at)
              && Reported(inp.doc, at, MissingCommaOrBrace, e)
              && e.token.kind !in {ObjectEnd, ArraySeparator, CommentToken}
              && MemberHeight(f) == Height(m.item)
  {
    hide Gap, Reported, TextFails, AreChars, Paired, At, StringText, White, MemberStands, Height, FaultHeight;
    if f.BadValue? { hide Fails; }
  }

  // ---------------------------------------------------------------- whole documents

  /** A document with a fault at most 1000 levels deep is refused with that error; the only other error
      there may be says that the root is no container. */
  lemma {:induction false} FaultIsReported(inp: Input, cur: Value, f: Fault, e: ErrorInfo)
    requires Fails(inp, 0, f, e) && FaultHeight(f) <= 1000
    ensures var r := Parse(inp, cur);
      && r.status == Bad && r.st.errors != [] && r.st.errors[0] == e
      && (!inp.strictRoot || f.InArray? || f.InObject? ==> r.st.errors == [e])
  {
    hide ReadValue, FirstToken, Fails, FaultHeight;
    FaultReads(inp, State(0, [], 0), cur, f, e);
    assert [] + [e] == [e];
  }

  // ---------------------------------------------------------------- a fault for what the reader refuses

  /** A turn of decodeString in a string that is not decoded. */
  lemma {:induction false} BadTurn(doc: bytes, p: nat, end: nat, acc: bytes)
    requires p <= end < |doc| && StringEnd(doc, p) == (true, end + 1) && DecodeLoop(doc, p, end, acc).BadText?
    ensures p < end && doc[p] != QUOTE
    ensures doc[p] != BACKSLASH ==>
      && StringEnd(doc, p + 1) == (true, end + 1)
      && DecodeLoop(doc, p + 1, end, acc + [doc[p]]) == DecodeLoop(doc, p, end, acc)
    ensures doc[p] == BACKSLASH ==> p + 2 <= end && StringEnd(doc, p + 2) == (true, end + 1)
    ensures doc[p] == BACKSLASH && doc[p + 1] != LOWER_U ==>
      if Unescape(doc[p + 1]) < 0 then DecodeLoop(doc, p, end, acc) == BadText(BadEscape, p + 2)
      else DecodeLoop(doc, p + 2, end, acc + [Unescape(doc[p + 1])]) == DecodeLoop(doc, p, end, acc)
    ensures doc[p] == BACKSLASH && doc[p + 1] == LOWER_U ==>
      var u := DecodeCodePoint(doc, p + 2, end);
      if u.HexError? then DecodeLoop(doc, p, end, acc) == BadText(u.kind, u.pos)
      else DecodeLoop(doc, u.pos, end, acc + Utf8(u.unicode)) == DecodeLoop(doc, p, end, acc)
  {
    hide DecodeCodePoint, Utf8;
  }

  lemma {:induction false} HexStopsAt(doc: bytes, p: nat, n: nat, unicode: nat)
    requires p + n <= |doc| && HexLoop(doc, p, n, unicode).HexError?
    ensures var r := HexLoop(doc, p, n, unicode);
      && r.kind == HexDigitExpected && p < r.pos <= p + n
      && (forall k :: p <= k < r.pos - 1 ==> IsHex(doc[k])) && !IsHex(doc[r.pos - 1])
    decreases n
  {
    hide HexDigitValue, IsHex;
    HexExactly(doc[p]);
    if HexDigitValue(doc[p]) >= 0 { HexStopsAt(doc, p + 1, n - 1, unicode * 16 + HexDigitValue(doc[p])); }
  }

  lemma {:induction false} EscapeStopsAt(doc: bytes, p: nat, end: nat)
    requires p <= end <= |doc| && DecodeEscape(doc, p, end).HexError?
    ensures var r := DecodeEscape(doc, p, end);
      if end < p + 4 then r == HexError(FourDigitsExpected, p)
      else r.kind == HexDigitExpected && HexUntil(doc, p, r.pos)
  {
    hide HexLoop, IsHex;
    if end >= p + 4 { HexStopsAt(doc, p, 4, 0); }
  }

  /** What is decoded to a high surrogate is one. */
  lemma {:induction false} HighIsHigh(doc: bytes, k: nat, end: nat)
    requires k + 2 <= end <= |doc| && doc[k] == 92 && doc[k + 1] == 117
    requires var u := DecodeEscape(doc, k + 2, end); u.HexValue? && IsHighSurrogate(u.unicode)
    ensures IsHighAt(doc, k, end)
  {
    hide HexLoop, DecodeEscape, HexDigitValue;
    DigitsOfEscape(doc, k + 2, end);
    var a, b, c, d := HexDigitValue(doc[k + 2]), HexDigitValue(doc[k + 3]), HexDigitValue(doc[k + 4]), HexDigitValue(doc[k + 5]);
    FourHexDigits(doc, k + 2, end, a, b, c, d);
    HexExactly(doc[k + 4]);
    HexExactly(doc[k + 5]);
    HighDigits(a, b, c, d);
    DigitOf(doc[k + 2]);
    DigitOf(doc[k + 3]);
  }

  lemma HighDigits(a: nat, b: nat, c: nat, d: nat)
    requires a < 16 && b < 16 && c < 16 && d < 16 && IsHighSurrogate(((a * 16 + b) * 16 + c) * 16 + d)
    ensures a == 13 && 8 <= b <= 11
  {
  }

  lemma DigitOf(b: byte)
    ensures HexDigitValue(b) == 13 ==> b in {68, 100}
    ensures 8 <= HexDigitValue(b) <= 11 ==> b in {56, 57, 65, 66, 97, 98}
  {
  }

  lemma {:induction false} PointStopsAt(doc: bytes, k: nat, end: nat)
    requires k + 2 <= end <= |doc| && doc[k] == 92 && doc[k + 1] == 117 && DecodeCodePoint(doc, k + 2, end).HexError?
    ensures var u := DecodeCodePoint(doc, k + 2, end); EscapeFails(doc, k, end, u.kind, u.pos)
  {
    hide DecodeEscape, HexUntil, IsHighAt, IsHighSurrogate;
    var first := DecodeEscape(doc, k + 2, end);
    if first.HexError? {
      EscapeStopsAt(doc, k + 2, end);
    } else {
      HighIsHigh(doc, k, end);
      HighLetters(doc, k, end);
      if k + 12 <= end && doc[k + 6] == BACKSLASH && doc[k + 7] == LOWER_U { EscapeStopsAt(doc, k + 8, end); }
    }
  }

  /** The characters in front of the escape that fails. */
  lemma {:induction false} CharsUpTo(doc: bytes, p: nat, end: nat, acc: bytes) returns (cs: seq<Char>)
    requires p <= end < |doc| && StringEnd(doc, p) == (true, end + 1) && DecodeLoop(doc, p, end, acc).BadText?
    ensures AreChars(cs) && Paired(cs) && At(doc, p, CharsText(cs))
    ensures var d := DecodeLoop(doc, p, end, acc); EscapeFails(doc, p + |CharsText(cs)|, end, d.kind, d.pos)
    decreases end - p
  {
    hide *;
    BadTurn(doc, p, end, acc);
    Letters();
    if doc[p] != BACKSLASH {
      var rest := CharsUpTo(doc, p + 1, end, acc + [doc[p]]);
      PlainAt(doc, p);
      cs := MoreChars(doc, p, p + 1 + |CharsText(rest)|, Plain(doc[p]), rest);
    } else if doc[p + 1] != LOWER_U {
      if Unescape(doc[p + 1]) < 0 {
        cs := [];
        NoChars(doc, p);
        UnknownLetter(doc, p, end);
      } else {
        UnescapeBound(doc[p + 1]);
        var rest := CharsUpTo(doc, p + 2, end, acc + [Unescape(doc[p + 1])]);
        ShortAt(doc, p);
        cs := MoreChars(doc, p, p + 2 + |CharsText(rest)|, Short(doc[p + 1]), rest);
      }
    } else if DecodeCodePoint(doc, p + 2, end).HexError? {
      cs := [];
      NoChars(doc, p);
      PointStopsAt(doc, p, end);
    } else {
      cs := UnitsUpTo(doc, p, end, acc);
    }
  }

  lemma Letters()
    ensures BACKSLASH == 92 && LOWER_U == 117
  {
  }

  lemma UnescapeBound(b: byte)
    ensures Unescape(b) < 256
  {
  }

  lemma UnknownLetter(doc: bytes, k: nat, end: nat)
    requires k + 2 <= end <= |doc| && doc[k] == 92 && doc[k + 1] != 117 && Unescape(doc[k + 1]) < 0
    ensures EscapeFails(doc, k, end, BadEscape, k + 2)
  {
  }

  lemma {:induction false} UnitsUpTo(doc: bytes, p: nat, end: nat, acc: bytes) returns (cs: seq<Char>)
    requires p + 2 <= end < |doc| && StringEnd(doc, p) == (true, end + 1) && DecodeLoop(doc, p, end, acc).BadText?
    requires doc[p] == BACKSLASH && doc[p + 1] == LOWER_U && DecodeCodePoint(doc, p + 2, end).HexValue?
    ensures AreChars(cs) && Paired(cs) && At(doc, p, CharsText(cs))
    ensures var d := DecodeLoop(doc, p, end, acc); EscapeFails(doc, p + |CharsText(cs)|, end, d.kind, d.pos)
    decreases end - p, 0
  {
    hide *;
    BadTurn(doc, p, end, acc);
    PointParts(doc, p, end);
    var u := DecodeCodePoint(doc, p + 2, end);
    var c := UnitAt(doc, p, end);
    HighExactly(c);
    if u.pos == p + 6 {
      var rest := CharsUpTo(doc, p + 6, end, acc + Utf8(u.unicode));
      cs := MoreChars(doc, p, p + 6 + |CharsText(rest)|, c, rest);
    } else {
      var d := UnitAt(doc, p + 6, end);
      var rest := CharsUpTo(doc, p + 12, end, acc + Utf8(u.unicode));
      cs := PairThenChars(doc, p, p + 12 + |CharsText(rest)|, c, d, rest);
    }
  }

  lemma {:induction false} PointParts(doc: bytes, p: nat, end: nat)
    requires p + 2 <= end <= |doc| && DecodeCodePoint(doc, p + 2, end).HexValue?
    ensures var u, first := DecodeCodePoint(doc, p + 2, end), DecodeEscape(doc, p + 2, end);
      && first.HexValue? && p + 6 <= end
      && (!IsHighSurrogate(first.unicode) ==> u.pos == p + 6)
      && (IsHighSurrogate(first.unicode) ==>
            && u.pos == p + 12 <= end && doc[p + 6] == BACKSLASH && doc[p + 7] == LOWER_U
            && DecodeEscape(doc, p + 8, end).HexValue?)
  {
    hide DecodeEscape;
  }

  /** A string token that is not decoded. */
  lemma {:induction false} TextFault(doc: bytes, at: nat) returns (cs: seq<Char>)
    requires at <= |doc| && ReadToken(doc, at).start == at && ReadToken(doc, at).kind == StringToken
    requires DecodeString(doc, at, ReadToken(doc, at).end).BadText?
    ensures var k := ReadToken(doc, at);
      var d := DecodeString(doc, at, k.end);
      TextFails(doc, at, cs, ErrorInfo(d.kind, k, Somewhere(d.pos)))
  {
    hide ReadToken, StringEnd, DecodeLoop, EscapeFails, AreChars, Paired, CharsText, At;
    var k := ReadToken(doc, at);
    TokenBehindWhite(doc, at);
    NotAtTheEnd(doc, at);
    LongTokens(doc, at);
    cs := CharsUpTo(doc, at + 1, k.end - 1, []);
  }

  /** A scalar that is refused. */
  lemma {:induction false} ScalarFaultOf(inp: Input, s: State, p: nat, at: nat, cur: Value) returns (f: Fault, e: ErrorInfo)
    requires p <= at <= |inp.doc| && Lead(inp, p, at) && ReadToken(inp.doc, at).start == at
    requires var k := ReadToken(inp.doc, at);
      && k.kind !in {ObjectBegin, ArrayBegin} && (inp.allowComments ==> k.kind != CommentToken)
      && ReadScalar(inp, s, k, cur).status == Bad
    ensures Fails(inp, p, f, e) && !f.InArray? && !f.InObject?
  {
    hide ReadToken, Lead, DecodeNumber, DecodeString, IsWord, IsNumber, TextFails, SkipDigits, FractionEnd, NumberEnd, StringEnd,
         NumberValue;
    var doc := inp.doc;
    var k := ReadToken(doc, at);
    TokenBehindWhite(doc, at);
    match k.kind
    case NumberToken =>
      NotAtTheEnd(doc, at);
      LongTokens(doc, at);
      var a := SkipDigits(doc, at + 1);
      var b := FractionEnd(doc, a);
      NumberExactly(doc, at, a, b, k.end);
      WordDecodes(doc[at..k.end]);
      f, e := NoNumber(at, a, b, k.end), ErrorInfo(NotANumber, k, Nowhere);
    case StringToken =>
      var cs := TextFault(doc, at);
      var d := DecodeString(doc, at, k.end);
      f, e := NoText(at, cs), ErrorInfo(d.kind, k, Somewhere(d.pos));
    case _ =>
      f, e := NoValue(at), ErrorInfo(ValueExpected, k, Nowhere);
  }

  /** What readValue refuses has a fault. */
  lemma {:induction false} FaultOf(inp: Input, st: State, cur: Value) returns (f: Fault, e: ErrorInfo)
    requires st.pos <= |inp.doc| && ReadValue(inp, st, cur).status == Bad
    ensures Fails(inp, st.pos, f, e) && st.depth + FaultHeight(f) <= STACK_LIMIT
    decreases |inp.doc| - st.pos, 3
  {
    hide *;
    var doc := inp.doc;
    if st.depth >= STACK_LIMIT { ReadValueAtLimit(inp, st, cur); }
    ReadValueStep(inp, st, cur);
    FirstBehindLead(inp, st.pos);
    var token := FirstToken(inp, st.pos);
    var s := st.(pos := token.end, depth := st.depth + 1);
    LeadIsSkipped(inp, st.pos, token.start);
    if token.kind == ObjectBegin || token.kind == ArrayBegin {
      NotAtTheEnd(doc, token.start);
      PunctuationExactly(doc, token.start);
      StandsThere(doc, token.start);
    }
    if token.kind == ObjectBegin {
      LeaveIs(ReadObject(inp, s, [], []));
      EmptyName();
      NameOf([]);
      var ms, from, member;
      ms, from, member, e := ObjectFaultOf(inp, s, [], []);
      f := InObject(token.start, ms, from, member);
      ObjectHasFault(inp, st.pos, f, e, s.depth);
    } else if token.kind == ArrayBegin {
      LeaveIs(ReadArray(inp, s));
      f, e := ArrayFaultOf(inp, s, st.pos, token.start);
    } else {
      NoSkippedComment(inp, st.pos);
      f, e := ScalarFaultOf(inp, s, st.pos, token.start, cur);
      ScalarHeight(f);
    }
  }

  lemma StandsThere(doc: bytes, p: nat)
    requires p < |doc|
    ensures ByteIs(doc, p, doc[p])
  {
  }

  lemma NoSkippedComment(inp: Input, p: nat)
    requires p <= |inp.doc|
    ensures inp.allowComments ==> FirstToken(inp, p).kind != CommentToken
  {
    hide ReadToken;
  }

  lemma {:induction false} ScalarHeight(f: Fault)
    requires !f.InArray? && !f.InObject?
    ensures FaultHeight(f) == 1
  {
  }

  lemma {:induction false} ObjectHasFault(inp: Input, p: nat, f: Fault, e: ErrorInfo, depth: int)
    requires f.InObject? && Lead(inp, p, f.start) && ByteIs(inp.doc, f.start, 123)
    requires MembersBefore(inp, f.start + 1, f.members, f.from) && MemberFails(inp, f.from, LastKey([], f.members), f.member, e)
    requires depth + MembersHeight(f.members) <= STACK_LIMIT && depth + MemberHeight(f.member) <= STACK_LIMIT
    ensures Fails(inp, p, f, e) && depth - 1 + FaultHeight(f) <= STACK_LIMIT
  {
    hide Lead, MembersBefore, MemberFails, MembersHeight, MemberHeight;
  }

  lemma {:induction false} ArrayHasFault(inp: Input, p: nat, f: Fault, e: ErrorInfo, depth: int)
    requires f.InArray? && Lead(inp, p, f.start) && ByteIs(inp.doc, f.start, 91)
    requires ItemsBefore(inp, f.start + 1, f.items, f.from) && ItemFails(inp, f.from, f.item, e)
    requires f.from <= |inp.doc| && (f.items == [] ==> ReadToken(inp.doc, f.from).kind != ArrayEnd)
    requires depth + ItemsHeight(f.items) <= STACK_LIMIT && depth + ItemHeight(f.item) <= STACK_LIMIT
    ensures Fails(inp, p, f, e) && depth - 1 + FaultHeight(f) <= STACK_LIMIT
  {
    hide Lead, ItemsBefore, ItemFails, ItemsHeight, Height, ReadToken;
  }

  lemma {:induction false} ArrayFaultOf(inp: Input, s: State, p: nat, start: nat) returns (f: Fault, e: ErrorInfo)
    requires Lead(inp, p, start) && ByteIs(inp.doc, start, 91) && s.pos == start + 1 <= |inp.doc|
    requires ReadArray(inp, s).status == Bad
    ensures f.InArray? && Fails(inp, p, f, e) && s.depth - 1 + FaultHeight(f) <= STACK_LIMIT
    decreases |inp.doc| - s.pos, 5
  {
    hide *;
    ReadArrayStep(inp, s);
    PeekedItems(inp, s);
    var items, from, item;
    items, from, item, e := ItemsFaultOf(inp, s, []);
    f := InArray(start, items, from, item);
    FirstBefore(inp, s.pos, items, from);
    ArrayHasFault(inp, p, f, e, s.depth);
  }

  /** One turn of readArray that does not end well, or goes on. */
  lemma {:induction false} ItemsFaultOf(inp: Input, st: State, acc: seq<Slot>)
    returns (items: seq<Entry>, from: nat, item: ItemFault, e: ErrorInfo)
    requires st.pos <= |inp.doc| && ReadItems(inp, st, acc).status == Bad
    ensures ItemsBefore(inp, st.pos, items, from) && from <= |inp.doc| && ItemFails(inp, from, item, e)
    ensures st.depth + ItemsHeight(items) <= STACK_LIMIT && st.depth + ItemHeight(item) <= STACK_LIMIT
    decreases |inp.doc| - st.pos, 4
  {
    hide *;
    var doc := inp.doc;
    var child := ReadValue(inp, st, Null);
    var token := SkipComments(doc, child.st.pos);
    if st.depth >= STACK_LIMIT { ReadValueAtLimit(inp, st, Null); ItemsThrow(inp, st, acc); }
    ItemsThrow(inp, st, acc);
    ItemStep(inp, st, acc, child, token);
    if child.status == Bad {
      var inner;
      inner, e := FaultOf(inp, st, Null);
      items, from, item := [], st.pos, BadItem(inner);
      ItemHasFault(inp, st.pos, inner, e);
    } else {
      var t := ValueStands(inp, st, Null);
      LeadIsSkipped(inp, st.pos, t.start);
      PlacesOf(inp, t);
      StandsReads(inp, st, Null, t);
      GoodHeight(child, st, Height(t), t.end, TreeValue(doc, t));
      CommentsThenToken(doc, child.st.pos);
      if token.kind == ArraySeparator {
        items, from, item, e := ItemsFaultOf(inp, child.st.(pos := token.end), acc + [Item(child.v)]);
        items := BeforeMore(inp, st.pos, t, token.start, items, from, st.depth);
      } else {
        e := ErrorInfo(MissingCommaOrBracket, token, Nowhere);
        items, from, item := [], st.pos, NoComma(t, token.start);
        NotAComment(doc, child.st.pos);
        CommaIsMissing(inp, st.pos, t, token.start, e);
      }
    }
  }

  lemma GoodHeight(r: Result, st: State, h: nat, q: nat, v: Value)
    requires Reaches(r, st, h, q, v) && r.status == Good
    ensures st.depth + h <= STACK_LIMIT && r.st == st.(pos := q)
  {
  }

  lemma {:induction false} NotAComment(doc: bytes, p: nat)
    requires p <= |doc|
    ensures SkipComments(doc, p).kind != CommentToken
  {
    hide ReadToken;
  }

  /** The ways an array does not end well. */
  lemma {:induction false} ItemsThrow(inp: Input, st: State, acc: seq<Slot>)
    requires st.pos <= |inp.doc| && ReadItems(inp, st, acc).status == Bad
    ensures var child := ReadValue(inp, st, Null);
      && child.status != Threw
      && (child.status == Good ==> SkipComments(inp.doc, child.st.pos).kind != ArrayEnd)
  {
    hide ReadValue, SkipComments, Recover;
  }

  lemma {:induction false} ItemHasFault(inp: Input, p: nat, inner: Fault, e: ErrorInfo)
    requires Fails(inp, p, inner, e)
    ensures ItemFails(inp, p, BadItem(inner), e) && ItemsBefore(inp, p, [], p)
    ensures ItemHeight(BadItem(inner)) == FaultHeight(inner) && ItemsHeight([]) == 0
  {
    hide Fails, FaultHeight;
  }

  lemma {:induction false} CommaIsMissing(inp: Input, p: nat, t: Tree, at: nat, e: ErrorInfo)
    requires Lead(inp, p, t.start) && Stands(inp, t) && Gap(inp.doc, t.end, at) && at <= |inp.doc|
    requires ReadToken(inp.doc, at).start == at && e == ErrorInfo(MissingCommaOrBracket, ReadToken(inp.doc, at), Nowhere)
    requires e.token.kind !in {ArraySeparator, ArrayEnd, CommentToken}
    ensures ItemFails(inp, p, NoComma(t, at), e) && ItemsBefore(inp, p, [], p)
    ensures ItemHeight(NoComma(t, at)) == Height(t) && ItemsHeight([]) == 0
  {
    hide Lead, Stands, Gap, ReadToken, Height;
  }

  lemma {:induction false} BeforeMore(inp: Input, p: nat, t: Tree, m: nat, rest: seq<Entry>, q: nat, depth: int)
    returns (items: seq<Entry>)
    requires Lead(inp, p, t.start) && Stands(inp, t) && Gap(inp.doc, t.end, m) && ByteIs(inp.doc, m, 44)
    requires ItemsBefore(inp, m + 1, rest, q)
    requires depth + Height(t) <= STACK_LIMIT && depth + ItemsHeight(rest) <= STACK_LIMIT
    ensures ItemsBefore(inp, p, items, q) && depth + ItemsHeight(items) <= STACK_LIMIT
  {
    hide Lead, Stands, Gap, Height;
    items := [Entry(t, m)] + rest;
    assert items[1..] == rest;
  }

  /** What readObject refuses has a fault. */
  lemma {:induction false} ObjectFaultOf(inp: Input, st: State, last: seq<Char>, acc: seq<Member>)
    returns (ms: seq<Named>, from: nat, f: MemberFault, e: ErrorInfo)
    requires st.pos <= |inp.doc| && AreChars(last) && Paired(last) && st.depth <= STACK_LIMIT
    requires ReadObject(inp, st, TextOf(last), acc).status == Bad
    ensures MembersBefore(inp, st.pos, ms, from) && MemberFails(inp, from, LastKey(last, ms), f, e)
    ensures st.depth + MembersHeight(ms) <= STACK_LIMIT && st.depth + MemberHeight(f) <= STACK_LIMIT
    decreases |inp.doc| - st.pos, 2
  {
    hide *;
    var doc, t := inp.doc, SkipComments(inp.doc, st.pos);
    ReadObjectStep(inp, st, TextOf(last), acc, t);
    CommentsThenToken(doc, st.pos);
    GapBounds(doc, st.pos, t.start);
    NotAComment(doc, st.pos);
    EmptyName();
    if t.kind != StringToken {
      e := ErrorInfo(MissingBraceOrName, t, Nowhere);
      ms, from, f := [], st.pos, NoName(t.start);
      NameIsMissing(inp, st.pos, last, t.start, e);
    } else if DecodeString(doc, t.start, t.end).BadText? {
      var cs := TextFault(doc, t.start);
      var d := DecodeString(doc, t.start, t.end);
      e := ErrorInfo(d.kind, t, Somewhere(d.pos));
      ms, from, f := [], st.pos, BadName(t.start, cs);
      NameIsBad(inp, st.pos, last, t.start, cs, e);
    } else {
      var key := StringOf(doc, t.start);
      StringParts(doc, t.start, key, t.end);
      StringReads(doc, t.start, key);
      NameOf(key);
      ms, from, f, e := MemberFaultOf(inp, st, last, acc, t.start, key);
    }
  }

  lemma {:induction false} NameIsMissing(inp: Input, p: nat, last: seq<Char>, at: nat, e: ErrorInfo)
    requires Gap(inp.doc, p, at) && at <= |inp.doc| && ReadToken(inp.doc, at).start == at
    requires e == ErrorInfo(MissingBraceOrName, ReadToken(inp.doc, at), Nowhere)
    requires e.token.kind !in {StringToken, CommentToken} && (e.token.kind == ObjectEnd ==> last != [])
    ensures MembersBefore(inp, p, [], p) && LastKey(last, []) == last && MemberFails(inp, p, last, NoName(at), e)
    ensures MembersHeight([]) == 0 && MemberHeight(NoName(at)) == 0
  {
    hide Gap, ReadToken;
  }

  lemma {:induction false} NameIsBad(inp: Input, p: nat, last: seq<Char>, at: nat, cs: seq<Char>, e: ErrorInfo)
    requires Gap(inp.doc, p, at) && TextFails(inp.doc, at, cs, e)
    ensures MembersBefore(inp, p, [], p) && LastKey(last, []) == last && MemberFails(inp, p, last, BadName(at, cs), e)
    ensures MembersHeight([]) == 0 && MemberHeight(BadName(at, cs)) == 0
  {
    hide Gap, TextFails;
  }

  /** A member with a value that is read, and what is behind it. */
  lemma {:induction false} FaultBehindValue(
      inp: Input, st: State, last: seq<Char>, acc: seq<Member>, name: nat, key: seq<Char>, p: nat)
    returns (ms: seq<Named>, from: nat, f: MemberFault, e: ErrorInfo)
    requires st.pos <= name && Gap(inp.doc, st.pos, name) && AreChars(key) && Paired(key) && st.depth <= STACK_LIMIT
    requires At(inp.doc, name, StringText(key)) && name + |StringText(key)| < p <= |inp.doc|
    requires var u := st.(pos := name + |StringText(key)|);
      && ReadMember(inp, u, TextOf(key), acc).status == Bad
      && ReadToken(inp.doc, u.pos).kind == MemberSeparator && p == ReadToken(inp.doc, u.pos).end
    requires Shut(inp.doc, name + |StringText(key)|, 58, p)
    requires ReadValue(inp, st.(pos := p), SlotValue(Find(acc, TextOf(key)))).status == Good
    ensures MembersBefore(inp, st.pos, ms, from) && MemberFails(inp, from, LastKey(last, ms), f, e)
    ensures st.depth + MembersHeight(ms) <= STACK_LIMIT && st.depth + MemberHeight(f) <= STACK_LIMIT
    decreases |inp.doc| - st.pos, 0
  {
    hide *;
    var doc, u := inp.doc, st.(pos := name + |StringText(key)|);
    var s := u.(pos := p);
    var cur := SlotValue(Find(acc, TextOf(key)));
    var child := ReadValue(inp, s, cur);
    MemberThrows(inp, u, TextOf(key), acc);
    var t := ValueStands(inp, s, cur);
    LeadIsSkipped(inp, s.pos, t.start);
    PlacesOf(inp, t);
    StandsReads(inp, s, cur, t);
    GoodHeight(child, s, Height(t), t.end, TreeValue(doc, t));
    BehindMember(inp, u, TextOf(key), acc, s, child);
    var comma := ReadToken(doc, t.end);
    if comma.kind in {ObjectEnd, ArraySeparator, CommentToken} {
      var next := if comma.kind == CommentToken then SkipComments(doc, comma.end) else comma;
      SeparatorStands(doc, t.end);
      var m := Named(name, key, p - 1, t, next.end);
      MemberFits(inp, st.pos, m);
      ms, from, f, e := ObjectFaultOf(inp, child.st.(pos := next.end), key, Store(acc, TextOf(key), child.v));
      ms := MembersMore(inp, st.pos, last, m, ms, from, st.depth);
    } else {
      var m := Named(name, key, p - 1, t, 0);
      MemberFits(inp, st.pos, m);
      TokenBehindWhite(doc, t.end);
      e := ErrorInfo(MissingCommaOrBrace, comma, Nowhere);
      ms, from, f := [], st.pos, NoSeparator(m, comma.start);
      SeparatorIsMissing(inp, st.pos, last, m, comma.start, e);
    }
  }

  /** The rest of a turn of readObject that does not end well, or goes on. */
  lemma {:induction false} MemberFaultOf(
      inp: Input, st: State, last: seq<Char>, acc: seq<Member>, name: nat, key: seq<Char>)
    returns (ms: seq<Named>, from: nat, f: MemberFault, e: ErrorInfo)
    requires st.pos <= name && Gap(inp.doc, st.pos, name) && AreChars(key) && Paired(key) && st.depth <= STACK_LIMIT
    requires At(inp.doc, name, StringText(key)) && name + |StringText(key)| <= |inp.doc| && |StringText(key)| >= 2
    requires ReadMember(inp, st.(pos := name + |StringText(key)|), TextOf(key), acc).status == Bad
    ensures MembersBefore(inp, st.pos, ms, from) && MemberFails(inp, from, LastKey(last, ms), f, e)
    ensures st.depth + MembersHeight(ms) <= STACK_LIMIT && st.depth + MemberHeight(f) <= STACK_LIMIT
    decreases |inp.doc| - st.pos, 1
  {
    hide *;
    var doc, u := inp.doc, st.(pos := name + |StringText(key)|);
    var colon := ReadToken(doc, u.pos);
    TokenBehindWhite(doc, u.pos);
    TokenShuts(doc, u.pos);
    var s := u.(pos := colon.end);
    var cur := SlotValue(Find(acc, TextOf(key)));
    var child := ReadValue(inp, s, cur);
    if colon.kind != MemberSeparator {
      e := ErrorInfo(MissingColon, colon, Nowhere);
      ms, from, f := [], st.pos, NoColon(name, key, colon.start);
      ColonIsMissing(inp, st.pos, last, name, key, colon.start, e);
    } else {
      MemberThrows(inp, u, TextOf(key), acc);
      if child.status == Bad {
        var inner;
        inner, e := FaultOf(inp, s, cur);
        ms, from, f := [], st.pos, BadValue(name, key, colon.end - 1, inner);
        ValueHasFault(inp, st.pos, last, name, key, colon.end - 1, inner, e);
      } else {
        ms, from, f, e := FaultBehindValue(inp, st, last, acc, name, key, colon.end);
      }
    }
  }

  /** The ways a member does not end well. */
  lemma {:induction false} MemberThrows(inp: Input, st: State, key: bytes, acc: seq<Member>)
    requires st.pos <= |inp.doc| && ReadMember(inp, st, key, acc).status == Bad
    ensures var colon := ReadToken(inp.doc, st.pos);
      colon.kind == MemberSeparator ==>
        var child := ReadValue(inp, st.(pos := colon.end), SlotValue(Find(acc, key)));
        var comma := ReadToken(inp.doc, child.st.pos);
        && child.status != Threw
        && (child.status == Good && comma.kind in {ObjectEnd, ArraySeparator, CommentToken} ==>
              (if comma.kind == CommentToken then SkipComments(inp.doc, comma.end) else comma).kind != ObjectEnd)
  {
    hide ReadValue, ReadObject, ReadToken, SkipComments, Recover, Store, Find;
  }

  lemma {:induction false} ColonIsMissing(
      inp: Input, p: nat, last: seq<Char>, name: nat, key: seq<Char>, at: nat, e: ErrorInfo)
    requires Gap(inp.doc, p, name) && AreChars(key) && Paired(key) && At(inp.doc, name, StringText(key))
    requires White(inp.doc, name + |StringText(key)|, at) && at <= |inp.doc| && ReadToken(inp.doc, at).start == at
    requires e == ErrorInfo(MissingColon, ReadToken(inp.doc, at), Nowhere) && e.token.kind != MemberSeparator
    ensures MembersBefore(inp, p, [], p) && LastKey(last, []) == last && MemberFails(inp, p, last, NoColon(name, key, at), e)
    ensures MembersHeight([]) == 0 && MemberHeight(NoColon(name, key, at)) == 0
  {
    hide Gap, AreChars, Paired, At, StringText, White, ReadToken;
  }

  lemma {:induction false} ValueHasFault(
      inp: Input, p: nat, last: seq<Char>, name: nat, key: seq<Char>, colon: nat, inner: Fault, e: ErrorInfo)
    requires Gap(inp.doc, p, name) && AreChars(key) && Paired(key) && At(inp.doc, name, StringText(key))
    requires Shut(inp.doc, name + |StringText(key)|, 58, colon + 1) && Fails(inp, colon + 1, inner, e)
    ensures MembersBefore(inp, p, [], p) && LastKey(last, []) == last
    ensures MemberFails(inp, p, last, BadValue(name, key, colon, inner), e)
    ensures MembersHeight([]) == 0 && MemberHeight(BadValue(name, key, colon, inner)) == FaultHeight(inner)
  {
    hide Gap, AreChars, Paired, At, StringText, White, Fails, FaultHeight;
  }

  lemma {:induction false} SeparatorIsMissing(inp: Input, p: nat, last: seq<Char>, m: Named, at: nat, e: ErrorInfo)
    requires MemberStands(inp, p, m) && White(inp.doc, m.item.end, at) && at <= |inp.doc|
    requires ReadToken(inp.doc, at).start == at && e == ErrorInfo(MissingCommaOrBrace, ReadToken(inp.doc, at), Nowhere)
    requires e.token.kind !in {ObjectEnd, ArraySeparator, CommentToken}
    ensures MembersBefore(inp, p, [], p) && LastKey(last, []) == last && MemberFails(inp, p, last, NoSeparator(m, at), e)
    ensures MembersHeight([]) == 0 && MemberHeight(NoSeparator(m, at)) == Height(m.item)
  {
    hide MemberStands, White, ReadToken, Height;
  }

  lemma {:induction false} MembersMore(
      inp: Input, p: nat, last: seq<Char>, m: Named, rest: seq<Named>, q: nat, depth: int)
    returns (ms: seq<Named>)
    requires MemberStands(inp, p, m) && Separated(inp.doc, m.item.end, m.next) && MembersBefore(inp, m.next, rest, q)
    requires depth + Height(m.item) <= STACK_LIMIT && depth + MembersHeight(rest) <= STACK_LIMIT
    ensures MembersBefore(inp, p, ms, q) && depth + MembersHeight(ms) <= STACK_LIMIT
    ensures LastKey(last, ms) == LastKey(m.key, rest)
  {
    hide MemberStands, Separated, Height;
    ms := [m] + rest;
    assert ms[1..] == rest;
  }

  /** The document starts with a fault at most 1000 levels deep. */
  ghost predicate Refused(inp: Input, f: Fault, e: ErrorInfo) {
    Fails(inp, 0, f, e) && FaultHeight(f) <= 1000
  }

  /** The document starts with a scalar, and should not. */
  ghost predicate BareScalar(inp: Input, t: Tree) {
    inp.strictRoot && Lead(inp, 0, t.start) && Stands(inp, t) && !t.shape.TArray? && !t.shape.TObject?
  }

  /** parse returns false exactly for the documents with a fault, and for those with a scalar for a root
      that has to be a container. The first error is that of the fault. */
  lemma {:induction false} RefusedExactly(inp: Input, cur: Value)
    ensures Parse(inp, cur).status == Bad <==> (exists f, e :: Refused(inp, f, e)) || (exists t :: BareScalar(inp, t))
    ensures forall f, e :: Refused(inp, f, e) ==> Parse(inp, cur).st.errors != [] && Parse(inp, cur).st.errors[0] == e
  {
    hide *;
    forall f, e | Refused(inp, f, e)
      ensures Parse(inp, cur).status == Bad && Parse(inp, cur).st.errors != [] && Parse(inp, cur).st.errors[0] == e
    {
      RefusedParses(inp, cur, f, e);
    }
    forall t | BareScalar(inp, t) ensures Parse(inp, cur).status == Bad {
      ScalarParses(inp, cur, t);
    }
    if Parse(inp, cur).status == Bad { ParsedIsRefused(inp, cur); }
  }

  lemma {:induction false} RefusedParses(inp: Input, cur: Value, f: Fault, e: ErrorInfo)
    requires Refused(inp, f, e)
    ensures var r := Parse(inp, cur); r.status == Bad && r.st.errors != [] && r.st.errors[0] == e
  {
    hide Parse, Fails, FaultHeight;
    FaultIsReported(inp, cur, f, e);
  }

  lemma {:induction false} ScalarParses(inp: Input, cur: Value, t: Tree)
    requires BareScalar(inp, t)
    ensures Parse(inp, cur).status == Bad
  {
    hide ReadValue, Parse, Lead, Stands, TreeValue;
    ParseByValue(inp, cur);
    InsideOf(inp, t);
    StandsReads(inp, State(0, [], 0), cur, t);
    RootShape(inp.doc, t);
  }

  lemma {:induction false} ParsedIsRefused(inp: Input, cur: Value)
    requires Parse(inp, cur).status == Bad
    ensures (exists f, e :: Refused(inp, f, e)) || (exists t :: BareScalar(inp, t))
  {
    hide ReadValue, Parse, Lead, Stands, TreeValue, Fails, FaultHeight;
    var st := State(0, [], 0);
    ParseByValue(inp, cur);
    if ReadValue(inp, st, cur).status == Bad {
      var f, e := FaultOf(inp, st, cur);
      assert Refused(inp, f, e);
    } else {
      var t := ValueStands(inp, st, cur);
      StandsReads(inp, st, cur, t);
      RootShape(inp.doc, t);
      assert BareScalar(inp, t);
    }
  }

  /** Two values of an object with nothing in between: `{"":1 2` is refused at the second one. */
  lemma {:induction false} MissingCommaExample(inp: Input, cur: Value)
    requires inp.doc == Ascii("{\"\":1 2") && !inp.allowComments
    ensures var r := Parse(inp, cur);
      && r.status == Bad
      && r.st.errors == [ErrorInfo(MissingCommaOrBrace, Token(NumberToken, 6, 7), Nowhere)]
  {
    hide *;
    var m := Named(1, [], 3, Tree(4, 5, TNumber(5, 5)), 0);
    var f := InObject(0, [], 1, NoSeparator(m, 6));
    ExampleFails(inp, m, f);
    FaultIsReported(inp, cur, f, ErrorInfo(MissingCommaOrBrace, Token(NumberToken, 6, 7), Nowhere));
  }

  lemma {:induction false} ExampleFails(inp: Input, m: Named, f: Fault)
    requires inp.doc == Ascii("{\"\":1 2") && !inp.allowComments
    requires m == Named(1, [], 3, Tree(4, 5, TNumber(5, 5)), 0) && f == InObject(0, [], 1, NoSeparator(m, 6))
    ensures Fails(inp, 0, f, ErrorInfo(MissingCommaOrBrace, Token(NumberToken, 6, 7), Nowhere))
    ensures FaultHeight(f) <= 1000 && f.InObject?
  {
    hide ReadToken, IsWord, NumberValue;
    var doc := inp.doc;
    assert doc == [123, 34, 34, 58, 49, 32, 50];
    assert IsNumber(doc, 6, 7, 7, 7) && IsNumber(doc, 4, 5, 5, 5);
    NumberStarts(doc, 6, 7, 7, 7);
    assert Gap(doc, 1, 1);
    assert StringAt(doc, 1, [], 3) by { assert StringText([]) == [34] + ([] + [34]); }
    OneIsWord(doc[4..5]);
  }
}
