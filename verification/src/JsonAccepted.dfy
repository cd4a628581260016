/** Exactly which documents the reader takes, the leniences included, and the value it makes of them. */
module JsonAccepted {
  import opened Bytes
  import opened Numerals
  import opened JsonValue
  import opened JsonLexer
  import opened JsonText
  import opened JsonDecode
  import opened JsonStrings
  import opened JsonParse
  import opened JsonReadBack
  import opened JsonGrammar

  // ---------------------------------------------------------------- white space and comments

  predicate ByteIs(doc: bytes, p: nat, b: byte) {
    p < |doc| && doc[p] == b
  }

  predicate White(doc: bytes, p: nat, q: nat) {
    p <= q <= |doc| && forall k :: p <= k < q ==> doc[k] in {9, 10, 13, 32}
  }

  /** A C comment: it ends with the first star and slash behind its first two bytes. */
  predicate IsBlock(doc: bytes, p: nat, q: nat) {
    && p + 4 <= q <= |doc| && doc[p] == 47 && doc[p + 1] == 42 && doc[q - 2] == 42 && doc[q - 1] == 47
    && forall k :: p + 2 <= k < q - 2 ==> !(doc[k] == 42 && doc[k + 1] == 47)
  }

  /** A C++ comment: two slashes, a line ended at `n`, and its line end up to q. */
  predicate IsRest(doc: bytes, p: nat, n: nat, q: nat) {
    && p + 2 <= n <= q <= |doc| && doc[p] == 47 && doc[p + 1] == 47
    && (forall k :: p + 2 <= k < n ==> doc[k] !in {10, 13})
    && (if n == |doc| then q == n
        else if doc[n] == 10 then q == n + 1
        else doc[n] == 13 && q == if ByteIs(doc, n + 1, 10) then n + 2 else n + 1)
  }

  ghost predicate IsComment(doc: bytes, p: nat, q: nat) {
    IsBlock(doc, p, q) || exists n: nat :: IsRest(doc, p, n, q)
  }

  /** White space and comments. */
  ghost predicate Gap(doc: bytes, p: nat, q: nat)
    decreases q - p
  {
    || (p == q <= |doc|)
    || (p < q <= |doc| && White(doc, p, p + 1) && Gap(doc, p + 1, q))
    || (exists k: nat :: p < k <= q && IsComment(doc, p, k) && Gap(doc, k, q))
  }

  /** What may stand in front of a value. */
  ghost predicate Lead(inp: Input, p: nat, q: nat) {
    if inp.allowComments then Gap(inp.doc, p, q) else White(inp.doc, p, q)
  }

  // ---------------------------------------------------------------- numbers

  predicate DigitRun(doc: bytes, p: nat, q: nat) {
    && p <= q <= |doc| && (forall k :: p <= k < q ==> 48 <= doc[k] <= 57)
    && !(q < |doc| && 48 <= doc[q] <= 57)
  }

  /** A number from p to q: a digit or a minus sign, digits up to a, a fraction up to b, and an
      exponent. Any of the digits behind the first byte may be missing, but none that is there is
      left out. */
  predicate IsNumber(doc: bytes, p: nat, a: nat, b: nat, q: nat) {
    && p < |doc| && (48 <= doc[p] <= 57 || doc[p] == 45) && DigitRun(doc, p + 1, a)
    && (if ByteIs(doc, a, 46) then DigitRun(doc, a + 1, b) else b == a)
    && (if ByteIs(doc, b, 101) || ByteIs(doc, b, 69) then
          DigitRun(doc, if ByteIs(doc, b + 1, 43) || ByteIs(doc, b + 1, 45) then b + 2 else b + 1, q)
        else q == b)
  }

  /** The text is an integer of the 64-bit range: digits, perhaps behind a minus sign, and none at
      all is 0. */
  predicate IsWord(text: bytes) {
    && AllDigits(Digits(text))
    && DigitsValue(Digits(text)) <=
         if text != [] && text[0] == 45 then 0x8000_0000_0000_0000 else 0xFFFF_FFFF_FFFF_FFFF
  }

  function NumberValue(text: bytes): Value {
    if !IsWord(text) then Real(text)
    else
      var n: int := DigitsValue(Digits(text));
      if text != [] && text[0] == 45 then Int(-n) else if n <= 0x7FFF_FFFF then Int(n) else UInt(n)
  }

  // ---------------------------------------------------------------- trees with the places of their parts

  datatype Tree = Tree(start: nat, end: nat, shape: Shape)

  datatype Shape =
    | TNull
    | TBool(b: bool)
    | TNumber(point: nat, exponent: nat)
    | TString(chars: seq<Char>)
    | TArray(items: seq<Entry>)
    | TObject(members: seq<Named>)

  /** An item, and where the comma or the bracket behind it stands. */
  datatype Entry = Entry(item: Tree, mark: nat)

  /** A member: the places of its name and its colon, and of what follows the separator behind it. */
  datatype Named = Named(name: nat, key: seq<Char>, colon: nat, item: Tree, next: nat)

  predicate StringAt(doc: bytes, p: nat, cs: seq<Char>, q: nat) {
    AreChars(cs) && Paired(cs) && At(doc, p, StringText(cs)) && q == p + |StringText(cs)|
  }

  /** A brace or bracket behind white space. */
  ghost predicate Shut(doc: bytes, p: nat, close: byte, q: nat) {
    exists m: nat :: White(doc, p, m) && ByteIs(doc, m, close) && q == m + 1
  }

  /** A closing brace behind white space and comments. */
  ghost predicate ShutLate(doc: bytes, p: nat, q: nat) {
    exists m: nat :: Gap(doc, p, m) && ByteIs(doc, m, 125) && q == m + 1
  }

  /** White space and a comment. */
  ghost predicate Remark(doc: bytes, p: nat, q: nat) {
    exists m: nat :: White(doc, p, m) && IsComment(doc, m, q)
  }

  /** One token that is neither a comment nor a closing brace. */
  predicate AnyToken(doc: bytes, p: nat, q: nat) {
    p <= |doc| && ReadToken(doc, p).start == p && ReadToken(doc, p).end == q
    && ReadToken(doc, p).kind !in {CommentToken, ObjectEnd}
  }

  /** What separates members: a comma, or a comment and then any one token. */
  ghost predicate Separated(doc: bytes, p: nat, q: nat) {
    || Shut(doc, p, 44, q)
    || exists k: nat, n: nat :: Remark(doc, p, k) && Gap(doc, k, n) && AnyToken(doc, n, q)
  }

  /** The closing brace behind a member. */
  ghost predicate Closed(doc: bytes, p: nat, q: nat) {
    || Shut(doc, p, 125, q)
    || exists k: nat :: Remark(doc, p, k) && ShutLate(doc, k, q)
  }

  /** The tree stands in the document. */
  ghost predicate Stands(inp: Input, t: Tree)
    decreases t
  {
    && t.start < t.end <= |inp.doc|
    && match t.shape
       case TNull => At(inp.doc, t.start, Ascii("null")) && t.end == t.start + 4
       case TBool(b) =>
         if b then At(inp.doc, t.start, Ascii("true")) && t.end == t.start + 4
         else At(inp.doc, t.start, Ascii("false")) && t.end == t.start + 5
       case TNumber(a, b) =>
         && IsNumber(inp.doc, t.start, a, b, t.end)
         && (IsWord(inp.doc[t.start..t.end]) || inp.isDouble(inp.doc[t.start..t.end]))
       case TString(cs) => StringAt(inp.doc, t.start, cs, t.end)
       case TArray(items) =>
         && inp.doc[t.start] == 91
         && if items == [] then Shut(inp.doc, t.start + 1, 93, t.end) else ItemsStand(inp, t.start + 1, items, t.end)
       case TObject(ms) => inp.doc[t.start] == 123 && MembersStand(inp, t.start + 1, [], ms, t.end)
  }

  /** The items stand from p on, with commas in between, and the bracket behind the last ends at q. */
  ghost predicate ItemsStand(inp: Input, p: nat, items: seq<Entry>, q: nat)
    requires items != []
    decreases items
  {
    var e := items[0];
    assert e.item < e;
    && Lead(inp, p, e.item.start) && Stands(inp, e.item) && Gap(inp.doc, e.item.end, e.mark)
    && if |items| == 1 then ByteIs(inp.doc, e.mark, 93) && q == e.mark + 1
       else ByteIs(inp.doc, e.mark, 44) && ItemsStand(inp, e.mark + 1, items[1..], q)
  }

  /** The members stand from p on, and the brace behind them ends at q. Behind a separator there is
      another member, or a brace if the last name was empty; `last` is the name in front of p. */
  ghost predicate MembersStand(inp: Input, p: nat, last: seq<Char>, ms: seq<Named>, q: nat)
    decreases ms
  {
    if ms == [] then last == [] && ShutLate(inp.doc, p, q)
    else
      var m := ms[0];
      && MemberStands(inp, p, m)
      && (|| (|ms| == 1 && Closed(inp.doc, m.item.end, q))
          || (Separated(inp.doc, m.item.end, m.next) && MembersStand(inp, m.next, m.key, ms[1..], q)))
  }

  /** A name, a colon and a value. */
  ghost predicate MemberStands(inp: Input, p: nat, m: Named)
    decreases m
  {
    && Gap(inp.doc, p, m.name)
    && StringAt(inp.doc, m.name, m.key, m.name + |StringText(m.key)|)
    && White(inp.doc, m.name + |StringText(m.key)|, m.colon) && ByteIs(inp.doc, m.colon, 58)
    && Lead(inp, m.colon + 1, m.item.start) && Stands(inp, m.item)
  }

  /** The value of a tree that stands in the document. */
  function TreeValue(doc: bytes, t: Tree): Value
    decreases t
  {
    match t.shape
    case TNull => Null
    case TBool(b) => Bool(b)
    case TNumber(_, _) => if t.start <= t.end <= |doc| then NumberValue(doc[t.start..t.end]) else Null
    case TString(cs) => Str(TextOf(cs))
    case TArray(items) => Array(Slots(doc, items))
    case TObject(ms) => Object(Fields(doc, [], ms))
  }

  function TextOf(cs: seq<Char>): bytes {
    if AreChars(cs) && Paired(cs) then Meaning(cs) else []
  }

  function Slots(doc: bytes, items: seq<Entry>): seq<Slot>
    decreases items
  {
    if items == [] then []
    else
      assert items[0].item < items[0];
      [Item(TreeValue(doc, items[0].item))] + Slots(doc, items[1..])
  }

  /** Of members with the same name the last one counts. */
  function Fields(doc: bytes, acc: seq<Member>, ms: seq<Named>): seq<Member>
    decreases ms
  {
    if ms == [] then acc
    else Fields(doc, Store(acc, TextOf(ms[0].key), TreeValue(doc, ms[0].item)), ms[1..])
  }

  function Height(t: Tree): (n: nat)
    ensures n >= 1
    decreases t
  {
    match t.shape
    case TArray(items) => 1 + ItemsHeight(items)
    case TObject(ms) => 1 + MembersHeight(ms)
    case _ => 1
  }

  function ItemsHeight(items: seq<Entry>): nat
    decreases items
  {
    if items == [] then 0
    else
      assert items[0].item < items[0];
      Max(Height(items[0].item), ItemsHeight(items[1..]))
  }

  function MembersHeight(ms: seq<Named>): nat
    decreases ms
  {
    if ms == [] then 0 else Max(Height(ms[0].item), MembersHeight(ms[1..]))
  }

  // ---------------------------------------------------------------- tokens in the document

  lemma WhiteIsBlank(doc: bytes, p: nat, q: nat)
    requires White(doc, p, q)
    ensures forall k :: p <= k < q ==> IsBlank(doc[k])
    ensures ReadToken(doc, p) == ReadToken(doc, q)
  {
    hide TokenRest, SkipSpaces;
    SkipSpacesOver(doc, p, q - p);
  }

  /** A token and the white space in front of it. */
  lemma TokenBehindWhite(doc: bytes, p: nat)
    requires p <= |doc|
    ensures var t := ReadToken(doc, p);
      && White(doc, p, t.start) && ReadToken(doc, t.start) == t
      && (t.start < |doc| ==> !IsBlank(doc[t.start]))
  {
    hide TokenRest;
    var t := ReadToken(doc, p);
    assert SkipSpaces(doc, t.start) == t.start;
  }

  lemma PunctuationExactly(doc: bytes, p: nat)
    requires p < |doc| && !IsBlank(doc[p])
    ensures var t := ReadToken(doc, p);
      && t.start == p
      && (t.kind == ObjectBegin <==> doc[p] == 123) && (t.kind == ObjectEnd <==> doc[p] == 125)
      && (t.kind == ArrayBegin <==> doc[p] == 91) && (t.kind == ArrayEnd <==> doc[p] == 93)
      && (t.kind == ArraySeparator <==> doc[p] == 44) && (t.kind == MemberSeparator <==> doc[p] == 58)
      && (t.kind in {ObjectBegin, ObjectEnd, ArrayBegin, ArrayEnd, ArraySeparator, MemberSeparator} ==> t.end == p + 1)
  {
    hide StringEnd, NumberEnd, CommentEnd, Matches;
    assert SkipSpaces(doc, p) == p;
  }

  lemma WordsExactly(doc: bytes, p: nat)
    requires p < |doc| && !IsBlank(doc[p])
    ensures var t := ReadToken(doc, p);
      && (t.kind == NullToken <==> At(doc, p, Ascii("null"))) && (t.kind == NullToken ==> t.end == p + 4)
      && (t.kind == TrueToken <==> At(doc, p, Ascii("true"))) && (t.kind == TrueToken ==> t.end == p + 4)
      && (t.kind == FalseToken <==> At(doc, p, Ascii("false"))) && (t.kind == FalseToken ==> t.end == p + 5)
  {
    hide StringEnd, NumberEnd, CommentEnd, At;
    assert SkipSpaces(doc, p) == p;
    Words();
    OneByte(doc, p);
    AtConcat(doc, p, [110], ULL);
    AtConcat(doc, p, [116], RUE);
    AtConcat(doc, p, [102], ALSE);
  }

  lemma Words()
    ensures Ascii("null") == [110] + ULL && Ascii("true") == [116] + RUE && Ascii("false") == [102] + ALSE
  {
  }

  lemma OneByte(doc: bytes, p: nat)
    requires p < |doc|
    ensures forall b: byte :: At(doc, p, [b]) <==> doc[p] == b
  {
    assert doc[p..p + 1] == [doc[p]];
  }

  lemma {:induction false} LongTokens(doc: bytes, p: nat)
    requires p < |doc| && !IsBlank(doc[p])
    ensures var t := ReadToken(doc, p);
      && (t.kind == NumberToken <==> 48 <= doc[p] <= 57 || doc[p] == 45)
      && (t.kind == NumberToken ==> t.end == NumberEnd(doc, p + 1))
      && (t.kind == StringToken <==> doc[p] == 34 && StringEnd(doc, p + 1).0)
      && (t.kind == StringToken ==> t.end == StringEnd(doc, p + 1).1)
      && (t.kind == CommentToken <==> doc[p] == 47 && CommentEnd(doc, p + 1).0)
      && (t.kind == CommentToken ==> t.end == CommentEnd(doc, p + 1).1)
  {
    hide StringEnd, NumberEnd, CommentEnd, Matches;
    assert SkipSpaces(doc, p) == p;
  }

  lemma NotAtTheEnd(doc: bytes, p: nat)
    requires p <= |doc| && ReadToken(doc, p).kind != EndOfStream
    ensures ReadToken(doc, p).start < |doc|
  {
    hide TokenRest, SkipSpaces;
  }

  // ---------------------------------------------------------------- comments

  lemma {:induction false} BlockLoop(doc: bytes, p: nat, q: nat)
    requires p + 2 <= q <= |doc| && doc[q - 2] == 42 && doc[q - 1] == 47
    requires forall k :: p <= k < q - 2 ==> !(doc[k] == 42 && doc[k + 1] == 47)
    ensures CCommentLoop(doc, p) == q - 1
    decreases q - p
  {
    if p + 2 < q { BlockLoop(doc, p + 1, q); }
  }

  lemma {:induction false} LoopBlock(doc: bytes, p: nat)
    requires p <= |doc| && ByteAt(doc, CCommentLoop(doc, p)) == 47
    ensures var e := CCommentLoop(doc, p);
      && p < e < |doc| && doc[e - 1] == 42 && doc[e] == 47
      && forall k :: p <= k < e - 1 ==> !(doc[k] == 42 && doc[k + 1] == 47)
    decreases |doc| - p
  {
    if p < |doc| && !(doc[p] == STAR && ByteAt(doc, p + 1) == SLASH) { LoopBlock(doc, p + 1); }
  }

  lemma {:induction false} RestLoop(doc: bytes, p: nat, n: nat)
    requires p <= n <= |doc| && forall k :: p <= k < n ==> doc[k] !in {10, 13}
    requires n < |doc| ==> doc[n] in {10, 13}
    ensures CppCommentEnd(doc, p) ==
      if n == |doc| then n else if doc[n] == 13 && ByteIs(doc, n + 1, 10) then n + 2 else n + 1
    decreases n - p
  {
    if p < n { RestLoop(doc, p + 1, n); }
  }

  /** Where the line ends. */
  lemma {:induction false} LineEnd(doc: bytes, p: nat) returns (n: nat)
    requires p <= |doc|
    ensures p <= n <= |doc| && (forall k :: p <= k < n ==> doc[k] !in {10, 13})
    ensures n < |doc| ==> doc[n] in {10, 13}
    decreases |doc| - p
  {
    if p == |doc| || doc[p] in {10, 13} { n := p; } else { n := LineEnd(doc, p + 1); }
  }

  /** A comment token is a comment. */
  lemma {:induction false} TokenIsComment(doc: bytes, p: nat)
    requires p < |doc| && doc[p] == 47 && CommentEnd(doc, p + 1).0
    ensures IsComment(doc, p, CommentEnd(doc, p + 1).1)
  {
    hide CCommentLoop, CppCommentEnd;
    if ByteAt(doc, p + 1) == STAR {
      LoopBlock(doc, p + 2);
      assert IsBlock(doc, p, CommentEnd(doc, p + 1).1);
    } else {
      var n := LineEnd(doc, p + 2);
      RestLoop(doc, p + 2, n);
      assert IsRest(doc, p, n, CommentEnd(doc, p + 1).1);
    }
  }

  /** A comment is one token. */
  lemma {:induction false} CommentIsToken(doc: bytes, p: nat, q: nat)
    requires IsComment(doc, p, q)
    ensures p + 2 <= q <= |doc| && ReadToken(doc, p) == Token(CommentToken, p, q)
  {
    hide CCommentLoop, CppCommentEnd, ReadToken;
    if IsBlock(doc, p, q) {
      BlockLoop(doc, p + 2, q);
    } else {
      var n: nat :| IsRest(doc, p, n, q);
      RestLoop(doc, p + 2, n);
    }
    LongTokens(doc, p);
    StartsHere(doc, p);
  }

  lemma StartsHere(doc: bytes, p: nat)
    requires p < |doc| && !IsBlank(doc[p])
    ensures ReadToken(doc, p).start == p
  {
    hide TokenRest;
  }

  // ---------------------------------------------------------------- gaps

  lemma {:induction false} WhiteThenGap(doc: bytes, p: nat, m: nat, q: nat)
    requires White(doc, p, m) && Gap(doc, m, q)
    ensures Gap(doc, p, q)
    decreases m - p
  {
    hide IsComment;
    GapBounds(doc, m, q);
    if p < m { WhiteThenGap(doc, p + 1, m, q); }
  }

  lemma {:induction false} GapBounds(doc: bytes, p: nat, q: nat)
    requires Gap(doc, p, q)
    ensures p <= q <= |doc|
    decreases q - p
  {
    hide IsComment;
    if p < q && exists k: nat :: p < k <= q && IsComment(doc, p, k) && Gap(doc, k, q) {
      var k: nat :| p < k <= q && IsComment(doc, p, k) && Gap(doc, k, q);
      GapBounds(doc, k, q);
    }
  }

  /** In front of the next token that is no comment there is a gap. */
  lemma {:induction false} TokenBehindGap(doc: bytes, p: nat)
    requires p <= |doc|
    ensures var t := SkipComments(doc, p);
      && Gap(doc, p, t.start) && ReadToken(doc, t.start) == t
      && (t.start < |doc| ==> !IsBlank(doc[t.start]))
    decreases |doc| - p
  {
    hide ReadToken, White, IsComment, IsBlank;
    var t := ReadToken(doc, p);
    TokenBehindWhite(doc, p);
    if t.kind == CommentToken {
      NotAtTheEnd(doc, p);
      LongTokens(doc, t.start);
      TokenIsComment(doc, t.start);
      TokenBehindGap(doc, t.end);
      var s := SkipComments(doc, p);
      assert Gap(doc, t.start, s.start) by { GapBounds(doc, t.end, s.start); }
      WhiteThenGap(doc, p, t.start, s.start);
    } else {
      assert Gap(doc, t.start, t.start);
      WhiteThenGap(doc, p, t.start, t.start);
    }
  }

  /** A gap is passed over. */
  lemma {:induction false} GapIsSkipped(doc: bytes, p: nat, q: nat)
    requires Gap(doc, p, q)
    ensures p <= q <= |doc| && SkipComments(doc, p) == SkipComments(doc, q)
    decreases q - p
  {
    hide ReadToken, White, IsComment;
    GapBounds(doc, p, q);
    if p < q {
      if White(doc, p, p + 1) && Gap(doc, p + 1, q) {
        WhiteIsBlank(doc, p, p + 1);
        GapIsSkipped(doc, p + 1, q);
      } else {
        var k: nat :| p < k <= q && IsComment(doc, p, k) && Gap(doc, k, q);
        CommentIsToken(doc, p, k);
        GapIsSkipped(doc, k, q);
      }
    }
  }

  /** The token behind what may stand in front of a value. */
  lemma FirstBehindLead(inp: Input, p: nat)
    requires p <= |inp.doc|
    ensures var t := FirstToken(inp, p);
      && Lead(inp, p, t.start) && ReadToken(inp.doc, t.start) == t
      && (t.start < |inp.doc| ==> !IsBlank(inp.doc[t.start]))
  {
    hide ReadToken, SkipComments, Gap, White, IsBlank;
    if inp.allowComments { TokenBehindGap(inp.doc, p); } else { TokenBehindWhite(inp.doc, p); }
  }

  lemma LeadIsSkipped(inp: Input, p: nat, q: nat)
    requires Lead(inp, p, q)
    ensures p <= q <= |inp.doc|
    ensures ReadToken(inp.doc, q).kind != CommentToken ==> FirstToken(inp, p) == ReadToken(inp.doc, q)
  {
    hide ReadToken, SkipComments, Gap;
    if inp.allowComments {
      GapIsSkipped(inp.doc, p, q);
      if ReadToken(inp.doc, q).kind != CommentToken { NoComment(inp.doc, q); }
    } else {
      WhiteIsBlank(inp.doc, p, q);
    }
  }

  // ---------------------------------------------------------------- numbers and strings in the document

  lemma {:induction false} DigitRunExactly(doc: bytes, p: nat, q: nat)
    requires p <= |doc|
    ensures DigitRun(doc, p, q) <==> SkipDigits(doc, p) == q
  {
    if DigitRun(doc, p, q) { SkipDigitsOver(doc, p, q - p); }
  }

  /** The number at p, and where it ends. */
  lemma {:induction false} NumberExactly(doc: bytes, p: nat, a: nat, b: nat, q: nat)
    requires p < |doc| && (48 <= doc[p] <= 57 || doc[p] == 45)
    requires a == SkipDigits(doc, p + 1) && b == FractionEnd(doc, a)
    ensures IsNumber(doc, p, a, b, q) <==> q == NumberEnd(doc, p + 1)
  {
    hide SkipDigits, DigitRun;
    DigitRunExactly(doc, p + 1, a);
    if ByteIs(doc, a, 46) { DigitRunExactly(doc, a + 1, b); }
    if ByteIs(doc, b, 101) || ByteIs(doc, b, 69) {
      DigitRunExactly(doc, if ByteIs(doc, b + 1, 43) || ByteIs(doc, b + 1, 45) then b + 2 else b + 1, q);
    }
  }

  lemma {:induction false} NumberPlaces(doc: bytes, p: nat, a: nat, b: nat, q: nat)
    requires IsNumber(doc, p, a, b, q)
    ensures a == SkipDigits(doc, p + 1) && b == FractionEnd(doc, a)
  {
    hide SkipDigits, DigitRun;
    DigitRunExactly(doc, p + 1, a);
    if ByteIs(doc, a, 46) { DigitRunExactly(doc, a + 1, b); }
  }

  lemma {:induction false} WordDecodes(text: bytes)
    ensures DecodeNumber(text) == if IsWord(text) then Integer(NumberValue(text)) else Double
    ensures !IsWord(text) ==> NumberValue(text) == Real(text)
  {
    hide DigitsValue, AllDigits;
  }

  lemma {:induction false} DigitsOfEscape(doc: bytes, p: nat, end: nat)
    requires p <= end <= |doc| && DecodeEscape(doc, p, end).HexValue?
    ensures p + 4 <= end && forall k :: p <= k < p + 4 ==> HexDigitValue(doc[k]) >= 0
  {
    hide HexLoop, HexDigitValue;
    HexLoopUnfold(doc, p, 4, 0);
    var a := HexDigitValue(doc[p]);
    HexLoopUnfold(doc, p + 1, 3, 0 * 16 + a);
    var b := HexDigitValue(doc[p + 1]);
    HexLoopUnfold(doc, p + 2, 2, (0 * 16 + a) * 16 + b);
    var c := HexDigitValue(doc[p + 2]);
    HexLoopUnfold(doc, p + 3, 1, ((0 * 16 + a) * 16 + b) * 16 + c);
  }

  /** A \u escape in the document. */
  lemma {:induction false} UnitAt(doc: bytes, p: nat, end: nat) returns (c: Char)
    requires p + 2 <= end < |doc| && doc[p] == BACKSLASH && doc[p + 1] == LOWER_U
    requires DecodeEscape(doc, p + 2, end).HexValue?
    ensures c.Unit? && IsChar(c) && At(doc, p, CharText(c)) && |CharText(c)| == 6 && p + 6 <= end
    ensures DecodeEscape(doc, p + 2, end) == HexValue(UnitValue(c.digits), p + 6)
    ensures StringEnd(doc, p) == StringEnd(doc, p + 6)
  {
    hide HexDigitValue, DecodeEscape, UnitValue, StringEnd;
    DigitsOfEscape(doc, p + 2, end);
    c := Unit(doc[p + 2..p + 6]);
    assert c.digits == [doc[p + 2], doc[p + 3], doc[p + 4], doc[p + 5]];
    assert doc[p..p + 6] == [BACKSLASH, LOWER_U] + c.digits;
    UnitDecodes(doc, p + 2, end, c.digits);
    StringEndOverChar(doc, p, c);
  }

  /** What decodeString reads without an error are characters. */
  lemma {:induction false} CharsOf(doc: bytes, p: nat, end: nat, acc: bytes) returns (cs: seq<Char>)
    requires p <= end < |doc| && StringEnd(doc, p) == (true, end + 1) && DecodeLoop(doc, p, end, acc).Text?
    ensures AreChars(cs) && Paired(cs) && At(doc, p, CharsText(cs)) && p + |CharsText(cs)| == end
    decreases end - p
  {
    hide *;
    if p == end {
      cs := [];
      NoChars(doc, p);
    } else {
      StringTurn(doc, p, end, acc);
      if doc[p] != BACKSLASH {
        var rest := CharsOf(doc, p + 1, end, acc + [doc[p]]);
        PlainAt(doc, p);
        cs := MoreChars(doc, p, end, Plain(doc[p]), rest);
      } else if doc[p + 1] != LOWER_U {
        var rest := CharsOf(doc, p + 2, end, acc + [Unescape(doc[p + 1])]);
        ShortAt(doc, p);
        cs := MoreChars(doc, p, end, Short(doc[p + 1]), rest);
      } else {
        cs := UnitsOf(doc, p, end, acc);
      }
    }
  }

  lemma {:induction false} UnitsOf(doc: bytes, p: nat, end: nat, acc: bytes) returns (cs: seq<Char>)
    requires p + 2 <= end < |doc| && StringEnd(doc, p) == (true, end + 1) && DecodeLoop(doc, p, end, acc).Text?
    requires doc[p] == BACKSLASH && doc[p + 1] == LOWER_U
    ensures AreChars(cs) && Paired(cs) && At(doc, p, CharsText(cs)) && p + |CharsText(cs)| == end
    decreases end - p, 0
  {
    hide *;
    UnitTurn(doc, p, end, acc);
    var c := UnitAt(doc, p, end);
    var u := DecodeEscape(doc, p + 2, end).unicode;
    HighExactly(c);
    if !IsHighSurrogate(u) {
      var rest := CharsOf(doc, p + 6, end, acc + Utf8(u));
      cs := MoreChars(doc, p, end, c, rest);
    } else {
      var d := UnitAt(doc, p + 6, end);
      var v := DecodeEscape(doc, p + 8, end).unicode;
      var rest := CharsOf(doc, p + 12, end, acc + Utf8(0x10000 + u % 0x400 * 0x400 + v % 0x400));
      cs := PairThenChars(doc, p, end, c, d, rest);
    }
  }

  lemma HighExactly(c: Char)
    requires IsChar(c) && c.Unit?
    ensures |c.digits| == 4 && forall k :: 0 <= k < 4 ==> HexDigitValue(c.digits[k]) >= 0
    ensures IsHigh(c) <==> IsHighSurrogate(UnitValue(c.digits))
  {
    hide UnitValue;
  }

  lemma {:induction false} NoChars(doc: bytes, p: nat)
    requires p <= |doc|
    ensures AreChars([]) && Paired([]) && CharsText([]) == [] && At(doc, p, [])
  {
  }

  lemma PlainAt(doc: bytes, p: nat)
    requires p < |doc| && doc[p] != QUOTE && doc[p] != BACKSLASH
    ensures var c := Plain(doc[p]);
      IsChar(c) && At(doc, p, CharText(c)) && |CharText(c)| == 1 && !IsHigh(c)
  {
    assert doc[p..p + 1] == [doc[p]];
  }

  lemma ShortAt(doc: bytes, p: nat)
    requires p + 1 < |doc| && doc[p] == BACKSLASH && doc[p + 1] != LOWER_U && Unescape(doc[p + 1]) >= 0
    ensures var c := Short(doc[p + 1]);
      IsChar(c) && At(doc, p, CharText(c)) && |CharText(c)| == 2 && !IsHigh(c)
  {
    assert doc[p..p + 2] == [doc[p], doc[p + 1]];
  }

  /** One turn of the loops of readString and decodeString. */
  lemma {:induction false} StringTurn(doc: bytes, p: nat, end: nat, acc: bytes)
    requires p < end < |doc| && StringEnd(doc, p) == (true, end + 1) && DecodeLoop(doc, p, end, acc).Text?
    ensures doc[p] != QUOTE
    ensures doc[p] != BACKSLASH ==>
      StringEnd(doc, p + 1) == (true, end + 1) && DecodeLoop(doc, p + 1, end, acc + [doc[p]]).Text?
    ensures doc[p] == BACKSLASH ==> p + 2 <= end
    ensures doc[p] == BACKSLASH && doc[p + 1] != LOWER_U ==>
      && StringEnd(doc, p + 2) == (true, end + 1) && 0 <= Unescape(doc[p + 1]) < 256
      && DecodeLoop(doc, p + 2, end, acc + [Unescape(doc[p + 1])]).Text?
  {
    hide DecodeCodePoint, Utf8;
  }

  lemma {:induction false} UnitTurn(doc: bytes, p: nat, end: nat, acc: bytes)
    requires p + 2 <= end < |doc| && DecodeLoop(doc, p, end, acc).Text?
    requires doc[p] == BACKSLASH && doc[p + 1] == LOWER_U
    ensures var u := DecodeEscape(doc, p + 2, end);
      && u.HexValue? && p + 6 <= end
      && (!IsHighSurrogate(u.unicode) ==> DecodeLoop(doc, p + 6, end, acc + Utf8(u.unicode)).Text?)
      && (IsHighSurrogate(u.unicode) ==>
            && p + 12 <= end && doc[p + 6] == BACKSLASH && doc[p + 7] == LOWER_U
            && var v := DecodeEscape(doc, p + 8, end);
               && v.HexValue?
               && DecodeLoop(doc, p + 12, end,
                             acc + Utf8(0x10000 + u.unicode % 0x400 * 0x400 + v.unicode % 0x400)).Text?)
  {
    hide DecodeEscape, Utf8, Unescape;
  }

  lemma {:induction false} MoreChars(doc: bytes, p: nat, end: nat, c: Char, rest: seq<Char>) returns (cs: seq<Char>)
    requires IsChar(c) && !IsHigh(c) && AreChars(rest) && Paired(rest)
    requires At(doc, p, CharText(c)) && At(doc, p + |CharText(c)|, CharsText(rest))
    requires p + |CharText(c)| + |CharsText(rest)| == end
    ensures AreChars(cs) && Paired(cs) && At(doc, p, CharsText(cs)) && p + |CharsText(cs)| == end
  {
    hide IsChar, At, CharText, IsHigh;
    cs := [c] + rest;
    assert cs[1..] == rest;
    AtConcat(doc, p, CharText(c), CharsText(rest));
  }

  lemma {:induction false} PairThenChars(doc: bytes, p: nat, end: nat, c: Char, d: Char, rest: seq<Char>)
    returns (cs: seq<Char>)
    requires IsChar(c) && IsHigh(c) && IsChar(d) && d.Unit? && AreChars(rest) && Paired(rest)
    requires At(doc, p, CharText(c)) && |CharText(c)| == 6 && At(doc, p + 6, CharText(d)) && |CharText(d)| == 6
    requires At(doc, p + 12, CharsText(rest)) && p + 12 + |CharsText(rest)| == end
    ensures AreChars(cs) && Paired(cs) && At(doc, p, CharsText(cs)) && p + |CharsText(cs)| == end
  {
    hide IsChar, At, CharText, IsHigh;
    var tail := [d] + rest;
    cs := [c] + tail;
    assert cs[1..] == tail && tail[1..] == rest && cs[2..] == rest;
    AtConcat(doc, p + 6, CharText(d), CharsText(rest));
    AtConcat(doc, p, CharText(c), CharsText(tail));
  }

  /** A string token that is decoded without an error. */
  lemma {:induction false} StringOf(doc: bytes, p: nat) returns (cs: seq<Char>)
    requires p < |doc| && doc[p] == 34 && StringEnd(doc, p + 1).0
    requires DecodeString(doc, p, StringEnd(doc, p + 1).1).Text?
    ensures StringAt(doc, p, cs, StringEnd(doc, p + 1).1)
  {
    hide *;
    var end := StringEndIs(doc, p);
    cs := CharsOf(doc, p + 1, end, []);
    Enclosed(doc, p, end, cs);
  }

  lemma {:induction false} StringEndIs(doc: bytes, p: nat) returns (end: nat)
    requires p < |doc| && doc[p] == 34 && StringEnd(doc, p + 1).0
    requires DecodeString(doc, p, StringEnd(doc, p + 1).1).Text?
    ensures p + 1 <= end < |doc| && StringEnd(doc, p + 1) == (true, end + 1) && doc[end] == QUOTE
    ensures DecodeLoop(doc, p + 1, end, []).Text?
  {
    hide StringEnd, DecodeLoop;
    end := StringEnd(doc, p + 1).1 - 1;
  }

  lemma {:induction false} Enclosed(doc: bytes, p: nat, end: nat, cs: seq<Char>)
    requires p + 1 <= end < |doc| && doc[p] == 34 && doc[end] == QUOTE
    requires AreChars(cs) && Paired(cs) && At(doc, p + 1, CharsText(cs)) && p + 1 + |CharsText(cs)| == end
    ensures StringAt(doc, p, cs, end + 1)
  {
    hide AreChars, Paired, At, CharsText;
    OneByte(doc, p);
    OneByte(doc, end);
    AtConcat(doc, p + 1, CharsText(cs), [QUOTE]);
    AtConcat(doc, p, [QUOTE], CharsText(cs) + [QUOTE]);
  }

  // ---------------------------------------------------------------- the reader on a tree

  predicate IsScalarTree(t: Tree) {
    !t.shape.TArray? && !t.shape.TObject?
  }

  lemma FirstLetter(doc: bytes, p: nat, w: bytes)
    requires w != [] && At(doc, p, w)
    ensures p < |doc| && doc[p] == w[0]
  {
    assert doc[p..p + |w|][0] == doc[p];
  }

  /** The scalar token of a tree, and what readValue makes of it. */
  lemma {:induction false} ScalarReads(inp: Input, s: State, cur: Value, t: Tree)
    requires Stands(inp, t) && IsScalarTree(t)
    ensures t.end <= |inp.doc|
    ensures var k := ReadToken(inp.doc, t.start);
      && k.start == t.start && k.end == t.end
      && k.kind in {NullToken, TrueToken, FalseToken, NumberToken, StringToken}
      && ReadScalar(inp, s, k, cur) == Result(Good, s.(depth := s.depth - 1), TreeValue(inp.doc, t))
  {
    hide ReadToken, DecodeNumber, DecodeString, At, IsNumber, IsWord, NumberValue, AreChars, Paired, Meaning,
         CharsText, Ascii, IsBlank;
    var doc, p := inp.doc, t.start;
    match t.shape
    case TNull => FirstLetter(doc, p, Ascii("null")); NotBlank(doc, p); StartsHere(doc, p); WordsExactly(doc, p);
    case TBool(b) =>
      FirstLetter(doc, p, if b then Ascii("true") else Ascii("false"));
      NotBlank(doc, p);
      StartsHere(doc, p);
      WordsExactly(doc, p);
    case TNumber(a, b) =>
      NumberStarts(doc, p, a, b, t.end);
      WordDecodes(doc[t.start..t.end]);
    case TString(cs) => StringReads(doc, p, cs);
  }

  lemma NotBlank(doc: bytes, p: nat)
    requires p < |doc| && doc[p] !in {9, 10, 13, 32}
    ensures !IsBlank(doc[p])
  {
  }

  lemma {:induction false} NumberStarts(doc: bytes, p: nat, a: nat, b: nat, q: nat)
    requires IsNumber(doc, p, a, b, q)
    ensures p < |doc| && ReadToken(doc, p) == Token(NumberToken, p, q)
  {
    hide ReadToken, NumberEnd, DigitRun, SkipDigits, FractionEnd;
    NumberPlaces(doc, p, a, b, q);
    NumberExactly(doc, p, a, b, q);
    LongTokens(doc, p);
    StartsHere(doc, p);
  }

  /** What reading to q with `h` more levels comes to. */
  predicate Reaches(r: Result, st: State, h: nat, q: nat, v: Value) {
    if st.depth + h <= STACK_LIMIT then r == Result(Good, st.(pos := q), v) else r.status == Threw
  }

  lemma LeaveReaches(r: Result, st: State, s: State, h: nat, q: nat, v: Value)
    requires s == st.(pos := s.pos, depth := st.depth + 1) && Reaches(r, s, h, q, v)
    ensures Reaches(Leave(r), st, 1 + h, q, v)
  {
  }

  /** The first token of a tree. */
  lemma {:induction false} FirstOfTree(inp: Input, t: Tree)
    requires Stands(inp, t)
    ensures t.start < t.end <= |inp.doc|
    ensures var k := ReadToken(inp.doc, t.start);
      && k.start == t.start && k.kind !in {CommentToken, ArrayEnd}
      && (IsScalarTree(t) ==> k.kind !in {ObjectBegin, ArrayBegin} && k.end == t.end)
      && (t.shape.TArray? ==> k == Token(ArrayBegin, t.start, t.start + 1))
      && (t.shape.TObject? ==> k == Token(ObjectBegin, t.start, t.start + 1))
  {
    hide *;
    if IsScalarTree(t) {
      ScalarReads(inp, State(0, [], 0), Null, t);
      PlacesOf(inp, t);
    } else {
      BracketOf(inp, t);
      PunctuationExactly(inp.doc, t.start);
    }
    Containers(t);
  }

  lemma {:induction false} PlacesOf(inp: Input, t: Tree)
    requires Stands(inp, t)
    ensures t.start < t.end <= |inp.doc|
  {
  }

  lemma {:induction false} BracketOf(inp: Input, t: Tree)
    requires Stands(inp, t) && !IsScalarTree(t)
    ensures t.start < t.end <= |inp.doc| && !IsBlank(inp.doc[t.start])
    ensures inp.doc[t.start] == if t.shape.TArray? then 91 else 123
  {
    hide ItemsStand, MembersStand, Shut;
  }

  lemma Containers(t: Tree)
    ensures IsScalarTree(t) <==> !t.shape.TArray? && !t.shape.TObject?
  {
  }

  lemma {:induction false} InsideOf(inp: Input, t: Tree)
    requires Stands(inp, t)
    ensures t.shape.TArray? ==>
      var items := t.shape.items;
      && (if items == [] then Shut(inp.doc, t.start + 1, 93, t.end) else ItemsStand(inp, t.start + 1, items, t.end))
      && Height(t) == 1 + ItemsHeight(items) && TreeValue(inp.doc, t) == Array(Slots(inp.doc, items))
    ensures t.shape.TObject? ==>
      var ms := t.shape.members;
      && MembersStand(inp, t.start + 1, [], ms, t.end)
      && Height(t) == 1 + MembersHeight(ms) && TreeValue(inp.doc, t) == Object(Fields(inp.doc, [], ms))
    ensures IsScalarTree(t) ==> Height(t) == 1
  {
    hide ItemsStand, MembersStand, Shut, ItemsHeight, MembersHeight, Slots, Fields;
  }

  /** Reading a tree that stands in the document gives its value, or ends in the exception when it has
      too many levels. */
  lemma {:induction false} StandsReads(inp: Input, st: State, cur: Value, t: Tree)
    requires st.pos <= |inp.doc| && st.depth <= STACK_LIMIT && Lead(inp, st.pos, t.start) && Stands(inp, t)
    ensures t.end <= |inp.doc| && Reaches(ReadValue(inp, st, cur), st, Height(t), t.end, TreeValue(inp.doc, t))
    decreases t, 3
  {
    hide *;
    FirstOfTree(inp, t);
    LeadIsSkipped(inp, st.pos, t.start);
    InsideOf(inp, t);
    Containers(t);
    if st.depth == STACK_LIMIT {
      ReadValueAtLimit(inp, st, cur);
      TooHigh(ReadValue(inp, st, cur), st, Height(t), t.end, TreeValue(inp.doc, t));
    } else {
      ReadValueStep(inp, st, cur);
      var token := FirstToken(inp, st.pos);
      var s := st.(pos := token.end, depth := st.depth + 1);
      if t.shape.TArray? {
        ArrayReads(inp, s, t.shape.items, t.end);
        LeaveReaches(ReadArray(inp, s), st, s, ItemsHeight(t.shape.items), t.end, TreeValue(inp.doc, t));
      } else if t.shape.TObject? {
        EmptyName();
        MembersRead(inp, s, [], [], t.shape.members, t.end);
        LeaveReaches(ReadObject(inp, s, [], []), st, s, MembersHeight(t.shape.members), t.end, TreeValue(inp.doc, t));
      } else {
        ScalarReads(inp, s, cur, t);
        JustRight(ReadValue(inp, st, cur), st, s, t.end, TreeValue(inp.doc, t));
      }
    }
  }

  lemma TooHigh(r: Result, st: State, h: nat, q: nat, v: Value)
    requires st.depth == STACK_LIMIT && h >= 1 && r.status == Threw
    ensures Reaches(r, st, h, q, v)
  {
  }

  lemma JustRight(r: Result, st: State, s: State, q: nat, v: Value)
    requires st.depth < STACK_LIMIT && s == st.(pos := q, depth := st.depth + 1)
    requires r == Result(Good, s.(depth := s.depth - 1), v)
    ensures Reaches(r, st, 1, q, v)
  {
  }

  lemma {:induction false} EmptyName()
    ensures TextOf([]) == []
  {
  }

  // ---------------------------------------------------------------- arrays

  lemma {:induction false} ShutToken(doc: bytes, p: nat, close: byte, q: nat)
    requires Shut(doc, p, close, q) && close in {44, 93, 125}
    ensures 0 < q <= |doc| && p <= q
    ensures ReadToken(doc, p) ==
      Token(if close == 44 then ArraySeparator else if close == 93 then ArrayEnd else ObjectEnd, q - 1, q)
  {
    hide ReadToken;
    var m: nat :| White(doc, p, m) && ByteIs(doc, m, close) && q == m + 1;
    WhiteIsBlank(doc, p, m);
    PunctuationExactly(doc, m);
  }

  /** Where readArray looks past white space makes no difference to the first item. */
  lemma {:induction false} PeekedValue(inp: Input, st: State)
    requires st.pos <= |inp.doc| && st.depth < STACK_LIMIT
    ensures ReadValue(inp, st.(pos := SkipSpaces(inp.doc, st.pos)), Null) == ReadValue(inp, st, Null)
  {
    hide ReadValue, ReadToken, SkipSpaces, ReadObject, ReadArray, ReadScalar, Leave;
    var t := st.(pos := SkipSpaces(inp.doc, st.pos));
    PeekArrayEnd(inp.doc, st.pos);
    assert FirstToken(inp, t.pos) == FirstToken(inp, st.pos);
    ReadValueStep(inp, st, Null);
    ReadValueStep(inp, t, Null);
  }

  lemma {:induction false} PeekedItems(inp: Input, st: State)
    requires st.pos <= |inp.doc|
    ensures st.depth < STACK_LIMIT ==>
      ReadItems(inp, st.(pos := SkipSpaces(inp.doc, st.pos)), []) == ReadItems(inp, st, [])
    ensures st.depth >= STACK_LIMIT ==>
      && ReadItems(inp, st.(pos := SkipSpaces(inp.doc, st.pos)), []).status == Threw
      && ReadItems(inp, st, []).status == Threw
  {
    hide ReadValue, SkipSpaces, SkipComments, Recover;
    var t := st.(pos := SkipSpaces(inp.doc, st.pos));
    if st.depth < STACK_LIMIT {
      PeekedValue(inp, st);
    } else {
      ReadValueAtLimit(inp, st, Null);
      ReadValueAtLimit(inp, t, Null);
    }
  }

  lemma {:induction false} ArrayReads(inp: Input, st: State, items: seq<Entry>, q: nat)
    requires st.pos <= |inp.doc| && st.depth <= STACK_LIMIT
    requires if items == [] then Shut(inp.doc, st.pos, 93, q) else ItemsStand(inp, st.pos, items, q)
    ensures q <= |inp.doc|
    ensures Reaches(ReadArray(inp, st), st, ItemsHeight(items), q, Array(Slots(inp.doc, items)))
    decreases items, 2
  {
    hide *;
    ReadArrayStep(inp, st);
    if items == [] {
      ShutToken(inp.doc, st.pos, 93, q);
      NoItems(inp, st, q);
    } else {
      NoBracket(inp, st.pos, items, q);
      PeekedItems(inp, st);
      ItemsRead(inp, st, [], items, q);
      assert [] + Slots(inp.doc, items) == Slots(inp.doc, items);
      SameReach(ReadItems(inp, st, []), ReadArray(inp, st), st, ItemsHeight(items), q, Array(Slots(inp.doc, items)));
    }
  }

  lemma {:induction false} NoItems(inp: Input, st: State, q: nat)
    requires st.depth <= STACK_LIMIT
    ensures Reaches(Result(Good, st.(pos := q), Array([])), st, ItemsHeight([]), q, Array(Slots(inp.doc, [])))
  {
  }

  lemma SameReach(r: Result, s: Result, st: State, h: nat, q: nat, v: Value)
    requires Reaches(r, st, h, q, v) && (st.depth < STACK_LIMIT ==> s == r)
    requires st.depth >= STACK_LIMIT ==> r.status == Threw && s.status == Threw
    ensures Reaches(s, st, h, q, v)
  {
  }

  /** An array with items does not start with its closing bracket. */
  lemma {:induction false} NoBracket(inp: Input, p: nat, items: seq<Entry>, q: nat)
    requires p <= |inp.doc| && items != [] && ItemsStand(inp, p, items, q)
    ensures ReadToken(inp.doc, p).kind != ArrayEnd
  {
    hide *;
    FirstEntry(inp, p, items, q);
    FirstOfTree(inp, items[0].item);
    LeadIsSkipped(inp, p, items[0].item.start);
    if ReadToken(inp.doc, p).kind == ArrayEnd { FirstIsToken(inp, p); }
  }

  lemma {:induction false} FirstEntry(inp: Input, p: nat, items: seq<Entry>, q: nat)
    requires items != [] && ItemsStand(inp, p, items, q)
    ensures var e := items[0];
      && Lead(inp, p, e.item.start) && Stands(inp, e.item) && Gap(inp.doc, e.item.end, e.mark)
      && (if items[1..] == [] then ByteIs(inp.doc, e.mark, 93) && q == e.mark + 1
          else ByteIs(inp.doc, e.mark, 44) && ItemsStand(inp, e.mark + 1, items[1..], q))
  {
    hide Lead, Stands, Gap;
  }

  lemma {:induction false} SlotsOfFirst(doc: bytes, items: seq<Entry>)
    requires items != []
    ensures Slots(doc, items) == [Item(TreeValue(doc, items[0].item))] + Slots(doc, items[1..])
    ensures ItemsHeight(items) == Max(Height(items[0].item), ItemsHeight(items[1..]))
    ensures items[1..] == [] ==> ItemsHeight(items[1..]) == 0 && Slots(doc, items[1..]) == []
  {
    hide TreeValue, Height;
  }

  /** A comma or closing bracket behind a gap. */
  lemma {:induction false} MarkToken(doc: bytes, p: nat, m: nat, b: byte)
    requires Gap(doc, p, m) && ByteIs(doc, m, b) && b in {44, 93, 125}
    ensures p <= m < |doc|
    ensures SkipComments(doc, p) ==
      Token(if b == 44 then ArraySeparator else if b == 93 then ArrayEnd else ObjectEnd, m, m + 1)
  {
    hide ReadToken, Gap, SkipComments;
    GapIsSkipped(doc, p, m);
    PunctuationExactly(doc, m);
    NoComment(doc, m);
  }

  lemma {:induction false} ItemsRead(inp: Input, st: State, acc: seq<Slot>, items: seq<Entry>, q: nat)
    requires st.pos <= |inp.doc| && st.depth <= STACK_LIMIT && items != [] && ItemsStand(inp, st.pos, items, q)
    ensures q <= |inp.doc|
    ensures Reaches(ReadItems(inp, st, acc), st, ItemsHeight(items), q, Array(acc + Slots(inp.doc, items)))
    decreases items, 1
  {
    hide *;
    var doc, e, rest := inp.doc, items[0], items[1..];
    assert e.item < e;
    FirstEntry(inp, st.pos, items, q);
    SlotsOfFirst(doc, items);
    StandsReads(inp, st, Null, e.item);
    MarkToken(doc, e.item.end, e.mark, if rest == [] then 93 else 44);
    var child := ReadValue(inp, st, Null);
    var v := TreeValue(doc, e.item);
    var token := SkipComments(doc, child.st.pos);
    ItemStep(inp, st, acc, child, token);
    if rest != [] {
      var s := st.(pos := e.mark + 1);
      ItemsRead(inp, s, acc + [Item(v)], rest, q);
      AppendStep(acc, Item(v), Slots(doc, rest));
      TwoReach(child, st, s, Height(e.item), e.item.end, v, ReadItems(inp, s, acc + [Item(v)]), ItemsHeight(rest), q,
               Array(acc + Slots(doc, items)), ReadItems(inp, st, acc));
    } else {
      AppendStep(acc, Item(v), []);
      LastReach(child, st, Height(e.item), e.item.end, v, q, Array(acc + Slots(doc, items)), ReadItems(inp, st, acc));
    }
  }

  /** An item, and what is read behind it. */
  lemma TwoReach(child: Result, st: State, s: State, h: nat, m: nat, v: Value, next: Result, g: nat, q: nat, w: Value,
                 r: Result)
    requires Reaches(child, st, h, m, v) && Reaches(next, s, g, q, w) && s == st.(pos := s.pos)
    requires child.status == Threw ==> r.status == Threw
    requires child == Result(Good, st.(pos := m), v) ==> r == next
    ensures Reaches(r, st, Max(h, g), q, w)
  {
  }

  lemma LastReach(child: Result, st: State, h: nat, m: nat, v: Value, q: nat, w: Value, r: Result)
    requires Reaches(child, st, h, m, v)
    requires child.status == Threw ==> r.status == Threw
    requires child == Result(Good, st.(pos := m), v) ==> r == Result(Good, st.(pos := q), w)
    ensures Reaches(r, st, Max(h, 0), q, w)
  {
  }

  // ---------------------------------------------------------------- objects

  lemma {:induction false} FirstNamed(inp: Input, p: nat, last: seq<Char>, ms: seq<Named>, q: nat)
    requires MembersStand(inp, p, last, ms, q)
    ensures ms == [] ==> last == [] && ShutLate(inp.doc, p, q)
    ensures ms != [] ==>
      var m := ms[0];
      && MemberStands(inp, p, m)
      && ((ms[1..] == [] && Closed(inp.doc, m.item.end, q))
          || (Separated(inp.doc, m.item.end, m.next) && MembersStand(inp, m.next, m.key, ms[1..], q)))
  {
    hide MemberStands, ShutLate, Closed, Separated;
  }

  lemma {:induction false} FieldsOfFirst(doc: bytes, acc: seq<Member>, ms: seq<Named>)
    ensures ms == [] ==> Fields(doc, acc, ms) == acc && MembersHeight(ms) == 0
    ensures ms != [] ==>
      && Fields(doc, acc, ms) == Fields(doc, Store(acc, TextOf(ms[0].key), TreeValue(doc, ms[0].item)), ms[1..])
      && MembersHeight(ms) == Max(Height(ms[0].item), MembersHeight(ms[1..]))
    ensures |ms| == 1 ==>
      Fields(doc, acc, ms) == Store(acc, TextOf(ms[0].key), TreeValue(doc, ms[0].item)) && MembersHeight(ms[1..]) == 0
  {
    hide TreeValue, Height, Store, TextOf;
  }

  lemma {:induction false} PartsOfMember(inp: Input, p: nat, m: Named)
    requires MemberStands(inp, p, m)
    ensures var k := m.name + |StringText(m.key)|;
      && Gap(inp.doc, p, m.name) && AreChars(m.key) && Paired(m.key) && At(inp.doc, m.name, StringText(m.key))
      && Shut(inp.doc, k, 58, m.colon + 1) && Lead(inp, m.colon + 1, m.item.start) && Stands(inp, m.item)
      && TextOf(m.key) == Meaning(m.key)
  {
    hide Gap, AreChars, Paired, At, StringText, White, Lead, Stands, Meaning;
  }

  lemma {:induction false} ColonToken(doc: bytes, p: nat, q: nat)
    requires Shut(doc, p, 58, q)
    ensures p < q <= |doc| && ReadToken(doc, p) == Token(MemberSeparator, q - 1, q)
  {
    hide ReadToken;
    var m: nat :| White(doc, p, m) && ByteIs(doc, m, 58) && q == m + 1;
    WhiteIsBlank(doc, p, m);
    PunctuationExactly(doc, m);
  }

  lemma {:induction false} ShutLateToken(doc: bytes, p: nat, q: nat)
    requires ShutLate(doc, p, q)
    ensures 0 < q <= |doc| && SkipComments(doc, p) == Token(ObjectEnd, q - 1, q)
  {
    hide SkipComments, Gap;
    var m: nat :| Gap(doc, p, m) && ByteIs(doc, m, 125) && q == m + 1;
    MarkToken(doc, p, m, 125);
  }

  lemma {:induction false} RemarkToken(doc: bytes, p: nat, q: nat)
    requires Remark(doc, p, q)
    ensures p <= q <= |doc| && ReadToken(doc, p).kind == CommentToken && ReadToken(doc, p).end == q
  {
    hide ReadToken, IsComment;
    var m: nat :| White(doc, p, m) && IsComment(doc, m, q);
    WhiteIsBlank(doc, p, m);
    CommentIsToken(doc, m, q);
  }

  /** What readObject does behind a member. */
  lemma {:induction false} BehindMember(inp: Input, st: State, key: bytes, acc: seq<Member>, s: State, child: Result)
    requires st.pos <= |inp.doc| && ReadToken(inp.doc, st.pos).kind == MemberSeparator
    requires s == st.(pos := ReadToken(inp.doc, st.pos).end)
    requires child == ReadValue(inp, s, SlotValue(Find(acc, key))) && child.status == Good
    ensures var comma := ReadToken(inp.doc, child.st.pos);
      comma.kind in {ObjectEnd, ArraySeparator, CommentToken} ==>
        var next := if comma.kind == CommentToken then SkipComments(inp.doc, comma.end) else comma;
        var u := child.st.(pos := next.end);
        ReadMember(inp, st, key, acc) ==
          if next.kind == ObjectEnd then Result(Good, u, Object(Store(acc, key, child.v)))
          else ReadObject(inp, u, key, Store(acc, key, child.v))
  {
    hide ReadValue, ReadObject, ReadToken, SkipComments, Recover, Store, Find;
  }

  lemma {:induction false} ClosedToken(doc: bytes, p: nat, q: nat)
    requires Closed(doc, p, q)
    ensures p <= |doc| && q <= |doc|
    ensures var comma := ReadToken(doc, p);
      && comma.kind in {ObjectEnd, CommentToken}
      && var next := if comma.kind == CommentToken then SkipComments(doc, comma.end) else comma;
         next.kind == ObjectEnd && next.end == q
  {
    hide ReadToken, SkipComments, Shut, Remark, ShutLate;
    if Shut(doc, p, 125, q) {
      ShutToken(doc, p, 125, q);
    } else {
      var k: nat :| Remark(doc, p, k) && ShutLate(doc, k, q);
      RemarkToken(doc, p, k);
      ShutLateToken(doc, k, q);
    }
  }

  lemma {:induction false} SeparatedToken(doc: bytes, p: nat, q: nat)
    requires Separated(doc, p, q)
    ensures p <= |doc| && q <= |doc|
    ensures var comma := ReadToken(doc, p);
      && comma.kind in {ArraySeparator, CommentToken}
      && var next := if comma.kind == CommentToken then SkipComments(doc, comma.end) else comma;
         next.kind != ObjectEnd && next.end == q
  {
    hide ReadToken, SkipComments, Shut, Remark, Gap;
    if Shut(doc, p, 44, q) {
      ShutToken(doc, p, 44, q);
    } else {
      var k: nat, n: nat :| Remark(doc, p, k) && Gap(doc, k, n) && AnyToken(doc, n, q);
      RemarkToken(doc, p, k);
      GapIsSkipped(doc, k, n);
      NoComment(doc, n);
    }
  }

  lemma {:induction false} MembersRead(
      inp: Input, st: State, last: seq<Char>, acc: seq<Member>, ms: seq<Named>, q: nat)
    requires st.pos <= |inp.doc| && st.depth <= STACK_LIMIT && MembersStand(inp, st.pos, last, ms, q)
    ensures q <= |inp.doc|
    ensures Reaches(ReadObject(inp, st, TextOf(last), acc), st, MembersHeight(ms), q, Object(Fields(inp.doc, acc, ms)))
    decreases ms, 1
  {
    hide *;
    var doc := inp.doc;
    FirstNamed(inp, st.pos, last, ms, q);
    FieldsOfFirst(doc, acc, ms);
    if ms == [] {
      EmptyName();
      ShutLateToken(doc, st.pos, q);
      ReadObjectStep(inp, st, [], acc, SkipComments(doc, st.pos));
      ReachesHere(st, q, Object(acc));
    } else {
      var m := ms[0];
      PartsOfMember(inp, st.pos, m);
      GapIsSkipped(doc, st.pos, m.name);
      StringReads(doc, m.name, m.key);
      NoComment(doc, m.name);
      NameStep(inp, st, TextOf(last), acc, SkipComments(doc, st.pos));
      MemberReads(inp, st.(pos := m.name + |StringText(m.key)|), acc, ms, q);
      SameStart(ReadObject(inp, st, TextOf(last), acc), st, m.name + |StringText(m.key)|, MembersHeight(ms), q,
                Object(Fields(doc, acc, ms)));
    }
  }

  lemma ReachesHere(st: State, q: nat, v: Value)
    requires st.depth <= STACK_LIMIT
    ensures Reaches(Result(Good, st.(pos := q), v), st, 0, q, v)
  {
  }

  lemma SameStart(r: Result, st: State, p: nat, h: nat, q: nat, v: Value)
    requires Reaches(r, st.(pos := p), h, q, v)
    ensures Reaches(r, st, h, q, v)
  {
  }

  lemma {:induction false} MemberReads(inp: Input, st: State, acc: seq<Member>, ms: seq<Named>, q: nat)
    requires st.pos <= |inp.doc| && st.depth <= STACK_LIMIT && ms != []
    requires var m := ms[0];
      && Shut(inp.doc, st.pos, 58, m.colon + 1) && Lead(inp, m.colon + 1, m.item.start) && Stands(inp, m.item)
      && ((ms[1..] == [] && Closed(inp.doc, m.item.end, q))
          || (Separated(inp.doc, m.item.end, m.next) && MembersStand(inp, m.next, m.key, ms[1..], q)))
    ensures q <= |inp.doc|
    ensures Reaches(ReadMember(inp, st, TextOf(ms[0].key), acc), st, MembersHeight(ms), q,
                    Object(Fields(inp.doc, acc, ms)))
    decreases ms, 0
  {
    hide *;
    var doc, m, rest := inp.doc, ms[0], ms[1..];
    var key := TextOf(m.key);
    assert m.item < m;
    ColonToken(doc, st.pos, m.colon + 1);
    FieldsOfFirst(doc, acc, ms);
    var s := st.(pos := m.colon + 1);
    var cur := SlotValue(Find(acc, key));
    StandsReads(inp, s, cur, m.item);
    var child, v := ReadValue(inp, s, cur), TreeValue(doc, m.item);
    var acc' := Store(acc, key, v);
    MemberStep(inp, st, key, acc, s, child, ReadToken(doc, child.st.pos));
    if child.status == Good { BehindMember(inp, st, key, acc, s, child); }
    if rest == [] && Closed(doc, m.item.end, q) {
      ClosedToken(doc, m.item.end, q);
      LastReach(child, s, Height(m.item), m.item.end, v, q, Object(acc'), ReadMember(inp, st, key, acc));
    } else {
      SeparatedToken(doc, m.item.end, m.next);
      var u := s.(pos := m.next);
      MembersRead(inp, u, m.key, acc', rest, q);
      TwoReach(child, s, u, Height(m.item), m.item.end, v, ReadObject(inp, u, key, acc'), MembersHeight(rest), q,
               Object(Fields(doc, acc, ms)), ReadMember(inp, st, key, acc));
    }
    SameStart(ReadMember(inp, st, key, acc), st, m.colon + 1, MembersHeight(ms), q, Object(Fields(doc, acc, ms)));
  }

  // ---------------------------------------------------------------- a tree for what the reader takes

  /** A scalar that is read without an error. */
  lemma {:induction false} ScalarOf(inp: Input, s: State, p: nat, cur: Value) returns (t: Tree)
    requires p < |inp.doc| && !IsBlank(inp.doc[p])
    requires var k := ReadToken(inp.doc, p);
      k.kind !in {ObjectBegin, ArrayBegin} && ReadScalar(inp, s, k, cur).status == Good
    ensures t.start == p && t.end == ReadToken(inp.doc, p).end && Stands(inp, t)
  {
    hide DecodeNumber, DecodeString, At, IsNumber, IsWord, AreChars, Paired, StringEnd, NumberEnd, CommentEnd, TokenRest,
         SkipSpaces, StringAt, SkipDigits, FractionEnd, Ascii, IsBlank;
    var doc := inp.doc;
    StartsHere(doc, p);
    WordsExactly(doc, p);
    LongTokens(doc, p);
    var k := ReadToken(doc, p);
    hide ReadToken;
    match k.kind
    case NumberToken =>
      var a := SkipDigits(doc, p + 1);
      var b := FractionEnd(doc, a);
      NumberExactly(doc, p, a, b, k.end);
      WordDecodes(doc[p..k.end]);
      t := Tree(p, k.end, TNumber(a, b));
    case StringToken =>
      var cs := StringOf(doc, p);
      t := Tree(p, k.end, TString(cs));
    case TrueToken => t := Tree(p, k.end, TBool(true));
    case FalseToken => t := Tree(p, k.end, TBool(false));
    case NullToken => t := Tree(p, k.end, TNull);
    case _ => assert false;
  }

  lemma {:induction false} ContainerStands(inp: Input, t: Tree)
    requires t.start < t.end <= |inp.doc|
    requires match t.shape
             case TArray(items) =>
               && inp.doc[t.start] == 91
               && (if items == [] then Shut(inp.doc, t.start + 1, 93, t.end)
                   else ItemsStand(inp, t.start + 1, items, t.end))
             case TObject(ms) => inp.doc[t.start] == 123 && MembersStand(inp, t.start + 1, [], ms, t.end)
             case _ => false
    ensures Stands(inp, t)
  {
    hide Shut, ItemsStand, MembersStand;
  }

  /** What readValue takes is a tree. */
  lemma {:induction false} ValueStands(inp: Input, st: State, cur: Value) returns (t: Tree)
    requires st.pos <= |inp.doc| && ReadValue(inp, st, cur).status == Good
    ensures Lead(inp, st.pos, t.start) && Stands(inp, t) && t.end == ReadValue(inp, st, cur).st.pos
    decreases |inp.doc| - st.pos, 3
  {
    hide *;
    var doc := inp.doc;
    if st.depth >= STACK_LIMIT { ReadValueAtLimit(inp, st, cur); }
    ReadValueStep(inp, st, cur);
    FirstBehindLead(inp, st.pos);
    var token := FirstToken(inp, st.pos);
    var s := st.(pos := token.end, depth := st.depth + 1);
    NotTheEnd(inp, s, token, cur);
    LeadIsSkipped(inp, st.pos, token.start);
    PunctuationExactly(doc, token.start);
    if token.kind == ObjectBegin {
      LeaveIs(ReadObject(inp, s, [], []));
      EmptyName();
      NameOf([]);
      var ms := ObjectStands(inp, s, [], []);
      t := Tree(token.start, ReadObject(inp, s, [], []).st.pos, TObject(ms));
      ContainerStands(inp, t);
    } else if token.kind == ArrayBegin {
      LeaveIs(ReadArray(inp, s));
      var items := ArrayStands(inp, s);
      t := Tree(token.start, ReadArray(inp, s).st.pos, TArray(items));
      ContainerStands(inp, t);
    } else {
      t := ScalarOf(inp, s, token.start, cur);
      ScalarPlace(inp, s, token, cur);
    }
  }

  lemma {:induction false} ScalarPlace(inp: Input, s: State, token: Token, cur: Value)
    requires token.start <= token.end <= |inp.doc|
    requires token.kind == StringToken ==> token.start + 2 <= token.end
    ensures ReadScalar(inp, s, token, cur).st.pos == s.pos
  {
    hide ReadScalar;
  }

  /** A value does not start at the end of the document. */
  lemma {:induction false} NotTheEnd(inp: Input, s: State, token: Token, cur: Value)
    requires token.start <= token.end <= |inp.doc| && token == ReadToken(inp.doc, token.start)
    requires token.kind in {ObjectBegin, ArrayBegin} || ReadScalar(inp, s, token, cur).status == Good
    ensures token.start < |inp.doc| && token.start < token.end
  {
    hide ReadToken, DecodeNumber, DecodeString;
  }

  lemma {:induction false} NameOf(cs: seq<Char>)
    ensures AreChars([]) && Paired([])
    ensures AreChars(cs) && Paired(cs) ==> TextOf(cs) == Meaning(cs)
    ensures AreChars(cs) && Paired(cs) && TextOf(cs) == [] ==> cs == []
  {
    hide IsChar, UnitValue;
    if AreChars(cs) && Paired(cs) && cs != [] {
      var c := cs[0];
      MeaningStarts(cs);
    }
  }

  /** No character stands for nothing. */
  lemma {:induction false} MeaningStarts(cs: seq<Char>)
    requires cs != [] && AreChars(cs) && Paired(cs)
    ensures Meaning(cs) != []
  {
    hide UnitValue, Utf8, IsHighSurrogate;
    if cs[0].Unit? {
      UnitBound(cs[0].digits);
      Utf8Nonempty(UnitValue(cs[0].digits));
      if IsHigh(cs[0]) {
        UnitBound(cs[1].digits);
        Utf8Nonempty(0x10000 + UnitValue(cs[0].digits) % 0x400 * 0x400 + UnitValue(cs[1].digits) % 0x400);
      }
    }
  }

  lemma UnitBound(digits: bytes)
    requires |digits| == 4 && forall k :: 0 <= k < 4 ==> HexDigitValue(digits[k]) >= 0
    ensures UnitValue(digits) <= 0xFFFF
  {
    hide HexDigitValue;
  }

  lemma Utf8Nonempty(cp: nat)
    ensures cp <= 0x10FFFF ==> Utf8(cp) != []
  {
  }

  /** What readArray takes are items. */
  lemma {:induction false} ArrayStands(inp: Input, st: State) returns (items: seq<Entry>)
    requires st.pos <= |inp.doc| && ReadArray(inp, st).status == Good
    ensures var q := ReadArray(inp, st).st.pos;
      && st.pos < q <= |inp.doc|
      && if items == [] then Shut(inp.doc, st.pos, 93, q) else ItemsStand(inp, st.pos, items, q)
    decreases |inp.doc| - st.pos, 5
  {
    hide *;
    var doc := inp.doc;
    ReadArrayStep(inp, st);
    if ReadToken(doc, st.pos).kind == ArrayEnd {
      items := [];
      TokenShuts(doc, st.pos);
    } else {
      PeekedItems(inp, st);
      items := ItemsOfArray(inp, st, []);
    }
  }

  /** A brace, a bracket, a comma or a colon behind white space. */
  lemma {:induction false} TokenShuts(doc: bytes, p: nat)
    requires p <= |doc|
    ensures var t := ReadToken(doc, p);
      && (t.kind == ArrayEnd ==> Shut(doc, p, 93, t.end)) && (t.kind == ObjectEnd ==> Shut(doc, p, 125, t.end))
      && (t.kind == ArraySeparator ==> Shut(doc, p, 44, t.end)) && (t.kind == MemberSeparator ==> Shut(doc, p, 58, t.end))
      && (t.kind in {ArrayEnd, ObjectEnd, ArraySeparator, MemberSeparator} ==> p < t.end <= |doc|)
  {
    hide ReadToken, White;
    var t := ReadToken(doc, p);
    TokenBehindWhite(doc, p);
    if t.kind != EndOfStream {
      NotAtTheEnd(doc, p);
      PunctuationExactly(doc, t.start);
    }
  }

  lemma {:induction false} ItemsOfArray(inp: Input, st: State, acc: seq<Slot>) returns (items: seq<Entry>)
    requires st.pos <= |inp.doc| && ReadItems(inp, st, acc).status == Good
    ensures var q := ReadItems(inp, st, acc).st.pos;
      st.pos < q <= |inp.doc| && items != [] && ItemsStand(inp, st.pos, items, q)
    decreases |inp.doc| - st.pos, 4
  {
    hide *;
    var doc := inp.doc;
    var child := ReadValue(inp, st, Null);
    var token := SkipComments(doc, child.st.pos);
    ItemTurn(inp, st, acc);
    ItemStep(inp, st, acc, child, token);
    var t := ValueStands(inp, st, Null);
    LeadIsSkipped(inp, st.pos, t.start);
    PlacesOf(inp, t);
    CommentsThenToken(doc, child.st.pos);
    if token.kind == ArrayEnd {
      items := [Entry(t, token.start)];
      OneEntry(inp, st.pos, t, token.start);
    } else {
      var rest := ItemsOfArray(inp, child.st.(pos := token.end), acc + [Item(child.v)]);
      items := [Entry(t, token.start)] + rest;
      MoreEntries(inp, st.pos, t, token.start, rest, ReadItems(inp, st, acc).st.pos);
    }
  }

  /** A turn of readArray that ends well. */
  lemma {:induction false} ItemTurn(inp: Input, st: State, acc: seq<Slot>)
    requires st.pos <= |inp.doc| && ReadItems(inp, st, acc).status == Good
    ensures var child := ReadValue(inp, st, Null);
      child.status == Good && SkipComments(inp.doc, child.st.pos).kind in {ArraySeparator, ArrayEnd}
  {
    hide ReadValue, SkipComments, Recover;
  }

  lemma {:induction false} CommentsThenToken(doc: bytes, p: nat)
    requires p <= |doc|
    ensures var t := SkipComments(doc, p);
      && Gap(doc, p, t.start)
      && (t.kind == ArrayEnd ==> ByteIs(doc, t.start, 93) && t.end == t.start + 1)
      && (t.kind == ObjectEnd ==> ByteIs(doc, t.start, 125) && t.end == t.start + 1)
      && (t.kind == ArraySeparator ==> ByteIs(doc, t.start, 44) && t.end == t.start + 1)
      && (t.kind == StringToken ==> t.start < |doc| && doc[t.start] == 34 && StringEnd(doc, t.start + 1) == (true, t.end))
      && ReadToken(doc, t.start) == t
  {
    hide ReadToken, SkipComments, Gap, StringEnd, IsBlank;
    TokenBehindGap(doc, p);
    var t := SkipComments(doc, p);
    if t.start < |doc| {
      PunctuationExactly(doc, t.start);
      LongTokens(doc, t.start);
    }
  }

  lemma {:induction false} OneEntry(inp: Input, p: nat, t: Tree, m: nat)
    requires Lead(inp, p, t.start) && Stands(inp, t) && Gap(inp.doc, t.end, m) && ByteIs(inp.doc, m, 93)
    ensures ItemsStand(inp, p, [Entry(t, m)], m + 1)
  {
    hide Lead, Stands, Gap;
  }

  lemma {:induction false} MoreEntries(inp: Input, p: nat, t: Tree, m: nat, rest: seq<Entry>, q: nat)
    requires Lead(inp, p, t.start) && Stands(inp, t) && Gap(inp.doc, t.end, m) && ByteIs(inp.doc, m, 44)
    requires rest != [] && ItemsStand(inp, m + 1, rest, q)
    ensures ItemsStand(inp, p, [Entry(t, m)] + rest, q)
  {
    hide Lead, Stands, Gap;
    assert ([Entry(t, m)] + rest)[1..] == rest;
  }

  /** What readObject takes are members. */
  lemma {:induction false} ObjectStands(inp: Input, st: State, last: seq<Char>, acc: seq<Member>)
    returns (ms: seq<Named>)
    requires st.pos <= |inp.doc| && AreChars(last) && Paired(last)
    requires ReadObject(inp, st, TextOf(last), acc).status == Good
    ensures var q := ReadObject(inp, st, TextOf(last), acc).st.pos;
      st.pos < q <= |inp.doc| && MembersStand(inp, st.pos, last, ms, q)
    decreases |inp.doc| - st.pos, 2
  {
    hide *;
    var doc, t := inp.doc, SkipComments(inp.doc, st.pos);
    ObjectTurn(inp, st, TextOf(last), acc);
    ReadObjectStep(inp, st, TextOf(last), acc, t);
    CommentsThenToken(doc, st.pos);
    GapBounds(doc, st.pos, t.start);
    if t.kind == ObjectEnd {
      ms := [];
      NameOf(last);
      LateShut(doc, st.pos, t.start);
      NoMembers(inp, st.pos, t.end);
    } else {
      var key := StringOf(doc, t.start);
      StringParts(doc, t.start, key, t.end);
      StringReads(doc, t.start, key);
      NameOf(key);
      ms := MembersBehindName(inp, st, last, acc, t.start, key, TextOf(key));
    }
  }

  lemma {:induction false} StringParts(doc: bytes, p: nat, cs: seq<Char>, q: nat)
    requires StringAt(doc, p, cs, q)
    ensures AreChars(cs) && Paired(cs) && At(doc, p, StringText(cs)) && q == p + |StringText(cs)|
  {
    hide At, AreChars, Paired, StringText;
  }

  lemma {:induction false} LateShut(doc: bytes, p: nat, m: nat)
    requires Gap(doc, p, m) && ByteIs(doc, m, 125)
    ensures ShutLate(doc, p, m + 1)
  {
    hide Gap;
  }

  lemma {:induction false} NoMembers(inp: Input, p: nat, q: nat)
    requires ShutLate(inp.doc, p, q)
    ensures MembersStand(inp, p, [], [], q)
  {
    hide ShutLate;
  }

  /** A turn of readObject that ends well. */
  lemma {:induction false} ObjectTurn(inp: Input, st: State, last: bytes, acc: seq<Member>)
    requires st.pos <= |inp.doc| && ReadObject(inp, st, last, acc).status == Good
    ensures var t := SkipComments(inp.doc, st.pos);
      || (t.kind == ObjectEnd && last == [])
      || (t.kind == StringToken && DecodeString(inp.doc, t.start, t.end).Text?)
  {
    hide SkipComments, DecodeString, ReadMember, Recover;
  }

  lemma {:induction false} MemberTurn(inp: Input, st: State, key: bytes, acc: seq<Member>)
    requires st.pos <= |inp.doc| && ReadMember(inp, st, key, acc).status == Good
    ensures var colon := ReadToken(inp.doc, st.pos);
      && colon.kind == MemberSeparator
      && var child := ReadValue(inp, st.(pos := colon.end), SlotValue(Find(acc, key)));
         child.status == Good && ReadToken(inp.doc, child.st.pos).kind in {ObjectEnd, ArraySeparator, CommentToken}
  {
    hide ReadValue, ReadObject, ReadToken, SkipComments, Recover, Store, Find;
  }

  lemma {:induction false} MembersBehindName(
      inp: Input, st: State, last: seq<Char>, acc: seq<Member>, name: nat, key: seq<Char>, text: bytes)
    returns (ms: seq<Named>)
    requires st.pos <= name && Gap(inp.doc, st.pos, name) && AreChars(key) && Paired(key) && text == TextOf(key)
    requires At(inp.doc, name, StringText(key)) && name + |StringText(key)| <= |inp.doc| && |StringText(key)| >= 2
    requires var r := ReadMember(inp, st.(pos := name + |StringText(key)|), text, acc);
      r.status == Good && r == ReadObject(inp, st, TextOf(last), acc)
    ensures var q := ReadObject(inp, st, TextOf(last), acc).st.pos;
      st.pos < q <= |inp.doc| && MembersStand(inp, st.pos, last, ms, q)
    decreases |inp.doc| - st.pos, 1
  {
    hide *;
    var doc, u := inp.doc, st.(pos := name + |StringText(key)|);
    MemberTurn(inp, u, text, acc);
    TokenShuts(doc, u.pos);
    var colon := ReadToken(doc, u.pos);
    var s := u.(pos := colon.end);
    var cur := SlotValue(Find(acc, text));
    var child := ReadValue(inp, s, cur);
    var item := ValueStands(inp, s, cur);
    LeadIsSkipped(inp, s.pos, item.start);
    PlacesOf(inp, item);
    BehindMember(inp, u, text, acc, s, child);
    var comma := ReadToken(doc, child.st.pos);
    var next := if comma.kind == CommentToken then SkipComments(doc, comma.end) else comma;
    SeparatorStands(doc, child.st.pos);
    var m := Named(name, key, colon.end - 1, item, next.end);
    MemberFits(inp, st.pos, m);
    if next.kind == ObjectEnd {
      ms := [m];
      OneNamed(inp, st.pos, last, m, next.end);
    } else {
      var rest := ObjectStands(inp, child.st.(pos := next.end), key, Store(acc, text, child.v));
      ms := [m] + rest;
      MoreNamed(inp, st.pos, last, m, rest, ReadObject(inp, st, TextOf(last), acc).st.pos);
    }
  }

  lemma {:induction false} MemberFits(inp: Input, p: nat, m: Named)
    requires Gap(inp.doc, p, m.name) && AreChars(m.key) && Paired(m.key) && At(inp.doc, m.name, StringText(m.key))
    requires Shut(inp.doc, m.name + |StringText(m.key)|, 58, m.colon + 1)
    requires Lead(inp, m.colon + 1, m.item.start) && Stands(inp, m.item)
    ensures MemberStands(inp, p, m)
  {
    hide Gap, AreChars, Paired, At, StringText, White, Lead, Stands;
  }

  lemma {:induction false} OneNamed(inp: Input, p: nat, last: seq<Char>, m: Named, q: nat)
    requires MemberStands(inp, p, m) && Closed(inp.doc, m.item.end, q)
    ensures MembersStand(inp, p, last, [m], q)
  {
    hide MemberStands, Closed, Separated;
  }

  lemma {:induction false} MoreNamed(inp: Input, p: nat, last: seq<Char>, m: Named, rest: seq<Named>, q: nat)
    requires MemberStands(inp, p, m) && Separated(inp.doc, m.item.end, m.next)
    requires MembersStand(inp, m.next, m.key, rest, q)
    ensures MembersStand(inp, p, last, [m] + rest, q)
  {
    hide MemberStands, Closed, Separated;
    assert ([m] + rest)[1..] == rest;
  }

  /** The token behind a member closes the object or separates it from the next one. */
  lemma {:induction false} SeparatorStands(doc: bytes, p: nat)
    requires p <= |doc| && ReadToken(doc, p).kind in {ObjectEnd, ArraySeparator, CommentToken}
    ensures var comma := ReadToken(doc, p);
      var next := if comma.kind == CommentToken then SkipComments(doc, comma.end) else comma;
      && p < next.end
      && (if next.kind == ObjectEnd then Closed(doc, p, next.end) else Separated(doc, p, next.end))
  {
    hide ReadToken, SkipComments, Shut, Gap, White, IsComment, IsBlank;
    TokenShuts(doc, p);
    TokenBehindWhite(doc, p);
    var comma := ReadToken(doc, p);
    if comma.kind == CommentToken {
      NotAtTheEnd(doc, p);
      LongTokens(doc, comma.start);
      TokenIsComment(doc, comma.start);
      assert Remark(doc, p, comma.end);
      CommentsThenToken(doc, comma.end);
      var next := SkipComments(doc, comma.end);
      if next.kind == ObjectEnd {
        LateShut(doc, comma.end, next.start);
      } else {
        assert AnyToken(doc, next.start, next.end);
      }
    }
  }

  // ---------------------------------------------------------------- whole documents

  /** The document starts with a tree of at most 1000 levels, and the tree is a container if it has to
      be. What stands behind it does not matter. */
  ghost predicate Accepted(inp: Input, t: Tree) {
    && Lead(inp, 0, t.start) && Stands(inp, t) && Height(t) <= 1000
    && (inp.strictRoot ==> t.shape.TArray? || t.shape.TObject?)
  }

  /** parse returns true for exactly these documents, and gives the value of the tree. */
  lemma {:induction false} AcceptedExactly(inp: Input, cur: Value)
    ensures Parse(inp, cur).status == Good <==> exists t :: Accepted(inp, t)
    ensures forall t :: Accepted(inp, t) ==>
      Parse(inp, cur).v == TreeValue(inp.doc, t) && Parse(inp, cur).st.errors == []
  {
    hide *;
    ParseByValue(inp, cur);
    forall t | Accepted(inp, t)
      ensures Parse(inp, cur).status == Good
      ensures Parse(inp, cur).v == TreeValue(inp.doc, t) && Parse(inp, cur).st.errors == []
    {
      AcceptedParses(inp, cur, t);
    }
    if Parse(inp, cur).status == Good {
      var t := ParsedIsAccepted(inp, cur);
    }
  }

  lemma {:induction false} AcceptedParses(inp: Input, cur: Value, t: Tree)
    requires Accepted(inp, t)
    ensures var r := Parse(inp, cur);
      r.status == Good && r.v == TreeValue(inp.doc, t) && r.st.errors == []
  {
    hide ReadValue, Parse, Lead, Stands, TreeValue;
    ParseByValue(inp, cur);
    ParseReports(inp, cur);
    StandsReads(inp, State(0, [], 0), cur, t);
    RootShape(inp.doc, t);
  }

  lemma {:induction false} RootShape(doc: bytes, t: Tree)
    ensures TreeValue(doc, t).Array? <==> t.shape.TArray?
    ensures TreeValue(doc, t).Object? <==> t.shape.TObject?
  {
    hide Slots, Fields, TextOf, IsWord;
  }

  lemma {:induction false} ParsedIsAccepted(inp: Input, cur: Value) returns (t: Tree)
    requires Parse(inp, cur).status == Good
    ensures Accepted(inp, t)
  {
    hide ReadValue, Parse, Lead, Stands, TreeValue;
    var st := State(0, [], 0);
    ParseByValue(inp, cur);
    t := ValueStands(inp, st, cur);
    StandsReads(inp, st, cur, t);
    RootShape(inp.doc, t);
  }

  /** With too many levels the same trees end in the exception. */
  lemma {:induction false} TooHighThrows(inp: Input, cur: Value, t: Tree)
    requires Lead(inp, 0, t.start) && Stands(inp, t) && Height(t) > 1000
    ensures Parse(inp, cur).status == Threw
  {
    hide ReadValue, Parse, Lead, Stands, TreeValue;
    ParseByValue(inp, cur);
    StandsReads(inp, State(0, [], 0), cur, t);
  }

  /** A comment in front of the root, one behind an item, and text behind the root. */
  lemma {:induction false} CommentsExample(inp: Input, cur: Value)
    requires inp.doc == Ascii("/**/[1//\n]x") && inp.allowComments
    ensures var r := Parse(inp, cur); r.status == Good && r.v == Array([Item(Int(1))])
  {
    hide *;
    var leaf := Tree(5, 6, TNumber(6, 6));
    var t := Tree(4, 10, TArray([Entry(leaf, 9)]));
    ExampleStands(inp, leaf, t);
    AcceptedExactly(inp, cur);
  }

  lemma {:induction false} ExampleStands(inp: Input, leaf: Tree, t: Tree)
    requires inp.doc == Ascii("/**/[1//\n]x") && inp.allowComments
    requires leaf == Tree(5, 6, TNumber(6, 6)) && t == Tree(4, 10, TArray([Entry(leaf, 9)]))
    ensures Accepted(inp, t) && TreeValue(inp.doc, t) == Array([Item(Int(1))])
  {
    hide Stands, Gap, ItemsStand, Ascii, IsNumber;
    var doc, items := inp.doc, [Entry(leaf, 9)];
    ExampleGaps(doc);
    ExampleLeaf(inp, leaf);
    OneEntry(inp, 5, leaf, 9);
    ContainerStands(inp, t);
    SlotsOfFirst(doc, items);
    InsideOf(inp, t);
    InsideOf(inp, leaf);
    assert items[1..] == [];
  }

  lemma {:induction false} ExampleGaps(doc: bytes)
    requires doc == Ascii("/**/[1//\n]x")
    ensures Gap(doc, 0, 4) && Gap(doc, 5, 5) && Gap(doc, 6, 9)
    ensures doc == [47, 42, 42, 47, 91, 49, 47, 47, 10, 93, 120]
  {
    assert doc == [47, 42, 42, 47, 91, 49, 47, 47, 10, 93, 120];
    assert IsBlock(doc, 0, 4) && Gap(doc, 4, 4);
    assert IsRest(doc, 6, 8, 9) && Gap(doc, 9, 9);
    hide IsBlock, IsRest;
  }

  lemma {:induction false} ExampleLeaf(inp: Input, leaf: Tree)
    requires inp.doc == [47, 42, 42, 47, 91, 49, 47, 47, 10, 93, 120] && leaf == Tree(5, 6, TNumber(6, 6))
    ensures Stands(inp, leaf) && TreeValue(inp.doc, leaf) == Int(1)
  {
    hide IsWord, NumberValue;
    OneIsWord(inp.doc[5..6]);
    assert IsNumber(inp.doc, 5, 6, 6, 6);
  }

  lemma {:induction false} OneIsWord(text: bytes)
    requires text == [49]
    ensures IsWord(text) && NumberValue(text) == Int(1)
  {
    assert text[..0] == [];
    assert DigitsValue(text) == 1;
  }
}
