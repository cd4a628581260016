/** The layout of a styled text, line by line. */
module JsonLayout {
  import opened Bytes
  import opened Numerals
  import opened JsonValue
  import opened JsonText

  /** A line: three blanks a level, a text, and a line feed. */
  datatype Line = Line(level: nat, text: bytes)

  function Render(lines: seq<Line>): bytes {
    if lines == [] then [] else Ruled(lines[0]) + Render(lines[1..])
  }

  function Ruled(line: Line): bytes {
    seq(3 * line.level, _ => 32) + (line.text + Ascii("\n"))
  }

  /** A value in one piece: a scalar, an empty container, or the items of an array between blanks. */
  function Piece(v: Value): bytes
    decreases Weight(v)
  {
    match v
    case Null => Ascii("null")
    case Bool(b) => if b then Ascii("true") else Ascii("false")
    case Int(i) => IntegerText(i)
    case UInt(u) => IntegerText(u)
    case Str(s) => Quoted(s)
    case Array(slots) => if slots == [] then Ascii("[]") else Ascii("[ ") + (Joined(slots) + Ascii(" ]"))
    case Object(_) => Ascii("{}")
    case Real(text) => text
    case NullString => []
  }

  function Joined(slots: seq<Slot>): bytes
    decreases WeightOfSlots(slots)
  {
    if slots == [] then []
    else if |slots| == 1 then Piece(SlotValue(slots[0]))
    else Piece(SlotValue(slots[0])) + (Ascii(", ") + Joined(slots[1..]))
  }

  /** An array of at most 24 items with nothing in them that takes less than 74 bytes. */
  predicate OnOneLine(slots: seq<Slot>) {
    && (forall k :: 0 <= k < |slots| ==> Size(SlotValue(slots[k])) == 0)
    && |slots| <= 24
    && |Piece(Array(slots))| < 74
  }

  predicate IsBroken(v: Value) {
    match v
    case Array(slots) => slots != [] && !OnOneLine(slots)
    case Object(ms) => ms != []
    case _ => false
  }

  /** The lines of a value: `head` stands in front of it, and `tail` behind it. */
  function Lines(v: Value, level: nat, head: bytes, tail: bytes): seq<Line>
    decreases Weight(v)
  {
    if !IsBroken(v) then [Line(level, head + (Piece(v) + tail))]
    else if v.Array? then
      [Line(level, head + Ascii("["))] + ItemLines(v.slots, level + 1) + [Line(level, Ascii("]") + tail)]
    else
      [Line(level, head + Ascii("{"))] + MemberLines(v.members, level + 1) + [Line(level, Ascii("}") + tail)]
  }

  function ItemLines(slots: seq<Slot>, level: nat): seq<Line>
    decreases WeightOfSlots(slots)
  {
    if slots == [] then []
    else Lines(SlotValue(slots[0]), level, [], Comma(|slots| > 1)) + ItemLines(slots[1..], level)
  }

  function MemberLines(ms: seq<Member>, level: nat): seq<Line>
    decreases WeightOfMembers(ms)
  {
    if ms == [] then []
    else
      Lines(ms[0].item, level, Quoted(UptoNul(ms[0].name)) + Ascii(" : "), Comma(|ms| > 1))
      + MemberLines(ms[1..], level)
  }

  function Comma(more: bool): bytes {
    if more then Ascii(",") else []
  }

  // ---------------------------------------------------------------- the pieces

  lemma {:induction false} FlatPiece(v: Value)
    requires IsFlat(v)
    ensures Piece(v) == Flat(v)
  {
    hide Quoted, IntegerText;
  }

  lemma {:induction false} InlineJoined(slots: seq<Slot>)
    requires forall k :: 0 <= k < |slots| ==> IsFlat(SlotValue(slots[k]))
    ensures Joined(slots) == Inline(slots)
    ensures slots != [] ==> |Joined(slots)| == 2 * (|slots| - 1) + FlatLength(slots)
  {
    hide Piece, Flat, IsFlat;
    if slots != [] {
      FlatPiece(SlotValue(slots[0]));
      InlineJoined(slots[1..]);
      CommaThen(Flat(SlotValue(slots[0])), Inline(slots[1..]));
    }
  }

  lemma CommaThen(a: bytes, b: bytes)
    ensures a + [COMMA] + ([SPACE] + b) == a + (Ascii(", ") + b)
    ensures a + [] + [] == a
  {
    assert Ascii(", ") == [COMMA, SPACE];
  }

  lemma {:induction false} OneLineIs(slots: seq<Slot>)
    requires slots != []
    ensures OnOneLine(slots) <==> !MultiLine(slots)
    ensures OnOneLine(slots) ==> Piece(Array(slots)) == [LBRACKET, SPACE] + Inline(slots) + [SPACE, RBRACKET]
  {
    hide Inline, Joined, Flat;
    assert HasNested(slots) <==> !(forall k :: 0 <= k < |slots| ==> Size(SlotValue(slots[k])) == 0);
    if !HasNested(slots) { InlineJoined(slots); }
  }

  // ---------------------------------------------------------------- the text of the lines

  lemma {:induction false} RenderConcat(a: seq<Line>, b: seq<Line>)
    ensures Render(a + b) == Render(a) + Render(b)
  {
    hide Ruled;
    if a == [] {
      assert a + b == b;
    } else {
      assert (a + b)[1..] == a[1..] + b;
      RenderConcat(a[1..], b);
    }
  }

  lemma {:induction false} RenderOne(line: Line)
    ensures Render([line]) == Ruled(line)
  {
    hide Ruled;
    assert [line][1..] == [];
  }

  lemma {:induction false} RenderThree(a: Line, ls: seq<Line>, b: Line)
    ensures Render([a] + ls + [b]) == Ruled(a) + Render(ls) + Ruled(b)
  {
    hide Render, Ruled;
    RenderConcat([a] + ls, [b]);
    RenderConcat([a], ls);
    RenderOne(a);
    RenderOne(b);
  }

  lemma RuledIs(level: nat, text: bytes)
    ensures Ruled(Line(level, text)) == Spaces(3 * level) + (text + [LF])
  {
    assert seq(3 * level, _ => 32) == Spaces(3 * level);
  }

  /** The lines of a value are its styled text between head and tail. */
  lemma {:induction false} LinesAreStyled(v: Value, level: nat, head: bytes, tail: bytes)
    ensures Render(Lines(v, level, head, tail))
         == Spaces(3 * level) + (head + Styled(v, 3 * level) + tail + [LF])
    decreases Weight(v), 1
  {
    hide *;
    BrokenIs(v, 3 * level);
    ListWeighsLess(v);
    if !IsBroken(v) {
      UnbrokenLine(v, level, head, tail);
    } else if v.Array? {
      var body := StyledSlots(v.slots, 3 * level + 3);
      ArrayLines(v, level, head, tail);
      ItemsAreStyled(v.slots, level + 1);
      Bracket(level, head, tail, Ascii("["), Ascii("]"), ItemLines(v.slots, level + 1), body);
    } else {
      var body := StyledMembers(v.members, 3 * level + 3);
      ObjectLines(v, level, head, tail);
      MembersAreStyled(v.members, level + 1);
      Bracket(level, head, tail, Ascii("{"), Ascii("}"), MemberLines(v.members, level + 1), body);
    }
  }

  lemma {:induction false} ListWeighsLess(v: Value)
    ensures v.Array? ==> WeightOfSlots(v.slots) < Weight(v)
    ensures v.Object? ==> WeightOfMembers(v.members) < Weight(v)
  {
  }

  /** Styled by the shape of the value. */
  lemma {:induction false} BrokenIs(v: Value, n: nat)
    ensures !IsBroken(v) ==> Styled(v, n) == Piece(v)
    ensures IsBroken(v) && v.Array? ==>
      Styled(v, n) == Ascii("[") + (StyledSlots(v.slots, n + 3) + (NewLine(n) + Ascii("]")))
    ensures IsBroken(v) && !v.Array? ==>
      v.Object? && Styled(v, n) == Ascii("{") + (StyledMembers(v.members, n + 3) + (NewLine(n) + Ascii("}")))
  {
    hide StyledSlots, StyledMembers, Flat, Piece, NewLine, MultiLine, OnOneLine, Inline, Ascii;
    if v.Array? && v.slots != [] {
      OneLineIs(v.slots);
      Around([LBRACKET], StyledSlots(v.slots, n + 3), NewLine(n), [RBRACKET]);
    } else if IsFlat(v) {
      FlatPiece(v);
    } else {
      Around([LBRACE], StyledMembers(v.members, n + 3), NewLine(n), [RBRACE]);
    }
    Brackets();
  }

  lemma Around(a: bytes, b: bytes, c: bytes, d: bytes)
    ensures a + b + c + d == a + (b + (c + d))
  {
  }

  lemma Brackets()
    ensures Ascii("[") == [LBRACKET] && Ascii("]") == [RBRACKET]
    ensures Ascii("{") == [LBRACE] && Ascii("}") == [RBRACE]
  {
  }

  lemma {:induction false} UnbrokenLine(v: Value, level: nat, head: bytes, tail: bytes)
    requires !IsBroken(v)
    ensures Render(Lines(v, level, head, tail)) == Spaces(3 * level) + (head + Piece(v) + tail + [LF])
  {
    hide Piece, Ruled, IsBroken, Render;
    RenderOne(Line(level, head + (Piece(v) + tail)));
    RuledIs(level, head + (Piece(v) + tail));
    Middle(head, Piece(v), tail);
  }

  lemma Middle(a: bytes, b: bytes, c: bytes)
    ensures a + (b + c) + [LF] == a + b + c + [LF]
  {
  }

  lemma {:induction false} ArrayLines(v: Value, level: nat, head: bytes, tail: bytes)
    requires IsBroken(v) && v.Array?
    ensures Lines(v, level, head, tail) ==
      [Line(level, head + Ascii("["))] + ItemLines(v.slots, level + 1) + [Line(level, Ascii("]") + tail)]
  {
    hide IsBroken, ItemLines, Ascii;
  }

  lemma {:induction false} ObjectLines(v: Value, level: nat, head: bytes, tail: bytes)
    requires IsBroken(v) && v.Object?
    ensures Lines(v, level, head, tail) ==
      [Line(level, head + Ascii("{"))] + MemberLines(v.members, level + 1) + [Line(level, Ascii("}") + tail)]
  {
    hide IsBroken, MemberLines, Ascii;
  }

  /** The lines of a container around those of its items. */
  lemma {:induction false} Bracket(level: nat, head: bytes, tail: bytes, open: bytes, close: bytes, ls: seq<Line>, body: bytes)
    requires [LF] + Render(ls) == body + [LF]
    ensures Render([Line(level, head + open)] + ls + [Line(level, close + tail)])
         == Spaces(3 * level) + (head + (open + (body + (NewLine(3 * level) + close))) + tail + [LF])
  {
    hide *;
    RenderThree(Line(level, head + open), ls, Line(level, close + tail));
    RuledIs(level, head + open);
    RuledIs(level, close + tail);
    NewLineIs(3 * level);
    BracketText(Spaces(3 * level), head, open, Render(ls), close, tail, body);
  }

  lemma NewLineIs(n: nat)
    ensures NewLine(n) == [LF] + Spaces(n)
  {
  }

  lemma BracketText(s: bytes, head: bytes, open: bytes, r: bytes, close: bytes, tail: bytes, body: bytes)
    requires [LF] + r == body + [LF]
    ensures s + (head + open + [LF]) + r + (s + (close + tail + [LF]))
         == s + (head + (open + (body + ([LF] + s + close))) + tail + [LF])
  {
    var x := s + (close + tail + [LF]);
    assert s + (head + open + [LF]) + r + x == s + (head + (open + (([LF] + r) + x)));
    assert (body + [LF]) + x == body + (([LF] + s + close) + (tail + [LF]));
    assert s + (head + (open + (body + (([LF] + s + close) + (tail + [LF])))))
        == s + (head + (open + (body + ([LF] + s + close))) + tail + [LF]);
  }

  lemma {:induction false} ItemsAreStyled(slots: seq<Slot>, level: nat)
    ensures [LF] + Render(ItemLines(slots, level)) == StyledSlots(slots, 3 * level) + [LF]
    decreases WeightOfSlots(slots), 2
  {
    hide *;
    ItemLinesUnfold(slots, level);
    if slots != [] {
      var v, c := SlotValue(slots[0]), Comma(|slots| > 1);
      var ls, rest := Lines(v, level, [], c), ItemLines(slots[1..], level);
      FirstSlotWeighs(slots);
      LinesAreStyled(v, level, [], c);
      ItemsAreStyled(slots[1..], level);
      RenderConcat(ls, rest);
      ListLine(Spaces(3 * level), [], Styled(v, 3 * level), c, Render(rest), StyledSlots(slots[1..], 3 * level));
    }
  }

  lemma {:induction false} FirstSlotWeighs(slots: seq<Slot>)
    requires slots != []
    ensures Weight(SlotValue(slots[0])) < WeightOfSlots(slots) && WeightOfSlots(slots[1..]) < WeightOfSlots(slots)
  {
  }

  lemma {:induction false} FirstMemberWeighs(ms: seq<Member>)
    requires ms != []
    ensures Weight(ms[0].item) < WeightOfMembers(ms) && WeightOfMembers(ms[1..]) < WeightOfMembers(ms)
  {
  }

  lemma {:induction false} ItemLinesUnfold(slots: seq<Slot>, level: nat)
    ensures slots == [] ==> [LF] + Render(ItemLines(slots, level)) == StyledSlots(slots, 3 * level) + [LF]
    ensures slots != [] ==>
      var v, c := SlotValue(slots[0]), Comma(|slots| > 1);
      && ItemLines(slots, level) == Lines(v, level, [], c) + ItemLines(slots[1..], level)
      && StyledSlots(slots, 3 * level) ==
           [LF] + Spaces(3 * level) + ([] + Styled(v, 3 * level) + c) + StyledSlots(slots[1..], 3 * level)
  {
    hide Lines, Styled, Spaces;
    if slots != [] {
      CommaIs(|slots| > 1);
      hide CommaText, Comma;
      Grouped([LF] + Spaces(3 * level), [], Styled(SlotValue(slots[0]), 3 * level), CommaText(|slots| > 1),
              StyledSlots(slots[1..], 3 * level));
    }
  }

  lemma CommaIs(more: bool)
    ensures Comma(more) == CommaText(more)
  {
  }

  lemma Grouped(a: bytes, h: bytes, b: bytes, c: bytes, d: bytes)
    ensures a + (h + b) + c + d == a + (h + b + c) + d
    ensures h == [] ==> a + b + c + d == a + (h + b + c) + d
  {
  }

  lemma ListLine(s: bytes, head: bytes, text: bytes, c: bytes, r: bytes, body: bytes)
    requires [LF] + r == body + [LF]
    ensures [LF] + (s + (head + text + c + [LF]) + r) == [LF] + s + (head + text + c) + body + [LF]
  {
    assert [LF] + (s + (head + text + c + [LF]) + r) == [LF] + s + (head + text + c) + ([LF] + r);
  }

  lemma {:induction false} MembersAreStyled(ms: seq<Member>, level: nat)
    ensures [LF] + Render(MemberLines(ms, level)) == StyledMembers(ms, 3 * level) + [LF]
    decreases WeightOfMembers(ms), 2
  {
    hide *;
    MemberLinesUnfold(ms, level);
    if ms != [] {
      var v, head, c := ms[0].item, Quoted(UptoNul(ms[0].name)) + Ascii(" : "), Comma(|ms| > 1);
      var ls, rest := Lines(v, level, head, c), MemberLines(ms[1..], level);
      FirstMemberWeighs(ms);
      LinesAreStyled(v, level, head, c);
      MembersAreStyled(ms[1..], level);
      RenderConcat(ls, rest);
      ListLine(Spaces(3 * level), head, Styled(v, 3 * level), c, Render(rest), StyledMembers(ms[1..], 3 * level));
    }
  }

  lemma {:induction false} MemberLinesUnfold(ms: seq<Member>, level: nat)
    ensures ms == [] ==> [LF] + Render(MemberLines(ms, level)) == StyledMembers(ms, 3 * level) + [LF]
    ensures ms != [] ==>
      var v, head, c := ms[0].item, Quoted(UptoNul(ms[0].name)) + Ascii(" : "), Comma(|ms| > 1);
      && MemberLines(ms, level) == Lines(v, level, head, c) + MemberLines(ms[1..], level)
      && StyledMembers(ms, 3 * level) ==
           [LF] + Spaces(3 * level) + (head + Styled(v, 3 * level) + c) + StyledMembers(ms[1..], 3 * level)
  {
    hide Lines, Styled, Spaces, Quoted, UptoNul;
    if ms != [] {
      CommaIs(|ms| > 1);
      hide CommaText, Comma;
      assert [SPACE] + [COLON] + [SPACE] == Ascii(" : ");
      Grouped([LF] + Spaces(3 * level), Quoted(UptoNul(ms[0].name)) + Ascii(" : "), Styled(ms[0].item, 3 * level),
              CommaText(|ms| > 1), StyledMembers(ms[1..], 3 * level));
    }
  }

  /** The whole text. */
  lemma {:induction false} StyledIsLines(v: Value)
    ensures Styled(v, 0) + [LF] == Render(Lines(v, 0, [], []))
  {
    hide *;
    LinesAreStyled(v, 0, [], []);
    NoBlanks(Styled(v, 0));
  }

  lemma NoBlanks(text: bytes)
    ensures Spaces(3 * 0) + ([] + text + [] + [LF]) == text + [LF]
  {
  }

  // ---------------------------------------------------------------- the depth of the lines

  /** The line ends in an opening bracket. */
  predicate Opens(line: Line) {
    line.text != [] && line.text[|line.text| - 1] in {91, 123}
  }

  /** The line starts with a closing bracket. */
  predicate Closes(line: Line) {
    line.text != [] && line.text[0] in {93, 125}
  }

  /** Every line is as many levels deep as containers are open before it, one less if it closes one:
      `open` in front of the first line, and `end` behind the last. */
  predicate Nested(lines: seq<Line>, open: int, end: int) {
    if lines == [] then open == end
    else
      && lines[0].level == (if Closes(lines[0]) then open - 1 else open)
      && Nested(lines[1..], if Opens(lines[0]) then lines[0].level + 1 else lines[0].level, end)
  }

  /** The text starts with no blank and has no line feed: the line is one line of the document,
      and its blanks are those of its level. */
  predicate IsWhole(line: Line) {
    line.text != [] && line.text[0] != 32 && 10 !in line.text
  }

  predicate AllWhole(lines: seq<Line>) {
    forall k :: 0 <= k < |lines| ==> IsWhole(lines[k])
  }

  /** What stands in front of a value on its line: nothing, or a name and a colon. */
  predicate IsHead(head: bytes) {
    (head != [] ==> head[0] == QUOTE) && 10 !in head
  }

  predicate IsTail(tail: bytes) {
    tail == [] || tail == Ascii(",")
  }

  lemma {:induction false} NestedConcat(a: seq<Line>, b: seq<Line>, open: int, mid: int, end: int)
    requires Nested(a, open, mid) && Nested(b, mid, end)
    ensures Nested(a + b, open, end)
  {
    hide Opens, Closes;
    if a == [] {
      assert a + b == b;
    } else {
      assert (a + b)[1..] == a[1..] + b;
      NestedConcat(a[1..], b, if Opens(a[0]) then a[0].level + 1 else a[0].level, mid, end);
    }
  }

  lemma {:induction false} NestedOne(line: Line, open: int)
    requires line.level == if Closes(line) then open - 1 else open
    ensures Nested([line], open, if Opens(line) then line.level + 1 else line.level)
  {
    hide Opens, Closes;
    assert [line][1..] == [];
  }

  lemma {:induction false} QuotedIsWhole(s: bytes)
    ensures |Quoted(s)| >= 2 && Quoted(s)[0] == QUOTE && Quoted(s)[|Quoted(s)| - 1] == QUOTE && 10 !in Quoted(s)
  {
    hide EscapeAll;
    EscapesAreWhole(s);
  }

  lemma {:induction false} EscapesAreWhole(s: bytes)
    ensures 10 !in EscapeAll(s)
  {
    hide Escape;
    if s != [] {
      EscapeIsWhole(s[0]);
      EscapesAreWhole(s[1..]);
    }
  }

  lemma EscapeIsWhole(b: byte)
    ensures 10 !in Escape(b)
  {
  }

  lemma NumeralIsWhole(i: int)
    requires MIN_LARGEST_INT <= i <= MAX_LARGEST_UINT
    ensures var t := IntegerText(i);
      t != [] && (forall k :: 0 <= k < |t| ==> IsDigit(t[k]) || t[k] == MINUS)
  {
  }

  /** A piece has no line feed, and neither starts like a closing line nor ends like an opening one. */
  predicate IsSolid(t: bytes) {
    t != [] && t[0] !in {32, 93, 125} && t[|t| - 1] !in {91, 123} && 10 !in t
  }

  lemma {:induction false} PieceIsSolid(v: Value)
    requires Printable(v)
    ensures IsSolid(Piece(v))
    decreases Weight(v), 0
  {
    hide Quoted, IntegerText, Joined;
    match v
    case Int(i) => NumeralIsWhole(i);
    case UInt(u) => NumeralIsWhole(u);
    case Str(s) => QuotedIsWhole(s);
    case Array(slots) => JoinedIsWhole(slots);
    case _ =>
  }

  lemma {:induction false} JoinedIsWhole(slots: seq<Slot>)
    requires PrintableSlots(slots)
    ensures 10 !in Joined(slots)
    decreases WeightOfSlots(slots), 1
  {
    hide Piece, Printable;
    if slots != [] {
      PieceIsSolid(SlotValue(slots[0]));
      JoinedIsWhole(slots[1..]);
    }
  }

  lemma {:induction false} PieceLine(level: nat, head: bytes, piece: bytes, tail: bytes)
    requires IsHead(head) && IsTail(tail) && IsSolid(piece)
    ensures var line := Line(level, head + (piece + tail));
      Nested([line], level, level) && AllWhole([line])
  {
    var line := Line(level, head + (piece + tail));
    assert !Opens(line) && !Closes(line) && IsWhole(line);
    NestedOne(line, level);
  }

  lemma {:induction false} BracketLines(level: nat, head: bytes, tail: bytes, open: byte, close: byte, ls: seq<Line>)
    requires IsHead(head) && IsTail(tail) && (open, close) in {(91, 93), (123, 125)}
    requires Nested(ls, level + 1, level + 1) && AllWhole(ls)
    ensures var all := [Line(level, head + [open])] + ls + [Line(level, [close] + tail)];
      Nested(all, level, level) && AllWhole(all)
  {
    hide Nested;
    var a, b := Line(level, head + [open]), Line(level, [close] + tail);
    assert Opens(a) && !Closes(a) && IsWhole(a);
    assert Closes(b) && !Opens(b) && IsWhole(b);
    NestedOne(a, level);
    NestedOne(b, level + 1);
    NestedConcat([a], ls, level, level + 1, level + 1);
    NestedConcat([a] + ls, [b], level, level + 1, level);
  }

  /** The lines of a value are whole, and each is as deep as it should be. */
  lemma {:induction false} LinesNest(v: Value, level: nat, head: bytes, tail: bytes)
    requires Printable(v) && IsHead(head) && IsTail(tail)
    ensures Nested(Lines(v, level, head, tail), level, level) && AllWhole(Lines(v, level, head, tail))
    decreases Weight(v), 1
  {
    hide *;
    ListWeighsLess(v);
    LinesByShape(v, level, head, tail);
    if !IsBroken(v) {
      PieceIsSolid(v);
      PieceLine(level, head, Piece(v), tail);
    } else if v.Array? {
      ItemsNest(v.slots, level + 1);
      BracketLines(level, head, tail, 91, 93, ItemLines(v.slots, level + 1));
    } else {
      MembersNest(v.members, level + 1);
      BracketLines(level, head, tail, 123, 125, MemberLines(v.members, level + 1));
    }
  }

  lemma {:induction false} LinesByShape(v: Value, level: nat, head: bytes, tail: bytes)
    requires Printable(v)
    ensures !IsBroken(v) ==> Lines(v, level, head, tail) == [Line(level, head + (Piece(v) + tail))]
    ensures IsBroken(v) && v.Array? ==>
      && PrintableSlots(v.slots)
      && Lines(v, level, head, tail) ==
           [Line(level, head + [91])] + ItemLines(v.slots, level + 1) + [Line(level, [93] + tail)]
    ensures IsBroken(v) && !v.Array? ==>
      && v.Object? && PrintableMembers(v.members)
      && Lines(v, level, head, tail) ==
           [Line(level, head + [123])] + MemberLines(v.members, level + 1) + [Line(level, [125] + tail)]
  {
    hide OnOneLine, ItemLines, MemberLines, Piece;
    Brackets();
  }

  lemma {:induction false} ItemsNest(slots: seq<Slot>, level: nat)
    requires PrintableSlots(slots)
    ensures Nested(ItemLines(slots, level), level, level) && AllWhole(ItemLines(slots, level))
    decreases WeightOfSlots(slots), 2
  {
    hide Lines, IsWhole, Printable;
    if slots != [] {
      LinesNest(SlotValue(slots[0]), level, [], Comma(|slots| > 1));
      ItemsNest(slots[1..], level);
      NestedConcat(Lines(SlotValue(slots[0]), level, [], Comma(|slots| > 1)), ItemLines(slots[1..], level),
                   level, level, level);
    }
  }

  lemma {:induction false} MembersNest(ms: seq<Member>, level: nat)
    requires PrintableMembers(ms)
    ensures Nested(MemberLines(ms, level), level, level) && AllWhole(MemberLines(ms, level))
    decreases WeightOfMembers(ms), 2
  {
    hide Lines, IsWhole, Printable, Quoted, UptoNul;
    if ms != [] {
      var head := Quoted(UptoNul(ms[0].name)) + Ascii(" : ");
      QuotedIsWhole(UptoNul(ms[0].name));
      LinesNest(ms[0].item, level, head, Comma(|ms| > 1));
      MembersNest(ms[1..], level);
      NestedConcat(Lines(ms[0].item, level, head, Comma(|ms| > 1)), MemberLines(ms[1..], level), level, level, level);
    }
  }

  // ---------------------------------------------------------------- which lines

  lemma {:induction false} LinesNonempty(v: Value, level: nat, head: bytes, tail: bytes)
    ensures Lines(v, level, head, tail) != []
  {
    hide IsBroken, Piece, ItemLines, MemberLines;
  }

  lemma {:induction false} EnoughLines(slots: seq<Slot>, level: nat)
    ensures |ItemLines(slots, level)| >= |slots|
  {
    hide Lines;
    if slots != [] {
      LinesNonempty(SlotValue(slots[0]), level, [], Comma(|slots| > 1));
      EnoughLines(slots[1..], level);
    }
  }

  function PieceLengths(slots: seq<Slot>): nat {
    if slots == [] then 0 else |Piece(SlotValue(slots[0]))| + PieceLengths(slots[1..])
  }

  lemma {:induction false} JoinedLength(slots: seq<Slot>)
    requires slots != []
    ensures |Joined(slots)| == PieceLengths(slots) + 2 * (|slots| - 1)
  {
    hide Piece;
    if |slots| > 1 { JoinedLength(slots[1..]); } else { assert PieceLengths(slots[1..]) == 0; }
  }

  /** An array with items is on one line, `[ a, b ]`, exactly when no item has items or members, there
      are at most 24 of them, and the brackets, the items and what stands between them are at most 73
      bytes. */
  lemma {:induction false} OneLineExactly(slots: seq<Slot>, level: nat, head: bytes, tail: bytes)
    requires slots != []
    ensures |Lines(Array(slots), level, head, tail)| == 1 <==>
      && (forall k :: 0 <= k < |slots| ==> Size(SlotValue(slots[k])) == 0)
      && |slots| <= 24
      && 4 + PieceLengths(slots) + 2 * (|slots| - 1) <= 73
    ensures |Lines(Array(slots), level, head, tail)| == 1 ==>
      Lines(Array(slots), level, head, tail) ==
        [Line(level, head + ((Ascii("[ ") + (Joined(slots) + Ascii(" ]"))) + tail))]
  {
    hide Joined, ItemLines, PieceLengths;
    EnoughLines(slots, level + 1);
    JoinedLength(slots);
  }

  /** Every item of a list of items that are not broken has its line, with a comma but for the last. */
  lemma {:induction false} ItemLineAt(slots: seq<Slot>, level: nat, k: nat)
    requires k < |slots| && forall j :: 0 <= j < |slots| ==> !IsBroken(SlotValue(slots[j]))
    ensures |ItemLines(slots, level)| == |slots|
    ensures ItemLines(slots, level)[k] ==
      Line(level, Piece(SlotValue(slots[k])) + if k + 1 < |slots| then Ascii(",") else [])
  {
    hide Piece, IsBroken;
    var text := Piece(SlotValue(slots[0])) + Comma(|slots| > 1);
    assert [] + text == text;
    if |slots| == 1 {
      assert slots[1..] == [];
    } else {
      ItemLineAt(slots[1..], level, if k == 0 then 0 else k - 1);
    }
  }

  /** And every member, with " : " between its name and its value. */
  lemma {:induction false} MemberLineAt(ms: seq<Member>, level: nat, k: nat)
    requires k < |ms| && forall j :: 0 <= j < |ms| ==> !IsBroken(ms[j].item)
    ensures |MemberLines(ms, level)| == |ms|
    ensures MemberLines(ms, level)[k] ==
      Line(level, Quoted(UptoNul(ms[k].name)) + Ascii(" : ") +
                  (Piece(ms[k].item) + if k + 1 < |ms| then Ascii(",") else []))
  {
    hide Piece, IsBroken, Quoted, UptoNul, Ascii;
    if |ms| == 1 {
      assert ms[1..] == [];
    } else {
      MemberLineAt(ms[1..], level, if k == 0 then 0 else k - 1);
    }
  }

  lemma {:induction false} RootLines(v: Value)
    requires Printable(v)
    ensures var lines := Lines(v, 0, [], []);
      Styled(v, 0) + [LF] == Render(lines) && Nested(lines, 0, 0) && AllWhole(lines)
  {
    hide Styled, Render, Lines, Nested, IsWhole;
    StyledIsLines(v);
    LinesNest(v, 0, [], []);
  }

  /** The text of the object with the one member "a", which is 1. */
  lemma {:induction false} SmallObject(v: Value)
    requires v == Object([Member([97], Int(1))])
    ensures Render(Lines(v, 0, [], [])) == Ascii("{\n") + Ascii("   \"a\" : 1\n") + Ascii("}\n")
  {
    hide Render, Ruled, Lines, MemberLines, Piece, Quoted;
    ObjectLines(v, 0, [], []);
    MemberLineAt(v.members, 1, 0);
    SmallPieces();
    var a, b, c := Line(0, [] + Ascii("{")), Line(1, Ascii("\"a\" : 1")), Line(0, Ascii("}") + []);
    assert MemberLines(v.members, 1) == [b] by {
      assert Ascii("\"a\"") + Ascii(" : ") + (Ascii("1") + []) == Ascii("\"a\" : 1");
    }
    RenderThree(a, [b], c);
    RenderOne(b);
    RuledTexts(a, b, c);
  }

  lemma RuledTexts(a: Line, b: Line, c: Line)
    requires a == Line(0, [] + Ascii("{")) && b == Line(1, Ascii("\"a\" : 1")) && c == Line(0, Ascii("}") + [])
    ensures Ruled(a) == Ascii("{\n") && Ruled(b) == Ascii("   \"a\" : 1\n") && Ruled(c) == Ascii("}\n")
  {
  }

  lemma {:induction false} SmallPieces()
    ensures Quoted(UptoNul([97])) == Ascii("\"a\"") && Piece(Int(1)) == Ascii("1")
  {
    var s: bytes := [97];
    assert s[1..] == [] && EscapeAll([]) == [];
    assert UptoNul(s) == s by { UptoNulOfNulFree(s); }
    assert EscapeAll(s) == [97] + [];
    assert Decimal(1) == [ZERO + 1];
  }
}
