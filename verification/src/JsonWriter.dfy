/** The two writers: FastWriter appends to a document, StyledWriter also measures an
    array by printing its items into a side list before it chooses a layout. */
module JsonWriter {
  import opened Bytes
  import opened Numerals
  import opened JsonValue
  import opened JsonText
  import Layout = JsonLayout

  // ---------------------------------------------------------------- integers

  const BUFFER_SIZE := 25

  /** uintToString: the numeral and its NUL are written backwards from `end`. It takes at
      most 21 bytes of the 25-byte buffer. */
  method UintToString(value: LargestUInt, buffer: array<byte>, end: nat) returns (current: nat)
    requires 21 <= end <= buffer.Length
    modifies buffer
    ensures end - 21 <= current < end
    ensures buffer[current..end] == Decimal(value) + [NUL]
    ensures buffer[..current] == old(buffer[..current]) && buffer[end..] == old(buffer[end..])
  {
    hide Pow10, Decimal;
    current := Prepend(buffer, end, end, NUL);
    var v: nat := value;
    ghost var k := 20;
    TwentyDigits(v);
    ghost var done, before := [NUL], old(buffer[..]);
    while true
      invariant 0 < k <= 20 && v < Pow10(k) && end - 1 - (20 - k) == current <= end - 1
      invariant buffer[current..end] == done && Decimal(v) + done == Decimal(value) + [NUL]
      invariant buffer[..current] == before[..current] && buffer[end..] == before[end..]
      decreases v
    {
      LastDigit(v, k, done);
      current := Prepend(buffer, current, end, ZERO + v % 10);
      done := [ZERO + v % 10] + done;
      v := v / 10;
      if v == 0 { break; }
      k := k - 1;
    }
  }

  /** Moving the last digit of v in front of `done`. */
  lemma LastDigit(v: nat, k: nat, done: bytes)
    requires k > 0 && v < Pow10(k)
    ensures v >= 10 ==> k > 1 && v / 10 < Pow10(k - 1)
    ensures Decimal(v) + done == (if v < 10 then [] else Decimal(v / 10)) + ([ZERO + v % 10] + done)
    ensures v < 10 ==> Decimal(v) + done == [ZERO + v % 10] + done
  {
    if v >= 10 {
      assert Pow10(k) == 10 * Pow10(k - 1);
      assert Pow10(0) == 1;
    }
  }

  /** *--current = b */
  method Prepend(buffer: array<byte>, current: nat, ghost end: nat, b: byte) returns (next: nat)
    requires 0 < current <= end <= buffer.Length
    modifies buffer
    ensures next == current - 1 && buffer[next..end] == [b] + old(buffer[current..end])
    ensures buffer[..next] == old(buffer[..next]) && buffer[end..] == old(buffer[end..])
  {
    next := current - 1;
    buffer[next] := b;
  }

  lemma TwentyDigits(v: nat)
    requires v <= MAX_LARGEST_UINT
    ensures v < Pow10(20)
  {
    assert Pow10(10) == 100_0000_0000 by {
      assert Pow10(5) == 10_0000 by { assert Pow10(2) == 100; }
      assert Pow10(8) == 1000 * Pow10(5);
    }
    assert Pow10(15) == 10_0000 * Pow10(10) by { assert Pow10(13) == 1000 * Pow10(10); }
    assert Pow10(20) == 10_0000 * Pow10(15) by { assert Pow10(18) == 1000 * Pow10(15); }
  }

  /** valueToString for either integer type. */
  method ValueToString(value: int) returns (text: bytes)
    requires MIN_LARGEST_INT <= value <= MAX_LARGEST_UINT
    ensures text == IntegerText(value)
  {
    hide Decimal;
    var buffer := new byte[BUFFER_SIZE](_ => 0);
    var current;
    if value == MIN_LARGEST_INT {
      current := PutNegative(MAX_LARGEST_INT + 1, buffer);
    } else if value < 0 {
      current := PutNegative(-value, buffer);
    } else {
      current := UintToString(value, buffer, BUFFER_SIZE);
      assert buffer[current..] == buffer[current..BUFFER_SIZE];
    }
    assert buffer[current..] == IntegerText(value) + [NUL] + [];
    CStringOf(IntegerText(value), []);
    text := UptoNul(buffer[current..]);
  }

  /** uintToString(magnitude, current); *--current = '-'; */
  method PutNegative(magnitude: LargestUInt, buffer: array<byte>) returns (current: nat)
    requires buffer.Length == BUFFER_SIZE
    modifies buffer
    ensures current < BUFFER_SIZE && buffer[current..] == [MINUS] + Decimal(magnitude) + [NUL]
  {
    hide Decimal;
    current := UintToString(magnitude, buffer, BUFFER_SIZE);
    ghost var tail := buffer[current..BUFFER_SIZE];
    current := current - 1;
    buffer[current] := MINUS;
    assert buffer[current..] == [MINUS] + tail;
  }

  /** A C string ends at its first NUL. */
  lemma {:induction false} CStringOf(s: bytes, rest: bytes)
    requires NulFree(s)
    ensures UptoNul(s + [NUL] + rest) == s
  {
    if s != [] {
      assert (s + [NUL] + rest)[1..] == s[1..] + [NUL] + rest;
      CStringOf(s[1..], rest);
    }
  }

  // ---------------------------------------------------------------- strings

  predicate IsControlCharacter(b: byte) {
    0 < b <= 0x1F
  }

  /** strnpbrk(s, "\"\\\b\f\n\r\t", n) != NULL */
  method HasSpecial(s: bytes) returns (found: bool)
    ensures found <==> exists k :: 0 <= k < |s| && s[k] in {QUOTE, BACKSLASH, 8, 12, LF, CR, TAB}
  {
    for k := 0 to |s|
      invariant forall j :: 0 <= j < k ==> s[j] !in {QUOTE, BACKSLASH, 8, 12, LF, CR, TAB}
    {
      if s[k] in {QUOTE, BACKSLASH, 8, 12, LF, CR, TAB} { return true; }
    }
    return false;
  }

  /** containsControlCharacter0 */
  method ContainsControlCharacter0(s: bytes) returns (found: bool)
    ensures found <==> exists k :: 0 <= k < |s| && (IsControlCharacter(s[k]) || s[k] == NUL)
  {
    for k := 0 to |s|
      invariant forall j :: 0 <= j < k ==> !IsControlCharacter(s[j]) && s[j] != NUL
    {
      if IsControlCharacter(s[k]) || s[k] == NUL { return true; }
    }
    return false;
  }

  lemma {:induction false} PlainIsItsEscape(s: bytes)
    requires forall k :: 0 <= k < |s| ==> Escape(s[k]) == [s[k]]
    ensures EscapeAll(s) == s
  {
    if s != [] { PlainIsItsEscape(s[1..]); }
  }

  lemma {:induction false} EscapeAllConcat(s: bytes, t: bytes)
    ensures EscapeAll(s + t) == EscapeAll(s) + EscapeAll(t)
  {
    if s == [] {
      assert s + t == t;
    } else {
      assert (s + t)[1..] == s[1..] + t;
      EscapeAllConcat(s[1..], t);
    }
  }

  lemma OneMoreEscape(s: bytes, k: nat)
    requires k < |s|
    ensures EscapeAll(s[..k + 1]) == EscapeAll(s[..k]) + Escape(s[k])
  {
    assert s[..k + 1] == s[..k] + [s[k]];
    EscapeAllConcat(s[..k], [s[k]]);
    assert [s[k]][1..] == [];
  }

  /** valueToQuotedStringN. */
  method ValueToQuotedStringN(value: bytes) returns (result: bytes)
    ensures result == Quoted(value)
  {
    hide EscapeAll, Escape, UptoNul;
    var special := HasSpecial(value);
    var control := ContainsControlCharacter0(value);
    if !special && !control {
      NothingToEscape(value);
      return [QUOTE] + UptoNul(value) + [QUOTE];
    }
    result := [QUOTE];
    NoEscapes();
    for k := 0 to |value|
      invariant result == [QUOTE] + EscapeAll(value[..k])
    {
      OneMoreEscape(value, k);
      var e := EscapeByte(value[k]);
      Appended([QUOTE], EscapeAll(value[..k]), e);
      result := result + e;
    }
    assert value[..|value|] == value;
    result := result + [QUOTE];
  }

  lemma NoEscapes()
    ensures EscapeAll([]) == []
  {
  }

  lemma Appended(a: bytes, b: bytes, c: bytes)
    ensures a + b + c == a + (b + c)
  {
  }

  /** The text of the fast path. */
  lemma {:induction false} NothingToEscape(s: bytes)
    requires forall k :: 0 <= k < |s| ==> s[k] != BACKSLASH && s[k] != QUOTE && !IsControlCharacter(s[k]) && s[k] != NUL
    ensures EscapeAll(s) == s && UptoNul(s) == s
  {
    forall k | 0 <= k < |s| ensures Escape(s[k]) == [s[k]] {}
    PlainIsItsEscape(s);
    UptoNulOfNulFree(s);
  }

  /** The switch of valueToQuotedStringN. */
  method EscapeByte(c: byte) returns (e: bytes)
    ensures e == Escape(c)
  {
    if c == QUOTE { e := [BACKSLASH, QUOTE]; }
    else if c == BACKSLASH { e := [BACKSLASH, BACKSLASH]; }
    else if c == 8 { e := [BACKSLASH, LOWER_B]; }
    else if c == 12 { e := [BACKSLASH, LOWER_F]; }
    else if c == LF { e := [BACKSLASH, LOWER_N]; }
    else if c == CR { e := [BACKSLASH, LOWER_R]; }
    else if c == TAB { e := [BACKSLASH, LOWER_T]; }
    else if IsControlCharacter(c) || c == NUL {
      e := [BACKSLASH, LOWER_U, ZERO, ZERO, HexDigit(c / 16), HexDigit(c % 16)];
    } else {
      e := [c];
    }
  }

  /** valueToQuotedString on the C string of `value`. */
  method ValueToQuotedString(value: bytes) returns (result: bytes)
    ensures result == Quoted(UptoNul(value))
  {
    result := ValueToQuotedStringN(UptoNul(value));
  }

  // ---------------------------------------------------------------- shared by the writers

  /** A lookup by one of the names of a sorted list finds that member. */
  lemma {:induction false} FindAt(ms: seq<Member>, k: nat)
    requires Sorted(ms) && k < |ms|
    ensures Find(ms, ms[k].name) == Item(ms[k].item)
  {
    hide Find;
    var r := Find(ms, ms[k].name);
    var j :| 0 <= j < |ms| && ms[j] == Member(ms[k].name, r.item);
    KeyTrichotomy(ms[j].name, ms[k].name);
  }

  /** The text of a scalar; reals print as the text kept with them. */
  method ScalarText(value: Value) returns (text: bytes)
    requires !value.Array? && !value.Object?
    ensures text == Flat(value)
  {
    match value {
      case Null => text := NULL_TEXT;
      case Int(i) => text := ValueToString(i);
      case UInt(u) => text := ValueToString(u);
      case Real(t) => text := t;
      case NullString => text := [];
      case Str(s) => text := ValueToQuotedStringN(s);
      case Bool(b) => text := if b then TRUE_TEXT else FALSE_TEXT;
    }
  }

  // ---------------------------------------------------------------- FastWriter

  /** What a loop that prints the comma before an item has still to print at `index`. */
  ghost function CompactSlotsFrom(slots: seq<Slot>, index: nat): bytes
    requires index <= |slots|
  {
    if index == 0 then CompactSlots(slots)
    else if index < |slots| then [COMMA] + CompactSlots(slots[index..])
    else []
  }

  ghost function CompactMembersFrom(ms: seq<Member>, index: nat): bytes
    requires index <= |ms|
  {
    if index == 0 then CompactMembers(ms)
    else if index < |ms| then [COMMA] + CompactMembers(ms[index..])
    else []
  }

  lemma CompactSlotsStep(slots: seq<Slot>, index: nat)
    requires index < |slots|
    ensures CompactSlotsFrom(slots, index) ==
      (if index > 0 then [COMMA] else []) + Compact(SlotValue(slots[index])) + CompactSlotsFrom(slots, index + 1)
  {
    hide Compact;
    assert slots[0..] == slots;
    assert slots[index..][1..] == slots[index + 1..];
  }

  lemma CompactMembersStep(ms: seq<Member>, index: nat)
    requires index < |ms|
    ensures CompactMembersFrom(ms, index) ==
      (if index > 0 then [COMMA] else []) + Quoted(ms[index].name) + [COLON] + Compact(ms[index].item)
      + CompactMembersFrom(ms, index + 1)
  {
    hide Compact, Quoted;
    assert ms[0..] == ms;
    assert ms[index..][1..] == ms[index + 1..];
  }

  lemma {:induction false} CompactEnds(slots: seq<Slot>, ms: seq<Member>)
    ensures CompactSlotsFrom(slots, 0) == CompactSlots(slots) && CompactSlotsFrom(slots, |slots|) == []
    ensures CompactMembersFrom(ms, 0) == CompactMembers(ms) && CompactMembersFrom(ms, |ms|) == []
  {
    hide Compact, MemberText;
  }

  class FastWriter {
    var document: bytes

    constructor ()
      ensures document == []
    {
      document := [];
    }

    method Write(root: Value) returns (text: bytes)
      requires WellFormed(root)
      modifies this
      ensures text == Compact(root) + [LF] && document == text
    {
      document := [];
      WriteValue(root);
      document := document + [LF];
      assert [] + Compact(root) == Compact(root);
      text := document;
    }

    method WriteValue(value: Value)
      requires WellFormed(value)
      modifies this
      ensures document == old(document) + Compact(value)
      decreases Weight(value), 1
    {
      hide CompactSlots, CompactMembers, Flat;
      match value {
        case Array(slots) =>
          document := document + [LBRACKET];
          WriteSlots(slots);
          document := document + [RBRACKET];
        case Object(ms) =>
          document := document + [LBRACE];
          WriteMembers(ms);
          document := document + [RBRACE];
        case _ =>
          var text := ScalarText(value);
          document := document + text;
      }
    }

    /** The loop of writeValue over the items of an array. */
    method WriteSlots(slots: seq<Slot>)
      requires forall k :: 0 <= k < |slots| && slots[k].Item? ==> WellFormed(slots[k].item)
      modifies this
      ensures document == old(document) + CompactSlots(slots)
      decreases WeightOfSlots(slots), 2
    {
      hide Compact, CompactSlots, CompactSlotsFrom;
      CompactEnds(slots, []);
      for index := 0 to |slots|
        invariant document + CompactSlotsFrom(slots, index) == old(document) + CompactSlots(slots)
      {
        CompactSlotsStep(slots, index);
        SlotWeighsLess(slots, index);
        if index > 0 { document := document + [COMMA]; }
        WriteValue(ItemAt(slots, index));
      }
    }

    /** The loop of writeValue over the members of an object. */
    method WriteMembers(ms: seq<Member>)
      requires Sorted(ms) && forall k :: 0 <= k < |ms| ==> WellFormed(ms[k].item)
      modifies this
      ensures document == old(document) + CompactMembers(ms)
      decreases WeightOfMembers(ms), 2
    {
      hide Compact, CompactMembers, CompactMembersFrom, Sorted, Quoted, WellFormed, Find;
      var members := Names(ms);
      CompactEnds([], ms);
      for index := 0 to |members|
        invariant document + CompactMembersFrom(ms, index) == old(document) + CompactMembers(ms)
      {
        CompactMembersStep(ms, index);
        MemberWeighsLess(ms, index);
        FindAt(ms, index);
        var name := members[index];
        if index > 0 { document := document + [COMMA]; }
        var quoted := ValueToQuotedStringN(name);
        document := document + quoted;
        document := document + [COLON];
        WriteValue(SlotValue(Find(ms, name)));
      }
    }
  }

  // ---------------------------------------------------------------- StyledWriter

  lemma {:induction false} FlatEndsSolid(v: Value)
    requires Printable(v) && IsFlat(v)
    ensures Flat(v) != [] && Flat(v)[|Flat(v)| - 1] !in {SPACE, LF}
  {
    var t := Flat(v);
    if v.Int? || v.UInt? { assert IsDigit(t[|t| - 1]); }
  }

  /** No text of a value ends in a blank, so the closing bracket gets a line of its own. */
  lemma {:induction false} StyledEndsSolid(v: Value, n: nat)
    requires Printable(v)
    ensures Styled(v, n) != [] && Styled(v, n)[|Styled(v, n)| - 1] !in {SPACE, LF}
  {
    hide Flat, StyledSlots, StyledMembers, Inline, MultiLine;
    if IsFlat(v) { FlatEndsSolid(v); }
  }

  lemma {:induction false} FlatIsStyled(v: Value, n: nat)
    requires IsFlat(v)
    ensures Styled(v, n) == Flat(v)
  {
    hide Flat;
  }

  ghost function FlatTexts(slots: seq<Slot>): (texts: seq<bytes>)
    ensures |texts| == |slots|
  {
    seq(|slots|, k requires 0 <= k < |slots| => Flat(SlotValue(slots[k])))
  }

  /** What the one-line loop has still to print at `index`. */
  ghost function InlineFrom(slots: seq<Slot>, index: nat): bytes
    requires index <= |slots|
  {
    if index == 0 then Inline(slots)
    else if index < |slots| then [COMMA, SPACE] + Inline(slots[index..])
    else []
  }

  lemma InlineStep(slots: seq<Slot>, index: nat)
    requires index < |slots|
    ensures InlineFrom(slots, index) ==
      (if index > 0 then [COMMA, SPACE] else []) + (Flat(SlotValue(slots[index])) + InlineFrom(slots, index + 1))
  {
    hide Flat;
    var rest := slots[index..];
    assert slots[0..] == slots;
    assert rest[1..] == slots[index + 1..] && rest[0] == slots[index];
    InlineUnfold(rest);
    hide Inline;
  }

  lemma {:induction false} InlineUnfold(slots: seq<Slot>)
    requires slots != []
    ensures Inline(slots) ==
      Flat(SlotValue(slots[0])) + (if |slots| > 1 then [COMMA, SPACE] + Inline(slots[1..]) else [])
  {
    hide Flat;
    if |slots| > 1 {
      JoinTwo(Flat(SlotValue(slots[0])), Inline(slots[1..]));
    }
  }

  lemma JoinTwo(head: bytes, x: bytes)
    ensures head + [COMMA] + ([SPACE] + x) == head + ([COMMA, SPACE] + x)
  {
  }

  /** Printing an item and then its comma makes the progress a loop step needs. */
  lemma Regroup(done: bytes, item: bytes, comma: bytes, rest: bytes)
    ensures done + (item + (comma + rest)) == done + item + comma + rest
  {
  }

  lemma {:induction false} InlineEnds(slots: seq<Slot>)
    ensures InlineFrom(slots, 0) == Inline(slots) && InlineFrom(slots, |slots|) == []
  {
    hide Flat;
  }

  lemma {:induction false} StyledSlotsStep(slots: seq<Slot>, index: nat, n: nat)
    requires index < |slots|
    ensures StyledSlots(slots[index..], n) ==
      NewLine(n) + Styled(SlotValue(slots[index]), n)
      + (CommaText(index + 1 < |slots|) + StyledSlots(slots[index + 1..], n))
  {
    hide Styled;
    assert slots[index..][1..] == slots[index + 1..];
  }

  lemma {:induction false} StyledMembersStep(ms: seq<Member>, index: nat, n: nat)
    requires index < |ms|
    ensures StyledMembers(ms[index..], n) ==
      NewLine(n) + MemberText(UptoNul(ms[index].name), [SPACE], Styled(ms[index].item, n))
      + (CommaText(index + 1 < |ms|) + StyledMembers(ms[index + 1..], n))
  {
    hide Styled, MemberText;
    assert ms[index..][1..] == ms[index + 1..];
  }

  lemma {:induction false} PrintableAt(slots: seq<Slot>, ms: seq<Member>)
    requires PrintableSlots(slots) && PrintableMembers(ms)
    ensures forall k :: 0 <= k < |slots| ==> Printable(SlotValue(slots[k]))
    ensures forall k :: 0 <= k < |ms| ==> Printable(ms[k].item)
    decreases |slots| + |ms|
  {
    hide Printable;
    if slots != [] { PrintableAt(slots[1..], []); }
    if ms != [] { PrintableAt([], ms[1..]); }
  }

  lemma {:induction false} FlatLengthStep(slots: seq<Slot>, index: nat)
    requires index < |slots|
    ensures FlatLength(slots[index..]) == |Flat(SlotValue(slots[index]))| + FlatLength(slots[index + 1..])
  {
    hide Flat;
    assert slots[index..][1..] == slots[index + 1..];
  }

  lemma NoMembersArePrintable()
    ensures PrintableMembers([]) && PrintableSlots([])
  {
  }

  lemma ItemIsWellFormed(slots: seq<Slot>, index: nat)
    requires index < |slots| && (slots[index].Item? ==> WellFormed(slots[index].item))
    ensures WellFormed(ItemAt(slots, index))
  {
  }

  class StyledWriter {
    var document: bytes
    var childValues: seq<bytes>
    var indentString: bytes
    var addChildValues: bool

    constructor ()
      ensures indentString == [] && !addChildValues
    {
      document, childValues, indentString, addChildValues := [], [], [], false;
    }

    ghost predicate Indented()
      reads this
    {
      indentString == Spaces(|indentString|)
    }

    /** A container may start here without a new line: at the very beginning, or behind a space. */
    ghost predicate Ready()
      reads this
    {
      (document == [] && indentString == []) || (document != [] && document[|document| - 1] == SPACE)
    }

    /** The next indented text starts a line of its own. */
    ghost predicate EndsSolid()
      reads this
    {
      document != [] && document[|document| - 1] !in {SPACE, LF}
    }

    method PushValue(value: bytes)
      modifies `document, `childValues
      ensures if addChildValues
        then document == old(document) && childValues == old(childValues) + [value]
        else document == old(document) + value && childValues == old(childValues)
    {
      if addChildValues {
        childValues := childValues + [value];
      } else {
        document := document + value;
      }
    }

    method WriteIndent()
      requires Indented()
      modifies `document
      ensures old(Ready()) ==> document == old(document)
      ensures old(EndsSolid()) ==> document == old(document) + NewLine(|indentString|)
    {
      if document != [] {
        var last := document[|document| - 1];
        if last == SPACE { return; }
        if last != LF { document := document + [LF]; }
      }
      document := document + indentString;
    }

    method WriteWithIndent(value: bytes)
      requires Indented()
      modifies `document
      ensures old(Ready()) ==> document == old(document) + value
      ensures old(EndsSolid()) ==> document == old(document) + NewLine(|indentString|) + value
    {
      WriteIndent();
      document := document + value;
    }

    method Indent()
      requires Indented()
      modifies `indentString
      ensures Indented() && |indentString| == |old(indentString)| + INDENT
    {
      indentString := indentString + Spaces(INDENT);
    }

    method Unindent()
      requires Indented() && |indentString| >= INDENT
      modifies `indentString
      ensures Indented() && |indentString| == |old(indentString)| - INDENT
    {
      indentString := indentString[..|indentString| - INDENT];
    }

    /** The document is the styled text of the root and a line feed, which is the text of its
        lines. Every line is whole, and three blanks deep for every container open before it. */
    method Write(root: Value) returns (text: bytes)
      requires WellFormed(root) && Printable(root)
      modifies this
      ensures text == Styled(root, 0) + [LF] && document == text
      ensures var lines := Layout.Lines(root, 0, [], []);
        text == Layout.Render(lines) && Layout.Nested(lines, 0, 0) && Layout.AllWhole(lines)
    {
      document := [];
      addChildValues := false;
      indentString := [];
      WriteValue(root);
      document := document + [LF];
      assert [] + Styled(root, 0) == Styled(root, 0);
      text := document;
      Layout.RootLines(root);
    }

    /** Either the text of the value is appended to the document, or, when an array is being
        measured, exactly one string is appended to the side list. The indentation is left
        as it was found. */
    method WriteValue(value: Value)
      requires WellFormed(value) && Printable(value) && Indented()
      requires if addChildValues then IsFlat(value) else IsFlat(value) || Ready()
      modifies this
      ensures indentString == old(indentString) && addChildValues == old(addChildValues)
      ensures old(addChildValues) ==> document == old(document) && childValues == old(childValues) + [Flat(value)]
      ensures !old(addChildValues) ==> document == old(document) + Styled(value, |indentString|)
      decreases Weight(value), 3
    {
      hide StyledSlots, StyledMembers, MultiLine, Inline, Quoted, IntegerText, Sorted, NewLine, Printable;
      if value.Array? {
        WriteArrayValue(value);
      } else if value.Object? {
        if value.members == [] {
          PushValue([LBRACE, RBRACE]);
        } else {
          PrintableMembersOf(value);
          WriteObject(value.members);
        }
      } else {
        var text := ScalarText(value);
        PushValue(text);
      }
    }

    lemma {:induction false} PrintableMembersOf(value: Value)
      requires value.Object? && Printable(value)
      ensures PrintableMembers(value.members)
    {
    }

    /** writeValue of an object with members. */
    method WriteObject(ms: seq<Member>)
      requires ms != [] && Sorted(ms) && PrintableMembers(ms)
      requires forall k :: 0 <= k < |ms| ==> WellFormed(ms[k].item)
      requires Indented() && Ready() && !addChildValues
      modifies this
      ensures indentString == old(indentString) && !addChildValues
      ensures var n := |indentString|;
        document == old(document) + ([LBRACE] + StyledMembers(ms, n + INDENT) + NewLine(n) + [RBRACE])
      decreases WeightOfMembers(ms), 5
    {
      hide StyledMembers, WellFormed, PrintableMembers, Sorted, NewLine;
      WriteWithIndent([LBRACE]);
      Indent();
      WriteMembers(ms);
      Unindent();
      WriteWithIndent([RBRACE]);
    }

    /** The loop of writeValue over the members of an object. */
    method WriteMembers(ms: seq<Member>)
      requires ms != [] && Sorted(ms) && PrintableMembers(ms)
      requires forall k :: 0 <= k < |ms| ==> WellFormed(ms[k].item)
      requires Indented() && |indentString| >= INDENT && !addChildValues && EndsSolid()
      modifies this
      ensures indentString == old(indentString) && !addChildValues && EndsSolid()
      ensures document == old(document) + StyledMembers(ms, |indentString|)
      decreases WeightOfMembers(ms), 2
    {
      hide StyledMembers, WellFormed, Printable, Sorted, WeightOfMembers, Find;
      var members := Names(ms);
      ghost var n := |indentString|;
      assert ms[0..] == ms && ms[|ms|..] == [];
      NothingToPrint(n);
      NoMembersArePrintable();
      PrintableAt([], ms);
      var it := 0;
      while it < |members|
        invariant it <= |ms| && indentString == old(indentString) && !addChildValues && EndsSolid()
        invariant document + StyledMembers(ms[it..], n) == old(document) + StyledMembers(ms, n)
      {
        var name := members[it];
        MemberWeighsLess(ms, it);
        FindAt(ms, it);
        WriteMemberAt(ms, it, name, SlotValue(Find(ms, name)), it + 1 == |members|);
        it := it + 1;
      }
    }

    /** One turn of that loop: the member, and a comma unless it is the last. */
    method WriteMemberAt(ghost ms: seq<Member>, ghost it: nat, name: bytes, childValue: Value, last: bool)
      requires it < |ms| && Member(name, childValue) == ms[it] && last == (it + 1 == |ms|)
      requires WellFormed(childValue) && Printable(childValue)
      requires Indented() && |indentString| >= INDENT && !addChildValues && EndsSolid()
      modifies this
      ensures indentString == old(indentString) && !addChildValues && EndsSolid()
      ensures document + StyledMembers(ms[it + 1..], |indentString|)
           == old(document) + StyledMembers(ms[it..], |indentString|)
      decreases Weight(childValue), 5
    {
      hide Styled, StyledMembers, WellFormed, Printable, MemberText, NewLine, UptoNul;
      ghost var n := |indentString|;
      StyledMembersStep(ms, it, n);
      WriteMember(name, childValue);
      if !last { document := document + [COMMA]; }
      Regroup(old(document), NewLine(n) + MemberText(UptoNul(name), [SPACE], Styled(childValue, n)),
              CommaText(it + 1 < |ms|), StyledMembers(ms[it + 1..], n));
    }

    /** One member on a line of its own. */
    method WriteMember(name: bytes, childValue: Value)
      requires WellFormed(childValue) && Printable(childValue)
      requires Indented() && |indentString| >= INDENT && !addChildValues && EndsSolid()
      modifies this
      ensures indentString == old(indentString) && !addChildValues && EndsSolid()
      ensures var n := |indentString|;
        document == old(document) + (NewLine(n) + MemberText(UptoNul(name), [SPACE], Styled(childValue, n)))
      decreases Weight(childValue), 4
    {
      hide Styled, Quoted, Printable, WellFormed;
      StyledEndsSolid(childValue, |indentString|);
      var quoted := ValueToQuotedString(name);
      WriteWithIndent(quoted);
      document := document + [SPACE, COLON, SPACE];
      WriteValue(childValue);
      assert [SPACE, COLON, SPACE] == [SPACE] + [COLON] + [SPACE];
    }

    lemma {:induction false} NothingToPrint(n: nat)
      ensures StyledMembers([], n) == [] && StyledSlots([], n) == []
    {
    }

    method WriteArrayValue(value: Value)
      requires value.Array? && WellFormed(value) && Printable(value) && Indented()
      requires if addChildValues then IsFlat(value) else IsFlat(value) || Ready()
      modifies this
      ensures indentString == old(indentString) && addChildValues == old(addChildValues)
      ensures old(addChildValues) ==> document == old(document) && childValues == old(childValues) + [Flat(value)]
      ensures !old(addChildValues) ==> document == old(document) + Styled(value, |indentString|)
      decreases Weight(value), 2
    {
      hide StyledSlots, Inline, FlatTexts, HasNested, FlatLength, NewLine, Quoted, IntegerText;
      var slots := value.slots;
      if |slots| == 0 {
        PushValue([LBRACKET, RBRACKET]);
      } else {
        var isArrayMultiLine := IsMultineArray(slots);
        if isArrayMultiLine {
          WriteMultiLine(slots);
        } else {
          assert |childValues| == |slots|;
          WriteOneLine(slots);
        }
      }
    }

    method WriteMultiLine(slots: seq<Slot>)
      requires slots != [] && PrintableSlots(slots)
      requires forall k :: 0 <= k < |slots| && slots[k].Item? ==> WellFormed(slots[k].item)
      requires childValues != [] ==> !HasNested(slots) && childValues == FlatTexts(slots)
      requires Indented() && Ready() && !addChildValues
      modifies this
      ensures indentString == old(indentString) && !addChildValues
      ensures var n := |indentString|;
        document == old(document) + ([LBRACKET] + StyledSlots(slots, n + INDENT) + NewLine(n) + [RBRACKET])
      decreases WeightOfSlots(slots), 5
    {
      hide StyledSlots, FlatTexts, HasNested, WellFormed, PrintableSlots, WeightOfSlots, NewLine;
      WriteWithIndent([LBRACKET]);
      Indent();
      WriteLines(slots);
      Unindent();
      WriteWithIndent([RBRACKET]);
    }

    method WriteOneLine(slots: seq<Slot>)
      requires slots != [] && childValues == FlatTexts(slots)
      modifies `document
      ensures document == old(document) + ([LBRACKET, SPACE] + Inline(slots) + [SPACE, RBRACKET])
    {
      hide Inline, FlatTexts;
      document := document + [LBRACKET, SPACE];
      WriteInline(slots);
      document := document + [SPACE, RBRACKET];
    }

    /** The loop of writeArrayValue that prints one item a line. */
    method WriteLines(slots: seq<Slot>)
      requires slots != [] && PrintableSlots(slots)
      requires forall k :: 0 <= k < |slots| && slots[k].Item? ==> WellFormed(slots[k].item)
      requires childValues != [] ==> !HasNested(slots) && childValues == FlatTexts(slots)
      requires Indented() && |indentString| >= INDENT && !addChildValues && EndsSolid()
      modifies this
      ensures indentString == old(indentString) && !addChildValues && EndsSolid()
      ensures document == old(document) + StyledSlots(slots, |indentString|)
      decreases WeightOfSlots(slots), 4
    {
      hide StyledSlots, WellFormed, PrintableSlots, FlatTexts, HasNested, WeightOfSlots;
      ghost var n := |indentString|;
      assert slots[0..] == slots && slots[|slots|..] == [];
      NothingToPrint(n);
      var hasChildValue := childValues != [];
      var index := 0;
      while index < |slots|
        invariant index <= |slots| && indentString == old(indentString) && !addChildValues && EndsSolid()
        invariant hasChildValue ==> !HasNested(slots) && childValues == FlatTexts(slots)
        invariant document + StyledSlots(slots[index..], n) == old(document) + StyledSlots(slots, n)
      {
        WriteItem(slots, index, hasChildValue);
        index := index + 1;
      }
    }

    /** One turn of that loop: the item on a line of its own, and a comma unless it is the last. */
    method WriteItem(slots: seq<Slot>, index: nat, hasChildValue: bool)
      requires index < |slots| && PrintableSlots(slots)
      requires forall k :: 0 <= k < |slots| && slots[k].Item? ==> WellFormed(slots[k].item)
      requires hasChildValue ==> !HasNested(slots) && childValues == FlatTexts(slots)
      requires Indented() && |indentString| >= INDENT && !addChildValues && EndsSolid()
      modifies this
      ensures indentString == old(indentString) && !addChildValues && EndsSolid()
      ensures hasChildValue ==> childValues == old(childValues)
      ensures document + StyledSlots(slots[index + 1..], |indentString|)
           == old(document) + StyledSlots(slots[index..], |indentString|)
      decreases WeightOfSlots(slots), 3
    {
      hide Styled, StyledSlots, WellFormed, Printable, PrintableSlots, Flat, NewLine, WeightOfSlots;
      ghost var n := |indentString|;
      NoMembersArePrintable();
      PrintableAt(slots, []);
      SlotWeighsLess(slots, index);
      ItemIsWellFormed(slots, index);
      StyledSlotsStep(slots, index, n);
      if hasChildValue {
        WriteMeasured(ItemAt(slots, index), childValues[index]);
      } else {
        WriteLine(ItemAt(slots, index));
      }
      if index + 1 < |slots| { document := document + [COMMA]; }
      Regroup(old(document), NewLine(n) + Styled(ItemAt(slots, index), n),
              CommaText(index + 1 < |slots|), StyledSlots(slots[index + 1..], n));
    }

    /** writeWithIndent(childValues_[index]) */
    method WriteMeasured(childValue: Value, text: bytes)
      requires Printable(childValue) && IsFlat(childValue) && text == Flat(childValue)
      requires Indented() && |indentString| >= INDENT && EndsSolid()
      modifies `document
      ensures EndsSolid()
      ensures document == old(document) + (NewLine(|indentString|) + Styled(childValue, |indentString|))
    {
      hide Styled, Flat;
      FlatIsStyled(childValue, |indentString|);
      FlatEndsSolid(childValue);
      WriteWithIndent(text);
    }

    /** writeIndent(); writeValue(childValue); */
    method WriteLine(childValue: Value)
      requires WellFormed(childValue) && Printable(childValue)
      requires Indented() && |indentString| >= INDENT && !addChildValues && EndsSolid()
      modifies this
      ensures indentString == old(indentString) && !addChildValues && EndsSolid()
      ensures document == old(document) + (NewLine(|indentString|) + Styled(childValue, |indentString|))
      decreases Weight(childValue), 4
    {
      hide Styled, Printable, WellFormed;
      StyledEndsSolid(childValue, |indentString|);
      WriteIndent();
      WriteValue(childValue);
    }

    /** The loop of writeArrayValue that prints the measured items on one line. */
    method WriteInline(slots: seq<Slot>)
      requires slots != [] && childValues == FlatTexts(slots)
      modifies `document
      ensures document == old(document) + Inline(slots)
    {
      hide Inline, Flat, InlineFrom;
      InlineEnds(slots);
      for index := 0 to |slots|
        invariant document + InlineFrom(slots, index) == old(document) + Inline(slots)
      {
        InlineStep(slots, index);
        if index > 0 { document := document + [COMMA, SPACE]; }
        document := document + childValues[index];
      }
    }

    /** Whether the array needs several lines. The items are measured by printing them into
        the side list, one string for each, unless the answer is known before. */
    method IsMultineArray(slots: seq<Slot>) returns (isMultiLine: bool)
      requires slots != [] && PrintableSlots(slots) && Indented() && !addChildValues
      requires forall k :: 0 <= k < |slots| && slots[k].Item? ==> WellFormed(slots[k].item)
      modifies this
      ensures document == old(document) && indentString == old(indentString) && !addChildValues
      ensures isMultiLine == MultiLine(slots)
      ensures childValues == if |slots| * 3 >= RIGHT_MARGIN || HasNested(slots) then [] else FlatTexts(slots)
      decreases WeightOfSlots(slots), 4
    {
      hide Flat, WellFormed, Printable, Styled;
      var size := |slots|;
      isMultiLine := size * 3 >= RIGHT_MARGIN;
      childValues := [];
      var index := 0;
      while index < size && !isMultiLine
        invariant index <= size && childValues == []
        invariant document == old(document) && indentString == old(indentString) && !addChildValues
        invariant !isMultiLine ==> size * 3 < RIGHT_MARGIN && forall k :: 0 <= k < index ==> IsFlat(SlotValue(slots[k]))
        invariant isMultiLine ==> size * 3 >= RIGHT_MARGIN || HasNested(slots)
      {
        var childValue := ItemAt(slots, index);
        isMultiLine := isMultiLine || ((childValue.Array? || childValue.Object?) && Size(childValue) > 0);
        if isMultiLine { assert !IsFlat(SlotValue(slots[index])); }
        index := index + 1;
      }
      if !isMultiLine {
        isMultiLine := MeasureItems(slots);
      }
    }

    /** The measuring pass of isMultineArray. */
    method MeasureItems(slots: seq<Slot>) returns (isMultiLine: bool)
      requires slots != [] && PrintableSlots(slots) && Indented() && !addChildValues && childValues == []
      requires forall k :: 0 <= k < |slots| && slots[k].Item? ==> WellFormed(slots[k].item)
      requires forall k :: 0 <= k < |slots| ==> IsFlat(SlotValue(slots[k]))
      modifies this
      ensures document == old(document) && indentString == old(indentString) && !addChildValues
      ensures isMultiLine <==> 4 + (|slots| - 1) * 2 + FlatLength(slots) >= RIGHT_MARGIN
      ensures childValues == FlatTexts(slots)
      decreases WeightOfSlots(slots), 3
    {
      hide Flat, WellFormed, Printable, Styled, FlatLength;
      NoMembersArePrintable();
      PrintableAt(slots, []);
      addChildValues := true;
      var lineLength := 4 + (|slots| - 1) * 2;
      assert slots[0..] == slots;
      for index := 0 to |slots|
        invariant document == old(document) && indentString == old(indentString) && addChildValues
        invariant childValues == FlatTexts(slots)[..index]
        invariant lineLength + FlatLength(slots[index..]) == 4 + (|slots| - 1) * 2 + FlatLength(slots)
      {
        FlatLengthStep(slots, index);
        SlotWeighsLess(slots, index);
        ItemIsWellFormed(slots, index);
        WriteValue(ItemAt(slots, index));
        lineLength := lineLength + |childValues[index]|;
      }
      NoLength();
      assert slots[|slots|..] == [];
      addChildValues := false;
      return lineLength >= RIGHT_MARGIN;
    }

    lemma NoLength()
      ensures FlatLength([]) == 0
    {
    }
  }
}
