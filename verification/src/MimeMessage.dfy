/** The messages of the chat window: plain text parts and the multipart container around
    them, as they are composed and as they are taken apart. */
module MimeMessage {
  import opened Bytes
  import opened MemBio
  import opened MimeHeader
  import opened MimeLines
  import opened MimeParser
  import opened Multipart

  const CONTENT_TYPE := Ascii("Content-Type")
  const CONTENT_ENCODING := Ascii("Content-Transfer-Encoding")
  const TEXT_PLAIN := Ascii("text/plain")
  const SEVEN_BIT := Ascii("7bit")
  const MULTIPART := Ascii("multipart/")
  const MULTIPART_MIXED := Ascii("multipart/mixed")
  const BOUNDARY := Ascii("boundary")

  // ---------------------------------------------------------------- plain text

  const TEXT_FIELDS: seq<Field> := [Field(CONTENT_TYPE, TEXT_PLAIN, []), Field(CONTENT_ENCODING, SEVEN_BIT, [])]

  /** The two header lines, the blank line and the text. */
  function TextPlain(s: bytes): bytes {
    Rendered(TEXT_FIELDS) + s
  }

  /** multipart_partEncoding */
  function PartEncoding(part: bytes): bytes {
    var hs := ParseHeaders(part).headers;
    var k := FindHeader(hs, Lower(CONTENT_ENCODING));
    if k < 0 || hs[k].value.Null? then [] else hs[k].value.s
  }

  /** multipart_partContent */
  function PartContent(part: bytes): bytes {
    part[ParseHeaders(part).pos..]
  }

  /** fromMimeTextPlain */
  function FromTextPlain(part: bytes): bytes {
    if PartEncoding(part) == SEVEN_BIT then PartContent(part) else []
  }

  /** toMimeTextPlain: two header lines, a blank line and the text. */
  method ToMimeTextPlain(s: bytes) returns (mime: bytes)
    ensures mime == TextPlain(s)
    ensures mime == Ascii("Content-Type: text/plain\r\n") + Ascii("Content-Transfer-Encoding: 7bit\r\n") + [13, 10] + s
  {
    mime := Ascii("Content-Type: text/plain\r\n");
    mime := mime + Ascii("Content-Transfer-Encoding: 7bit\r\n");
    mime := mime + CRLF;
    TextHeader();
    mime := mime + s;
  }

  lemma TextHeader()
    ensures Ascii("Content-Type: text/plain\r\n") + Ascii("Content-Transfer-Encoding: 7bit\r\n") + CRLF
         == Rendered(TEXT_FIELDS)
  {
    TypeLine();
    EncodingLine();
    var f, g := TEXT_FIELDS[0], TEXT_FIELDS[1];
    assert TEXT_FIELDS[1..] == [g] && [g][1..] == [];
    hide RenderedField;
    assert Rendered([g]) == RenderedField(g) + CRLF;
  }

  lemma TypeLine()
    ensures RenderedField(TEXT_FIELDS[0]) == Ascii("Content-Type: text/plain\r\n")
  {
  }

  lemma EncodingLine()
    ensures RenderedField(TEXT_FIELDS[1]) == Ascii("Content-Transfer-Encoding: 7bit\r\n")
  {
  }

  lemma TextFieldsArePlain()
    ensures PlainField(TEXT_FIELDS[0]) && PlainField(TEXT_FIELDS[1])
    ensures ScannedField(TEXT_FIELDS[0]) && ScannedField(TEXT_FIELDS[1])
  {
    hide RenderedField, ScannedField, StripEnds, HeaderOf;
    TypeLine();
    EncodingLine();
    PlainIsScanned(TEXT_FIELDS[0]);
    PlainIsScanned(TEXT_FIELDS[1]);
  }

  /** Rendered fields in front of a body: their headers, and the place where the body starts. */
  lemma {:induction false} HeaderThenBody(fs: seq<Field>, body: bytes)
    requires forall k :: 0 <= k < |fs| ==> ScannedField(fs[k])
    ensures ParseHeaders(Rendered(fs) + body) == Parsed(HeadersOf(fs), |Rendered(fs)|)
  {
    hide ScannedField, Rendered, ParseFrom, HeaderOf;
    var s := Rendered(fs) + body;
    assert s[0..|Rendered(fs)|] == Rendered(fs);
    RenderedParses(s, 0, fs, []);
    assert [] + HeadersOf(fs) == HeadersOf(fs);
  }

  lemma {:induction false} EncodingIsFound(fs: seq<Field>)
    requires |fs| == 2 && fs[1] == TEXT_FIELDS[1] && HeaderOf(fs[0]).name == Str(Lower(CONTENT_TYPE))
    ensures FindHeader(HeadersOf(fs), Lower(CONTENT_ENCODING)) == 1
    ensures |HeadersOf(fs)| == 2 && HeadersOf(fs)[1].value == Str(SEVEN_BIT)
  {
    hide HeaderOf;
    var h, k := HeaderOf(fs[0]), HeaderOf(fs[1]);
    TwoHeaders(fs);
    EncodingHeader();
    assert h.name != k.name by { assert |Lower(CONTENT_TYPE)| == 12 && |Lower(CONTENT_ENCODING)| == 25; }
    assert HeadersOf(fs)[1..] == [k];
    assert FindHeader([k], Lower(CONTENT_ENCODING)) == 0;
  }

  lemma EncodingHeader()
    ensures HeaderOf(TEXT_FIELDS[1]).name == Str(Lower(CONTENT_ENCODING))
    ensures HeaderOf(TEXT_FIELDS[1]).value == Str(SEVEN_BIT)
  {
    hide RenderedField, HeaderOf;
    TextFieldsArePlain();
    PlainIsScanned(TEXT_FIELDS[1]);
    assert Lower(SEVEN_BIT) == SEVEN_BIT;
  }

  lemma {:induction false} TwoHeaders(fs: seq<Field>)
    requires |fs| == 2
    ensures HeadersOf(fs) == [HeaderOf(fs[0]), HeaderOf(fs[1])]
  {
    hide HeaderOf;
    assert fs[1..] == [fs[1]] && [fs[1]][1..] == [];
    assert HeadersOf([fs[1]]) == [HeaderOf(fs[1])];
  }

  /** Every text comes back from its plain text part. */
  lemma TextPlainRoundTrip(s: bytes)
    ensures FromTextPlain(TextPlain(s)) == s
  {
    hide Rendered, ParseHeaders, HeadersOf, HeaderOf, FindHeader, PlainField, ScannedField, Ascii, Lower;
    var head := Rendered(TEXT_FIELDS);
    TextFieldsArePlain();
    PlainIsScanned(TEXT_FIELDS[0]);
    TwoTextFields();
    HeaderThenBody(TEXT_FIELDS, s);
    EncodingIsFound(TEXT_FIELDS);
    assert (head + s)[|head|..] == s;
  }

  lemma TwoTextFields()
    ensures |TEXT_FIELDS| == 2
  {
  }

  /** multipart_partContent: the rest of the stream, 4096 bytes at a time. */
  method ReadPartContent(part: bytes) returns (out: bytes)
    ensures out == PartContent(part)
  {
    hide ParseHeaders;
    var bio := new Bio(part);
    var headers := ParseHdr(bio);
    out := [];
    ghost var start := bio.pos;
    var piece := bio.Read(4096);
    while piece != []
      invariant bio.Valid() && start + |out| + |piece| == bio.pos && out + piece == part[start..bio.pos]
      invariant piece == [] ==> bio.pos == |part|
      invariant bio.data == part && fresh(bio)
      decreases |part| - bio.pos + |piece|
    {
      out := out + piece;
      piece := bio.Read(4096);
    }
    assert out + [] == out && part[start..|part|] == part[start..];
  }

  /** multipart_partEncoding */
  method ReadPartEncoding(part: bytes) returns (encoding: bytes)
    ensures encoding == PartEncoding(part)
  {
    hide ParseHeaders, FindHeader, Lower;
    var bio := new Bio(part);
    var headers := ParseHdr(bio);
    var hdr := FindHeader(headers, Lower(CONTENT_ENCODING));
    if hdr < 0 || headers[hdr].value.Null? { return []; }
    return headers[hdr].value.s;
  }

  /** fromMimeTextPlain of core/src/multipart.cpp */
  method FromMimeTextPlain(part: bytes) returns (text: bytes)
    ensures text == FromTextPlain(part)
  {
    hide PartEncoding, PartContent;
    var encoding := ReadPartEncoding(part);
    var content := ReadPartContent(part);
    if encoding == SEVEN_BIT { return content; }
    return [];
  }

  // ---------------------------------------------------------------- the container

  const BOUNDARY_PREFIX := Ascii("BitMail-Boundary-")

  /** QUuid::toString without its braces: hexadecimal digits and hyphens. */
  predicate IsUuid(s: bytes) {
    |s| == 36 && forall k :: 0 <= k < |s| ==> IsDigit(s[k]) || 97 <= s[k] <= 102 || 65 <= s[k] <= 70 || s[k] == MINUS
  }

  function BoundaryOf(uuid: bytes): bytes {
    BOUNDARY_PREFIX + uuid
  }

  function MixedFields(bound: bytes): seq<Field> {
    [Field(CONTENT_TYPE, MULTIPART_MIXED, [(BOUNDARY, bound)]), Field(CONTENT_ENCODING, SEVEN_BIT, [])]
  }

  /** What toMixed composes. */
  function Mixed(parts: seq<bytes>, bound: bytes): bytes {
    Rendered(MixedFields(bound)) + MixedBody(parts, bound)
  }

  /** What multipart_split returns, with its list of parts, unless it follows a null pointer. */
  datatype Outcome = Returns(code: nat, out: seq<bytes>) | Crashes

  function SplitMessage(message: bytes): Outcome {
    var r := ParseHeaders(message);
    var k := FindHeader(r.headers, Lower(CONTENT_TYPE));
    if k < 0 || r.headers[k].value.Null? then Returns(1, [])
    else if !(MULTIPART <= r.headers[k].value.s) then Returns(0, [])
    else
      var j := FindParam(r.headers[k].params, BOUNDARY);
      if j < 0 || r.headers[k].params[j].value.Null? then Returns(1, [])
      else
        Collected(SplitFrom(message, r.pos, SPLIT_START, r.headers[k].params[j].value.s))
  }

  /** The loop over the parts; a container without any leaves a null pointer among them. */
  function Collected(end: SplitEnd): Outcome {
    if end.NoFinal? then Returns(1, [])
    else if end.st.bpart.NoPiece? then Crashes
    else Returns(0, AllParts(end.st))
  }

  lemma {:induction false} SplitFound(message: bytes, hs: seq<Header>, p: nat, bound: bytes)
    requires p <= |message| && ParseHeaders(message) == Parsed(hs, p) && hs != []
    requires FindHeader(hs, Lower(CONTENT_TYPE)) == 0 && hs[0].value.Str? && MULTIPART <= hs[0].value.s
    requires FindParam(hs[0].params, BOUNDARY) == 0 && hs[0].params[0].value == Str(bound)
    ensures SplitMessage(message) == Collected(SplitFrom(message, p, SPLIT_START, bound))
  {
    hide ParseHeaders, FindHeader, FindParam, SplitFrom, Collected, Lower, Ascii;
  }

  lemma TypeField(bound: bytes)
    ensures RenderedField(MixedFields(bound)[0]) == Ascii("Content-Type: multipart/mixed; boundary=") + bound + CRLF
  {
    hide RenderedParams;
    TypeFieldStart();
    OneParam(BOUNDARY, bound);
    TypeRegrouped(CONTENT_TYPE + [COLON, SPACE] + MULTIPART_MIXED, BOUNDARY, bound);
  }

  lemma OneParam(name: bytes, value: bytes)
    ensures RenderedParams([(name, value)]) == [SEMICOLON, SPACE] + name + [EQUALS] + value + []
  {
    assert [(name, value)][1..] == [];
  }

  lemma TypeRegrouped(head: bytes, name: bytes, value: bytes)
    ensures head + ([SEMICOLON, SPACE] + name + [EQUALS] + value + []) + CRLF
         == head + [SEMICOLON, SPACE] + name + [EQUALS] + value + CRLF
  {
  }

  lemma TypeFieldStart()
    ensures CONTENT_TYPE + [COLON, SPACE] + MULTIPART_MIXED + [SEMICOLON, SPACE] + BOUNDARY + [EQUALS]
         == Ascii("Content-Type: multipart/mixed; boundary=")
  {
  }

  /** The boundary passes the header parser and is found in no header. */
  lemma BoundaryIsPlain(uuid: bytes)
    requires IsUuid(uuid)
    ensures var b := BoundaryOf(uuid);
      Solid(b) && Avoids(b, {SEMICOLON, QUOTE, LPAREN}) && PlainBoundary(b) && |b| == 53
  {
  }

  lemma MixedFieldsArePlain(uuid: bytes)
    requires IsUuid(uuid)
    ensures var fs := MixedFields(BoundaryOf(uuid)); PlainField(fs[0]) && ScannedField(fs[0]) && ScannedField(fs[1])
  {
    hide RenderedField, IsUuid, ScannedField, HeaderOf;
    BoundaryIsPlain(uuid);
    TypeField(BoundaryOf(uuid));
    TextFieldsArePlain();
    PlainBoundaryParam(BoundaryOf(uuid));
    PlainIsScanned(MixedFields(BoundaryOf(uuid))[0]);
  }

  lemma PlainBoundaryParam(bound: bytes)
    requires Solid(bound) && Avoids(bound, {SEMICOLON, QUOTE, LPAREN})
    ensures PlainParams([(BOUNDARY, bound)]) && Solid(CONTENT_TYPE) && Avoids(CONTENT_TYPE, {COLON})
    ensures Solid(MULTIPART_MIXED) && Avoids(MULTIPART_MIXED, {SEMICOLON, LPAREN})
  {
    assert [(BOUNDARY, bound)][1..] == [];
  }

  /** The headers of a container whose boundary comes through the parser as `found`. */
  lemma {:induction false} TypeIsFound(fs: seq<Field>, found: Text)
    requires |fs| == 2
    requires HeaderOf(fs[0]) == Header(Str(Lower(CONTENT_TYPE)), Str(Lower(MULTIPART_MIXED)), [Param(Str(BOUNDARY), found)])
    ensures var hs := HeadersOf(fs);
      && FindHeader(hs, Lower(CONTENT_TYPE)) == 0
      && hs[0].value.Str? && MULTIPART <= hs[0].value.s
      && FindParam(hs[0].params, BOUNDARY) == 0 && hs[0].params[0].value == found
  {
    hide HeaderOf;
    TwoHeaders(fs);
    assert Lower(MULTIPART_MIXED)[..10] == MULTIPART;
  }

  lemma PlainTypeHeader(bound: bytes)
    requires PlainField(MixedFields(bound)[0])
    ensures HeaderOf(MixedFields(bound)[0])
         == Header(Str(Lower(CONTENT_TYPE)), Str(Lower(MULTIPART_MIXED)), [Param(Str(BOUNDARY), Str(bound))])
  {
    hide RenderedField, HeaderOf, ScannedField;
    PlainIsScanned(MixedFields(bound)[0]);
    assert [(BOUNDARY, bound)][1..] == [];
    assert Lower(BOUNDARY) == BOUNDARY;
  }

  /** Taking a composed container apart gives its parts, in order, but every 256th is lost: the
      counter of the splitter is a char. All come back exactly when there are fewer than 256. */
  lemma {:induction false} MixedRoundTrip(parts: seq<bytes>, uuid: bytes)
    requires IsUuid(uuid) && parts != []
    requires forall k :: 0 <= k < |parts| ==> PlainPart(parts[k], BoundaryOf(uuid))
    ensures SplitMessage(Mixed(parts, BoundaryOf(uuid))) == Returns(0, Kept(parts, 0))
    ensures SplitMessage(Mixed(parts, BoundaryOf(uuid))) == Returns(0, parts) <==> |parts| < 256
  {
    hide PlainPart, SplitMessage, Kept, IsUuid, Mixed, AfterParts, Collected, Ascii;
    var end := AfterParts(SPLIT_START, parts);
    MixedSplits(parts, uuid);
    AfterPartsKeep(SPLIT_START, parts);
    KeptSome(parts);
    NothingLost(parts);
    CollectedParts(end, Kept(parts, 0));
  }

  /** The container of no parts ends in the null pointer, and no other container of plain parts
      does. */
  lemma {:induction false} EmptyContainerCrashes(parts: seq<bytes>, uuid: bytes)
    requires IsUuid(uuid)
    requires forall k :: 0 <= k < |parts| ==> PlainPart(parts[k], BoundaryOf(uuid))
    ensures SplitMessage(Mixed(parts, BoundaryOf(uuid))).Crashes? <==> parts == []
  {
    hide PlainPart, SplitMessage, IsUuid, Mixed, Kept;
    if parts == [] { MixedSplits(parts, uuid); } else { MixedRoundTrip(parts, uuid); }
  }

  /** The boundary the splitter finds: null unless the message is a container that names one. */
  function BoundaryIn(message: bytes): Text {
    var hs := ParseHeaders(message).headers;
    var k := FindHeader(hs, Lower(CONTENT_TYPE));
    if k < 0 || hs[k].value.Null? || !(MULTIPART <= hs[k].value.s) then Null
    else
      var j := FindParam(hs[k].params, BOUNDARY);
      if j < 0 then Null else hs[k].params[j].value
  }

  /** Whatever the message: the null pointer is followed exactly when a container ends at its final
      boundary and before it every piece that is no boundary stands behind a number of boundaries
      that is 0 modulo 256. */
  lemma {:induction false} CrashesExactly(message: bytes)
    ensures SplitMessage(message).Crashes? <==>
      && BoundaryIn(message).Str?
      && (var cs := Checks(message, ParseHeaders(message).pos, BoundaryIn(message).s);
          && cs != [] && cs[|cs| - 1] == 2
          && forall k :: 0 <= k < |cs| && cs[k] == 0 ==> Boundaries(cs[..k]) % 256 == 0)
  {
    hide ParseFrom, FindHeader, FindParam, SplitFrom, Checks, Boundaries, Lower, Ascii;
    if BoundaryIn(message).Str? {
      NoPieceExactly(message, ParseHeaders(message).pos, SPLIT_START, BoundaryIn(message).s, 0);
      NoneTakenAtAll(Checks(message, ParseHeaders(message).pos, BoundaryIn(message).s));
    }
  }

  lemma NoneTakenAtAll(cs: seq<nat>)
    ensures (forall k :: 0 <= k < |cs| ==> !TakenAt(cs, 0, k))
       <==> forall k :: 0 <= k < |cs| && cs[k] == 0 ==> Boundaries(cs[..k]) % 256 == 0
  {
    hide Boundaries;
    forall k | 0 <= k < |cs| ensures !TakenAt(cs, 0, k) <==> (cs[k] == 0 ==> Boundaries(cs[..k]) % 256 == 0) {
      assert 0 + Boundaries(cs[..k]) == Boundaries(cs[..k]);
    }
    if (forall k :: 0 <= k < |cs| ==> !TakenAt(cs, 0, k)) {
      forall k | 0 <= k < |cs| && cs[k] == 0 ensures Boundaries(cs[..k]) % 256 == 0 { assert !TakenAt(cs, 0, k); }
    }
  }

  /** The header lines of a container whose boundary is written in quotes. */
  function QuotedFields(v: bytes): seq<Field> {
    [QuotedField(CONTENT_TYPE, MULTIPART_MIXED, BOUNDARY, v), Field(CONTENT_ENCODING, SEVEN_BIT, [])]
  }

  /** A container that quotes its boundary is split along it, but one whose boundary has one
      character is refused, whatever its body. */
  lemma {:induction false} QuotedBoundary(v: bytes, body: bytes)
    requires Avoids(v, {QUOTE}) && |v| + 44 < MAX_SMLEN
    ensures var head := Rendered(QuotedFields(v));
      SplitMessage(head + body) ==
        if |v| == 1 then Returns(1, []) else Collected(SplitFrom(head + body, |head|, SPLIT_START, v))
  {
    hide Rendered, ParseHeaders, HeadersOf, HeaderOf, FindHeader, FindParam, ScannedField, SplitFrom, SplitMessage,
         Collected, Ascii, Lower, Avoids, QuotedFields;
    var fs := QuotedFields(v);
    QuotedFieldsScan(v);
    HeaderThenBody(fs, body);
    TypeIsFound(fs, if |v| == 1 then Null else Str(v));
    var message, hs := Rendered(fs) + body, HeadersOf(fs);
    TwoHeaders(fs);
    if |v| == 1 {
      NotFound(message, hs, |Rendered(fs)|);
    } else {
      SplitFound(message, hs, |Rendered(fs)|, v);
    }
  }

  lemma {:induction false} NotFound(message: bytes, hs: seq<Header>, p: nat)
    requires p <= |message| && ParseHeaders(message) == Parsed(hs, p) && hs != []
    requires FindHeader(hs, Lower(CONTENT_TYPE)) == 0 && hs[0].value.Str? && MULTIPART <= hs[0].value.s
    requires FindParam(hs[0].params, BOUNDARY) == 0 && hs[0].params[0].value == Null
    ensures SplitMessage(message) == Returns(1, [])
  {
    hide ParseHeaders, FindHeader, FindParam, SplitFrom, Collected, Lower, Ascii;
  }

  lemma QuotedFieldsScan(v: bytes)
    requires Avoids(v, {QUOTE}) && |v| + 44 < MAX_SMLEN
    ensures var fs := QuotedFields(v);
      && |fs| == 2 && ScannedField(fs[0]) && ScannedField(fs[1])
      && HeaderOf(fs[0]) == Header(Str(Lower(CONTENT_TYPE)), Str(Lower(MULTIPART_MIXED)),
                                   [Param(Str(BOUNDARY), if |v| == 1 then Null else Str(v))])
  {
    hide RenderedField, ScannedField, HeaderOf, InQuotes, StripEnds, Lower;
    TextFieldsArePlain();
    QuotedTypeLength(v);
    var f := Field(CONTENT_TYPE, MULTIPART_MIXED, []);
    MixedTypeIsPlain();
    PlainIsScanned(f);
    QuotedIsScanned(CONTENT_TYPE, MULTIPART_MIXED, BOUNDARY, v);
    SolidStrips(CONTENT_TYPE);
    SolidStrips(MULTIPART_MIXED);
    SolidStrips(BOUNDARY);
    LowerBoundary();
  }

  lemma MixedTypeIsPlain()
    ensures PlainField(Field(CONTENT_TYPE, MULTIPART_MIXED, []))
    ensures Solid(CONTENT_TYPE) && Solid(MULTIPART_MIXED) && Solid(BOUNDARY) && Avoids(BOUNDARY, {EQUALS})
  {
  }

  lemma LowerBoundary()
    ensures Lower(BOUNDARY) == BOUNDARY
  {
  }

  lemma QuotedTypeLength(v: bytes)
    ensures |RenderedField(QuotedField(CONTENT_TYPE, MULTIPART_MIXED, BOUNDARY, v))| == |v| + 44
  {
    hide RenderedParams;
    OneParam(BOUNDARY, InQuotes(v));
  }

  /** "Content-Type: multipart/mixed;" and, on a line of its own, "boundary=" and the text. */
  function FoldedType(text: bytes): seq<bytes> {
    [CONTENT_TYPE + [COLON] + ([SPACE] + MULTIPART_MIXED + [SEMICOLON]), [TAB] + BOUNDARY + [EQUALS] + text]
  }

  /** A boundary on a continuation line is found, stripped as on any other line; without anything left
      of it the container is refused. */
  lemma {:induction false} FoldedBoundary(text: bytes, body: bytes)
    requires Balanced(Value, Value, text) && |text| + 12 < MAX_SMLEN
    ensures Folded(FoldedType(text))
    ensures var head := LinesText(FoldedType(text)) + CRLF;
      SplitMessage(head + body) ==
        if StripEnds(text).Null? then Returns(1, [])
        else Collected(SplitFrom(head + body, |head|, SPLIT_START, StripEnds(text).s))
  {
    hide FindHeader, FindParam, SplitFrom, SplitMessage, Collected, Ascii, Lower, Balanced, StripEnds, Folded,
         FoldedType, FoldedHeader, LinesText, ParseFrom;
    var ls := FoldedType(text);
    FoldedTypeFolds(text);
    var fs, head := [ls], LinesText(ls) + CRLF;
    var message := head + body;
    OneFolded(ls);
    assert At(message, 0, head) by { assert message[0..|head|] == head; }
    FoldedHeadersParse(message, 0, fs, []);
    assert [] + FoldedHeaders(fs) == [FoldedHeader(ls)];
    FoundInFolded(FoldedHeader(ls), StripEnds(text));
    if StripEnds(text).Null? {
      NotFound(message, [FoldedHeader(ls)], |head|);
    } else {
      SplitFound(message, [FoldedHeader(ls)], |head|, StripEnds(text).s);
    }
  }

  lemma {:induction false} OneFolded(ls: seq<bytes>)
    requires Folded(ls)
    ensures FoldedText([ls]) == LinesText(ls) + CRLF && FoldedHeaders([ls]) == [FoldedHeader(ls)]
  {
    hide Folded, LinesText, FoldedHeader;
    assert [ls][1..] == [];
    assert FoldedText([]) == CRLF && FoldedHeaders([]) == [];
  }

  lemma FoundInFolded(h: Header, found: Text)
    requires h == Header(Str(Lower(CONTENT_TYPE)), Str(Lower(MULTIPART_MIXED)), [Param(Str(BOUNDARY), found)])
    ensures FindHeader([h], Lower(CONTENT_TYPE)) == 0 && h.value.Str? && MULTIPART <= h.value.s
    ensures FindParam(h.params, BOUNDARY) == 0 && h.params[0].value == found
  {
    assert Lower(MULTIPART_MIXED)[..10] == MULTIPART;
  }

  lemma {:induction false} FoldedTypeFolds(text: bytes)
    requires Balanced(Value, Value, text) && |text| + 12 < MAX_SMLEN
    ensures var ls := FoldedType(text);
      Folded(ls) && FoldedHeader(ls) ==
        Header(Str(Lower(CONTENT_TYPE)), Str(Lower(MULTIPART_MIXED)), [Param(Str(BOUNDARY), StripEnds(text))])
  {
    hide Balanced, StripEnds, Lower, HeaderIn, ParamsIn, FitsLine, Folded, FoldedHeader, Ascii;
    TypeTexts();
    SpaceBalances(Type, MULTIPART_MIXED);
    HeaderLine(CONTENT_TYPE, [SPACE] + MULTIPART_MIXED);
    StripsSpaces(MULTIPART_MIXED);
    ParamLine([TAB] + BOUNDARY, text);
    FoldedLinesFit(text);
    var ls := FoldedType(text);
    TwoLines(ls[0], ls[1], Header(Str(Lower(CONTENT_TYPE)), Str(Lower(MULTIPART_MIXED)), []),
             Param(Str(BOUNDARY), StripEnds(text)));
  }

  lemma TypeTexts()
    ensures StripEnds(CONTENT_TYPE) == Str(CONTENT_TYPE) && StripEnds(MULTIPART_MIXED) == Str(MULTIPART_MIXED)
    ensures StripEnds([TAB] + BOUNDARY) == Str(BOUNDARY) && Lower(BOUNDARY) == BOUNDARY
    ensures COLON !in CONTENT_TYPE && EQUALS !in [TAB] + BOUNDARY && Balanced(Type, Type, MULTIPART_MIXED)
  {
    hide StripEnds, Balanced;
    MixedTypeIsPlain();
    SolidStrips(CONTENT_TYPE);
    SolidStrips(MULTIPART_MIXED);
    SolidStrips(BOUNDARY);
    AvoidsIsBalanced(Type, MULTIPART_MIXED);
    TabStrips(BOUNDARY);
    LowerBoundary();
  }

  lemma TabStrips(s: bytes)
    ensures StripEnds([TAB] + s) == StripEnds(s)
  {
    hide StripEnd;
    assert ([TAB] + s)[1..] == s;
  }

  lemma {:induction false} FoldedLinesFit(text: bytes)
    requires Balanced(Value, Value, text) && |text| + 12 < MAX_SMLEN
    ensures var ls := FoldedType(text);
      && FitsLine(ls[0]) && FitsLine(ls[1]) && !IsSpace(ls[0][0]) && IsSpace(ls[1][0])
  {
    hide Balanced;
    BalancedHasNoEnder(Value, Value, text);
  }

  lemma {:induction false} BalancedHasNoEnder(home: LineMode, mode: LineMode, s: bytes)
    requires Balanced(home, mode, s)
    ensures NoEnder(s)
    decreases |s|
  {
    if s != [] { BalancedHasNoEnder(home, TextMode(home, mode, s[0]), s[1..]); }
  }

  lemma CollectedParts(end: Split, kept: seq<bytes>)
    requires AllParts(end) == AllParts(SPLIT_START) + kept && kept != []
    requires end.bpart.NoPiece? ==> end.parts == []
    ensures Collected(Final(end)) == Returns(0, kept)
  {
    assert AllParts(SPLIT_START) + kept == kept;
  }

  lemma {:induction false} MixedSplits(parts: seq<bytes>, uuid: bytes)
    requires IsUuid(uuid) && forall k :: 0 <= k < |parts| ==> PlainPart(parts[k], BoundaryOf(uuid))
    ensures SplitMessage(Mixed(parts, BoundaryOf(uuid))) == Collected(Final(AfterParts(SPLIT_START, parts)))
  {
    hide Rendered, ParseHeaders, HeadersOf, HeaderOf, FindHeader, FindParam, PlainField, ScannedField, IsUuid, PlainPart, PlainBoundary, MixedBody,
         SplitFrom, AfterParts, SplitMessage, Collected, Ascii, Lower, BoundaryOf, MixedFields, Avoids, Solid;
    var bound := BoundaryOf(uuid);
    var fs, body := MixedFields(bound), MixedBody(parts, bound);
    var head := Rendered(fs);
    MixedFieldsArePlain(uuid);
    TwoFields(bound);
    BoundaryIsPlain(uuid);
    HeaderThenBody(fs, body);
    PlainTypeHeader(bound);
    TypeIsFound(fs, Str(bound));
    BodyBehind(head, body);
    BodySplits(head + body, |head|, parts, bound, SPLIT_START);
    SplitFound(head + body, HeadersOf(fs), |head|, bound);
  }

  lemma TwoFields(bound: bytes)
    ensures |MixedFields(bound)| == 2
  {
  }

  lemma BodyBehind(head: bytes, body: bytes)
    ensures At(head + body, |head|, body)
  {
  }

  lemma {:induction false} KeptSome(parts: seq<bytes>)
    requires parts != []
    ensures Kept(parts, 0) != []
  {
  }

  /** The header lines of a container with this boundary. */
  function ContainerHead(bound: bytes): bytes {
    Ascii("Content-Type: multipart/mixed; boundary=") + bound + [13, 10]
    + Ascii("Content-Transfer-Encoding: 7bit\r\n") + [13, 10]
  }

  /** toMixed; the uuid is what QUuid::createUuid gives. */
  method ToMixed(parts: seq<bytes>, uuid: bytes) returns (mime: bytes)
    ensures mime == Mixed(parts, BoundaryOf(uuid))
    ensures var bound := Ascii("BitMail-Boundary-") + uuid; mime == ContainerHead(bound) + MixedBody(parts, bound)
  {
    hide RenderedField, MixedBody, Rendered, MixedFields, BoundaryOf, ContainerHead, Ascii;
    var boundary := BoundaryOf(uuid);
    ContainerHeadIs(boundary);
    BoundaryIs(uuid);
    mime := MixedHead(boundary);
    ghost var head := mime;
    ghost var body := MixedBody(parts, boundary);
    var it := 0;
    assert parts[0..] == parts;
    while it < |parts|
      invariant it <= |parts| && mime + MixedBody(parts[it..], boundary) == head + body
    {
      BodyStep(parts, it, boundary, mime);
      mime := mime + DASHES;
      mime := mime + boundary;
      mime := mime + CRLF;
      mime := mime + parts[it];
      mime := mime + CRLF;
      it := it + 1;
    }
    BodyEnd(boundary, mime);
    assert parts[it..] == [];
    mime := mime + DASHES;
    mime := mime + boundary;
    mime := mime + DASHES;
    mime := mime + (CRLF + CRLF);
  }

  lemma BoundaryIs(uuid: bytes)
    ensures BoundaryOf(uuid) == Ascii("BitMail-Boundary-") + uuid
  {
  }

  lemma ContainerHeadIs(bound: bytes)
    ensures ContainerHead(bound) == Rendered(MixedFields(bound))
  {
    hide Rendered, MixedFields, Ascii;
    MixedHeader(bound);
    assert CRLF == [13, 10];
  }

  /** The header lines of toMixed. */
  method MixedHead(boundary: bytes) returns (mime: bytes)
    ensures mime == Rendered(MixedFields(boundary))
  {
    hide RenderedField, Rendered, MixedFields;
    mime := Ascii("Content-Type: multipart/mixed; boundary=") + boundary + CRLF;
    mime := mime + Ascii("Content-Transfer-Encoding: 7bit\r\n");
    mime := mime + CRLF;
    MixedHeader(boundary);
  }

  lemma MixedHeader(bound: bytes)
    ensures Ascii("Content-Type: multipart/mixed; boundary=") + bound + CRLF
            + Ascii("Content-Transfer-Encoding: 7bit\r\n") + CRLF == Rendered(MixedFields(bound))
  {
    hide RenderedField;
    TypeField(bound);
    EncodingLine();
    var fs := MixedFields(bound);
    assert fs[1..] == [fs[1]] && [fs[1]][1..] == [];
    assert Rendered([fs[1]]) == RenderedField(fs[1]) + CRLF;
  }

  lemma {:induction false} BodyStep(parts: seq<bytes>, it: nat, bound: bytes, done: bytes)
    requires it < |parts|
    ensures done + MixedBody(parts[it..], bound)
         == done + DASHES + bound + CRLF + parts[it] + CRLF + MixedBody(parts[it + 1..], bound)
  {
    assert parts[it..][1..] == parts[it + 1..];
    SixGrouped(done, DASHES, bound, CRLF, parts[it], MixedBody(parts[it + 1..], bound));
  }

  lemma SixGrouped(a: bytes, b: bytes, c: bytes, d: bytes, e: bytes, f: bytes)
    ensures a + (b + c + d + (e + d + f)) == a + b + c + d + e + d + f
  {
  }

  lemma {:induction false} BodyEnd(bound: bytes, done: bytes)
    ensures done + MixedBody([], bound) == done + DASHES + bound + DASHES + (CRLF + CRLF)
  {
  }

  lemma LastIsMissing(st: Split, parts: seq<Piece>, i: nat)
    requires parts == Pieces(st.parts) + [st.bpart] && i < |parts| && parts[i].NoPiece?
    ensures st.bpart.NoPiece?
  {
    assert i == |parts| - 1;
  }

  lemma AllIsOut(st: Split, parts: seq<Piece>, out: seq<bytes>)
    requires parts == Pieces(st.parts) + [st.bpart] && |out| == |parts|
    requires forall k :: 0 <= k < |parts| ==> parts[k] == Piece(out[k])
    ensures st.bpart.Piece? && out == AllParts(st)
  {
    var n := |st.parts|;
    assert parts[n] == st.bpart;
    assert forall k :: 0 <= k < n ==> parts[k] == Pieces(st.parts)[k];
  }

  /** multipart_split */
  method MultipartSplit(message: bytes) returns (r: Outcome)
    ensures r == SplitMessage(message)
  {
    hide ParseHeaders, FindHeader, FindParam, SplitFrom, Lower, Ascii;
    var bio := new Bio(message);
    var headers := ParseHdr(bio);
    var hdr := FindHeader(headers, Lower(CONTENT_TYPE));
    if hdr < 0 || headers[hdr].value.Null? { return Returns(1, []); }
    if !(MULTIPART <= headers[hdr].value.s) { return Returns(0, []); }
    var prm := FindParam(headers[hdr].params, BOUNDARY);
    if prm < 0 || headers[hdr].params[prm].value.Null? { return Returns(1, []); }
    ghost var end := SplitFrom(message, bio.pos, SPLIT_START, headers[hdr].params[prm].value.s);
    var ret, parts := MultiSplit(bio, headers[hdr].params[prm].value.s);
    if ret == 0 || |parts| == 0 { return Returns(1, []); }
    var out: seq<bytes> := [];
    for i := 0 to |parts|
      invariant |out| == i && forall k :: 0 <= k < i ==> parts[k] == Piece(out[k])
    {
      if parts[i].NoPiece? {
        LastIsMissing(end.st, parts, i);
        return Crashes;
      }
      out := out + [parts[i].s];
    }
    AllIsOut(end.st, parts, out);
    r := Returns(0, out);
  }

  /** fromMixed: the parts of the message, or none when it cannot be split. */
  method FromMixed(message: bytes) returns (r: Outcome)
    ensures SplitMessage(message).Returns? ==> r == Returns(0, SplitMessage(message).out)
    ensures SplitMessage(message).Crashes? ==> r == Crashes
  {
    hide SplitMessage;
    var split := MultipartSplit(message);
    if split.Crashes? { return Crashes; }
    var parts: seq<bytes> := [];
    for it := 0 to |split.out|
      invariant parts == split.out[..it]
    {
      parts := parts + [split.out[it]];
    }
    return Returns(0, parts);
  }

  /** Parts composed into a container and taken out of it again. */
  method ComposeAndSplit(parts: seq<bytes>, uuid: bytes) returns (r: Outcome)
    requires IsUuid(uuid) && parts != []
    requires forall k :: 0 <= k < |parts| ==> PlainPart(parts[k], BoundaryOf(uuid))
    ensures r == Returns(0, Kept(parts, 0))
    ensures |parts| < 256 ==> r == Returns(0, parts)
  {
    hide SplitMessage, Mixed, Kept, PlainPart, IsUuid;
    var mime := ToMixed(parts, uuid);
    MixedRoundTrip(parts, uuid);
    NothingLost(parts);
    r := FromMixed(mime);
  }

  // ---------------------------------------------------------------- other messages

  /** A part gives its text when its transfer encoding is 7bit, and nothing otherwise. */
  lemma {:induction false} OnlySevenBit(part: bytes)
    ensures var r := ParseHeaders(part);
      var k := FindHeader(r.headers, Ascii("content-transfer-encoding"));
      FromTextPlain(part) == if k >= 0 && r.headers[k].value == Str(Ascii("7bit")) then part[r.pos..] else []
  {
    hide ParseHeaders, FindHeader;
    assert Lower(CONTENT_ENCODING) == Ascii("content-transfer-encoding");
    assert SEVEN_BIT == Ascii("7bit") && |SEVEN_BIT| == 4;
  }

  /** A message without a content type cannot be split, one of a type that is not multipart has no
      parts, and a multipart message needs a boundary. */
  lemma {:induction false} OtherMessages(message: bytes)
    ensures var hs := ParseHeaders(message).headers;
      var k := FindHeader(hs, Ascii("content-type"));
      if k < 0 || hs[k].value.Null? then SplitMessage(message) == Returns(1, [])
      else if !(Ascii("multipart/") <= hs[k].value.s) then SplitMessage(message) == Returns(0, [])
      else
        var j := FindParam(hs[k].params, Ascii("boundary"));
        j < 0 || hs[k].params[j].value.Null? ==> SplitMessage(message) == Returns(1, [])
  {
    hide ParseHeaders, FindHeader, FindParam, SplitFrom, Collected;
    assert Lower(CONTENT_TYPE) == Ascii("content-type");
  }
}
