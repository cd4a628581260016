/** What mime_parse_hdr makes of a message, as functions of its bytes, and the headers that
    come through it unharmed. */
module MimeHeader {
  import opened Bytes
  import opened MemBio

  /** A char pointer: null, or a C string. */
  datatype Text = Null | Str(s: bytes)

  datatype Param = Param(name: Text, value: Text)

  datatype Header = Header(name: Text, value: Text, params: seq<Param>)

  // ---------------------------------------------------------------- strip_ends

  /** strip_start of a C string. */
  function StripStart(s: bytes): Text {
    if s == [] then Null
    else if s[0] == QUOTE then (if |s| > 1 then Str(s[1..]) else Null)
    else if !IsSpace(s[0]) then Str(s)
    else StripStart(s[1..])
  }

  /** strip_end of a C string. A quote at the end is dropped, with what is behind it, but a
      string of one character and a quote becomes null. */
  function StripEnd(s: bytes): Text {
    if s == [] then Null
    else
      var c := s[|s| - 1];
      if c == QUOTE then (if |s| == 2 then Null else Str(s[..|s| - 1]))
      else if IsSpace(c) then StripEnd(s[..|s| - 1])
      else Str(s)
  }

  function StripEnds(s: bytes): Text {
    var t := StripStart(s);
    if t.Null? then Null else StripEnd(t.s)
  }

  function Lowered(t: Text): Text {
    if t.Null? then Null else Str(Lower(t.s))
  }

  // ---------------------------------------------------------------- one line

  datatype LineMode = Start | Type | Name | Value | Quoted | Comment

  /** The state machine within a line: its mode, the mode to go back to behind a comment, where
      the current text starts, the name read last, and the headers so far. */
  datatype Scan = Scan(mode: LineMode, saved: LineMode, q: nat, name: Text, headers: seq<Header>)

  predicate EndsScan(c: byte) {
    c == NUL || c == CR || c == LF
  }

  function NewHeader(name: Text, value: Text): Header {
    Header(Lowered(name), Lowered(value), [])
  }

  /** mime_hdr_addparam on the header that was pushed last. */
  function AddParam(hs: seq<Header>, name: Text, value: Text): seq<Header> {
    if hs == [] then []
    else
      var h := hs[|hs| - 1];
      hs[|hs| - 1 := h.(params := h.params + [Param(Lowered(name), value)])]
  }

  /** The switch of mime_parse_hdr for the character at p; `text` is what stands at q..p. */
  function Step(sc: Scan, c: byte, p: nat, text: bytes): Scan {
    match sc.mode
    case Start => if c == COLON then sc.(mode := Type, name := StripEnds(text), q := p + 1) else sc
    case Type =>
      if c == SEMICOLON then
        Scan(Name, sc.saved, p + 1, Null, sc.headers + [NewHeader(sc.name, StripEnds(text))])
      else if c == LPAREN then sc.(saved := Type, mode := Comment)
      else sc
    case Comment => if c == RPAREN then sc.(mode := sc.saved) else sc
    case Name => if c == EQUALS then sc.(mode := Value, name := StripEnds(text), q := p + 1) else sc
    case Value =>
      if c == SEMICOLON then
        Scan(Name, sc.saved, p + 1, Null, AddParam(sc.headers, sc.name, StripEnds(text)))
      else if c == QUOTE then sc.(mode := Quoted)
      else if c == LPAREN then sc.(saved := Value, mode := Comment)
      else sc
    case Quoted => if c == QUOTE then sc.(mode := Value) else sc
  }

  /** The loop over the characters of a piece, from p on; it ends at a NUL, CR or LF. */
  function ScanFrom(line: bytes, p: nat, sc: Scan): (r: Scan)
    requires sc.q <= p <= |line|
    ensures sc.q <= r.q <= |line|
    decreases |line| - p
  {
    if p == |line| || EndsScan(line[p]) then sc
    else ScanFrom(line, p + 1, Step(sc, line[p], p, line[sc.q..p]))
  }

  /** What is done behind the loop; the text at q reaches to the end of the C string. */
  function FinishLine(sc: Scan, text: bytes): seq<Header> {
    if sc.mode == Type then sc.headers + [NewHeader(sc.name, StripEnds(text))]
    else if sc.mode == Value then AddParam(sc.headers, sc.name, StripEnds(text))
    else sc.headers
  }

  /** A piece that starts with white space continues the header before it. */
  function FirstScan(line: bytes, hs: seq<Header>): Scan {
    Scan(if hs != [] && IsSpace(ByteAt(line, 0)) then Name else Start, Start, 0, Null, hs)
  }

  /** The headers after the loop from p on and what is done behind it. */
  function Finished(line: bytes, p: nat, sc: Scan): seq<Header>
    requires sc.q <= p <= |line|
  {
    var end := ScanFrom(line, p, sc);
    FinishLine(end, UptoNul(line[end.q..]))
  }

  function ParseLine(line: bytes, hs: seq<Header>): seq<Header> {
    Finished(line, 0, FirstScan(line, hs))
  }

  /** A blank line, which is the end of the headers. */
  predicate IsBlankLine(line: bytes) {
    EndsScan(ByteAt(line, 0))
  }

  // ---------------------------------------------------------------- the whole header

  datatype Parsed = Parsed(headers: seq<Header>, pos: nat)

  /** The loop of mime_parse_hdr from p on. */
  function ParseFrom(s: bytes, p: nat, hs: seq<Header>): (r: Parsed)
    requires p <= |s|
    ensures p <= r.pos <= |s|
    decreases |s| - p
  {
    if p == |s| then Parsed(hs, p)
    else
      var e := PieceEnd(s, p);
      var line := s[p..e];
      if IsBlankLine(line) then Parsed(ParseLine(line, hs), e)
      else ParseFrom(s, e, ParseLine(line, hs))
  }

  function ParseHeaders(s: bytes): Parsed {
    ParseFrom(s, 0, [])
  }

  /** mime_hdr_find and mime_param_find, for names that occur once. */
  function FindHeader(hs: seq<Header>, name: bytes): (k: int)
    ensures -1 <= k < |hs| && (k >= 0 ==> hs[k].name == Str(name))
    ensures k < 0 ==> forall j :: 0 <= j < |hs| ==> hs[j].name != Str(name)
  {
    if hs == [] then -1
    else if hs[0].name == Str(name) then 0
    else
      var k := FindHeader(hs[1..], name);
      if k < 0 then -1 else k + 1
  }

  function FindParam(ps: seq<Param>, name: bytes): (k: int)
    ensures -1 <= k < |ps| && (k >= 0 ==> ps[k].name == Str(name))
    ensures k < 0 ==> forall j :: 0 <= j < |ps| ==> ps[j].name != Str(name)
  {
    if ps == [] then -1
    else if ps[0].name == Str(name) then 0
    else
      var k := FindParam(ps[1..], name);
      if k < 0 then -1 else k + 1
  }

  // ---------------------------------------------------------------- rendered headers

  datatype Field = Field(name: bytes, value: bytes, params: seq<(bytes, bytes)>)

  /** "name: value; p=v; p=v" and the line break. */
  function RenderedField(f: Field): bytes {
    f.name + [COLON, SPACE] + f.value + RenderedParams(f.params) + CRLF
  }

  function RenderedParams(ps: seq<(bytes, bytes)>): bytes {
    if ps == [] then [] else [SEMICOLON, SPACE] + ps[0].0 + [EQUALS] + ps[0].1 + RenderedParams(ps[1..])
  }

  /** The fields, and the blank line behind them. */
  function Rendered(fs: seq<Field>): bytes {
    if fs == [] then CRLF else RenderedField(fs[0]) + Rendered(fs[1..])
  }

  predicate Avoids(s: bytes, specials: set<byte>) {
    forall k :: 0 <= k < |s| ==> s[k] !in specials && !EndsScan(s[k])
  }

  /** Neither white space nor a quote at either end. */
  predicate Solid(s: bytes) {
    && s != []
    && !IsSpace(s[0]) && s[0] != QUOTE
    && !IsSpace(s[|s| - 1]) && s[|s| - 1] != QUOTE
  }

  /** What a character of a header value (home is Type) or of a parameter value (home is Value)
      does to the mode. */
  function TextMode(home: LineMode, mode: LineMode, c: byte): LineMode {
    if mode == home then
      if c == LPAREN then Comment else if c == QUOTE && home == Value then Quoted else mode
    else if mode == Comment && c == RPAREN then home
    else if mode == Quoted && c == QUOTE then home
    else mode
  }

  /** Every comment and every quotation of the text is closed, and a ';' stands only inside of
      them. */
  predicate Balanced(home: LineMode, mode: LineMode, s: bytes)
    decreases |s|
  {
    if s == [] then mode == home
    else
      && !EndsScan(s[0]) && (mode == home ==> s[0] != SEMICOLON)
      && Balanced(home, TextMode(home, mode, s[0]), s[1..])
  }

  predicate ScannedParams(ps: seq<(bytes, bytes)>) {
    ps == [] || (Avoids(ps[0].0, {EQUALS}) && Balanced(Value, Value, ps[0].1) && ScannedParams(ps[1..]))
  }

  /** Texts that end where the parser thinks they end, on one line of the buffer. */
  predicate ScannedField(f: Field) {
    && Avoids(f.name, {COLON}) && (f.name == [] || !IsSpace(f.name[0]))
    && Balanced(Type, Type, f.value)
    && ScannedParams(f.params)
    && |RenderedField(f)| < MAX_SMLEN
  }

  function ParamsOf(ps: seq<(bytes, bytes)>): seq<Param> {
    if ps == [] then []
    else [Param(Lowered(StripEnds(ps[0].0)), StripEnds(ps[0].1))] + ParamsOf(ps[1..])
  }

  /** The header the parser makes of a field: the stripped texts, those of the name, the value and
      the parameter names in lower case, those of the parameter values as they are. */
  function HeaderOf(f: Field): Header {
    Header(Lowered(StripEnds(f.name)), Lowered(StripEnds(f.value)), ParamsOf(f.params))
  }

  function HeadersOf(fs: seq<Field>): seq<Header> {
    if fs == [] then [] else [HeaderOf(fs[0])] + HeadersOf(fs[1..])
  }

  // ---------------------------------------------------------------- stripping

  lemma SolidStrips(s: bytes)
    requires Solid(s)
    ensures StripEnds(s) == Str(s)
  {
  }

  /** White space in front of a text makes no difference, nor does the line break behind it. */
  lemma StripsSpaces(t: bytes)
    ensures StripEnds([SPACE] + t) == StripEnds(t)
    ensures StripEnds(t + CRLF) == StripEnds(t) && StripEnds([SPACE] + t + CRLF) == StripEnds(t)
  {
    hide StripEnd;
    assert ([SPACE] + t)[1..] == t;
    assert ([SPACE] + t + CRLF)[1..] == t + CRLF;
    StartWithCRLF(t);
    EndWithCRLF([]);
    assert [] + CRLF == CRLF;
    NothingLeft();
    if StripStart(t).Str? { EndWithCRLF(StripStart(t).s); }
  }

  lemma NothingLeft()
    ensures StripEnd([]) == Null
  {
  }

  lemma {:induction false} StartWithCRLF(t: bytes)
    ensures StripStart(t).Str? ==> StripStart(t + CRLF) == Str(StripStart(t).s + CRLF)
    ensures StripStart(t).Null? ==> StripStart(t + CRLF) in {Null, Str(CRLF)}
  {
    if t == [] {
      assert t + CRLF == CRLF && CRLF[1..] == [LF] && [LF][1..] == [];
      assert StripStart([LF]) == Null;
    } else {
      assert (t + CRLF)[1..] == t[1..] + CRLF && (t + CRLF)[0] == t[0];
      assert |t| == 1 ==> t[1..] + CRLF == CRLF;
      StartWithCRLF(t[1..]);
    }
  }

  lemma {:induction false} EndWithCRLF(u: bytes)
    ensures StripEnd(u + CRLF) == StripEnd(u)
  {
    assert (u + CRLF)[..|u| + 1] == u + [CR] && (u + [CR])[..|u|] == u;
    assert StripEnd(u + [CR]) == StripEnd(u);
  }

  function InQuotes(v: bytes): bytes {
    [QUOTE] + v + [QUOTE]
  }

  /** A quoted text comes without its quotes, but one of a single character is lost. */
  lemma QuotedStrips(v: bytes)
    ensures StripEnds(InQuotes(v)) == if |v| == 1 then Null else Str(v)
  {
    assert InQuotes(v)[1..] == v + [QUOTE];
    assert (v + [QUOTE])[..|v|] == v;
  }

  // ---------------------------------------------------------------- a rendered line

  /** The character changes nothing in this mode. */
  predicate Inert(mode: LineMode, c: byte) {
    && !EndsScan(c)
    && match mode
       case Start => c != COLON
       case Type => c != SEMICOLON && c != LPAREN
       case Comment => c != RPAREN
       case Name => c != EQUALS
       case Value => c != SEMICOLON && c != QUOTE && c != LPAREN
       case Quoted => c != QUOTE
  }

  predicate AllInert(mode: LineMode, s: bytes) {
    forall k :: 0 <= k < |s| ==> Inert(mode, s[k])
  }

  lemma {:induction false} ScanOver(line: bytes, p: nat, w: bytes, sc: Scan)
    requires sc.q <= p && At(line, p, w) && AllInert(sc.mode, w)
    ensures p + |w| <= |line| && Finished(line, p, sc) == Finished(line, p + |w|, sc)
    decreases |w|
  {
    hide At, FinishLine, UptoNul;
    AtBounds(line, p, w);
    AtIndex(line, p, w);
    if w != [] {
      assert line[p + 0] == w[0];
      assert w == [w[0]] + w[1..];
      AtConcat(line, p, [w[0]], w[1..]);
      ScanOver(line, p + 1, w[1..], sc);
    }
  }

  /** A character that means something takes the machine one step on. */
  lemma ScanStep(line: bytes, p: nat, c: byte, sc: Scan)
    requires sc.q <= p && At(line, p, [c]) && !EndsScan(c)
    ensures p < |line| && Finished(line, p, sc) == Finished(line, p + 1, Step(sc, c, p, line[sc.q..p]))
  {
    hide FinishLine, UptoNul, Step;
    AtIndex(line, p, [c]);
    assert line[p + 0] == c;
  }

  lemma ScanEnd(line: bytes, p: nat, sc: Scan)
    requires sc.q <= p && At(line, p, CRLF)
    ensures p < |line| && Finished(line, p, sc) == FinishLine(sc, UptoNul(line[sc.q..]))
  {
    hide FinishLine, UptoNul;
    AtIndex(line, p, CRLF);
    assert line[p + 0] == CR;
  }

  lemma AvoidsIsInert(s: bytes)
    ensures Avoids(s, {COLON}) ==> AllInert(Start, s)
    ensures Avoids(s, {EQUALS}) ==> AllInert(Name, [SPACE] + s)
  {
  }

  /** Inside a value a character changes the mode and nothing else. */
  lemma StepInText(home: LineMode, sc: Scan, c: byte, p: nat, text: bytes)
    requires home in {Type, Value} && (sc.mode in {home, Comment} || (home == Value && sc.mode == Quoted))
    requires (sc.mode == Comment ==> sc.saved == home) && (sc.mode == home ==> c != SEMICOLON)
    ensures var next := Step(sc, c, p, text);
      && next.mode == TextMode(home, sc.mode, c) && next == sc.(mode := next.mode, saved := next.saved)
      && (next.mode in {home, Comment} || (home == Value && next.mode == Quoted))
      && (next.mode == Comment ==> next.saved == home)
  {
    hide StripEnds, AddParam, NewHeader;
  }

  /** The machine runs over a balanced text and comes back to the mode it started in. */
  lemma {:induction false} ScanBalanced(line: bytes, p: nat, home: LineMode, w: bytes, sc: Scan)
    returns (saved: LineMode)
    requires home in {Type, Value} && (sc.mode in {home, Comment} || (home == Value && sc.mode == Quoted))
    requires sc.mode == Comment ==> sc.saved == home
    requires sc.q <= p && At(line, p, w) && Balanced(home, sc.mode, w)
    ensures p + |w| <= |line|
    ensures Finished(line, p, sc) == Finished(line, p + |w|, sc.(mode := home, saved := saved))
    decreases |w|
  {
    hide At, Finished, Step, TextMode;
    AtBounds(line, p, w);
    saved := sc.saved;
    if w != [] {
      assert w == [w[0]] + w[1..];
      AtConcat(line, p, [w[0]], w[1..]);
      ScanStep(line, p, w[0], sc);
      StepInText(home, sc, w[0], p, line[sc.q..p]);
      saved := ScanBalanced(line, p + 1, home, w[1..], Step(sc, w[0], p, line[sc.q..p]));
    }
  }

  lemma {:induction false} SpaceBalances(home: LineMode, s: bytes)
    requires Balanced(home, home, s)
    ensures Balanced(home, home, [SPACE] + s)
  {
    assert ([SPACE] + s)[1..] == s;
  }

  lemma {:induction false} BalancedIsOneLine(home: LineMode, mode: LineMode, s: bytes)
    requires Balanced(home, mode, s)
    ensures NulFree(s) && LF !in s
    decreases |s|
  {
    if s != [] {
      BalancedIsOneLine(home, TextMode(home, mode, s[0]), s[1..]);
      assert s == [s[0]] + s[1..];
    }
  }

  /** A text that stands at q and ends where the line does. */
  lemma LastText(line: bytes, q: nat, w: bytes)
    requires At(line, q, w + CRLF) && q + |w| + 2 == |line| && NulFree(line)
    ensures UptoNul(line[q..]) == w + CRLF
  {
    UptoNulOfNulFree(line[q..]);
  }

  lemma TextAt(line: bytes, q: nat, w: bytes)
    requires At(line, q, w)
    ensures q + |w| <= |line| && line[q..q + |w|] == w
  {
  }

  lemma AddParamLast(hs: seq<Header>, h: Header, name: Text, value: Text)
    ensures AddParam(hs + [h], name, value) == hs + [h.(params := h.params + [Param(Lowered(name), value)])]
  {
  }

  lemma ParamsAppend(ps: seq<Param>, x: Param, rest: seq<Param>)
    ensures ps + ([x] + rest) == ps + [x] + rest
    ensures rest == [] ==> ps + ([x] + rest) == ps + [x]
  {
  }

  /** The parameters of a line, from behind a ';' to the end. */
  lemma {:induction false} ParamsScan(
      line: bytes, p: nat, sc: Scan, hs: seq<Header>, h: Header, ps: seq<(bytes, bytes)>)
    requires ScannedParams(ps) && ps != [] && NulFree(line)
    requires sc.mode == Name && sc.q == p && sc.headers == hs + [h]
    requires At(line, p, RenderedParams(ps)[1..] + CRLF) && p + |RenderedParams(ps)| + 1 == |line|
    ensures p <= |line| && Finished(line, p, sc) == hs + [h.(params := h.params + ParamsOf(ps))]
    decreases |ps|
  {
    hide At, Finished, Avoids, Balanced, AllInert, UptoNul, StripEnds, Lowered, NulFree, RenderedParams;
    var name, value, more := ps[0].0, ps[0].1, ps[1..];
    var q := p + 1 + |name|;
    var r := q + 1 + |value|;
    ParamParts(line, p, ps);
    AtBounds(line, p, [SPACE] + name);
    AvoidsIsInert(name);
    StripsSpaces(name);
    StripsSpaces(value);
    ScanOver(line, p, [SPACE] + name, sc);
    TextAt(line, p, [SPACE] + name);
    ScanStep(line, q, EQUALS, sc);
    var named := sc.(mode := Value, name := StripEnds(name), q := q + 1);
    var saved := ScanBalanced(line, q + 1, Value, value, named);
    var valued := named.(saved := saved);
    TextAt(line, q + 1, value);
    var param := Param(Lowered(StripEnds(name)), StripEnds(value));
    AddParamLast(hs, h, StripEnds(name), StripEnds(value));
    ParamsAppend(h.params, param, ParamsOf(more));
    if more == [] {
      ScanEnd(line, r, valued);
      LastText(line, q + 1, value);
    } else {
      ScanStep(line, r, SEMICOLON, valued);
      var h' := h.(params := h.params + [param]);
      ParamsScan(line, r + 1, Scan(Name, saved, r + 1, Null, hs + [h']), hs, h', more);
    }
  }

  /** The texts of the first parameter, and what follows it. */
  lemma {:induction false} ParamParts(line: bytes, p: nat, ps: seq<(bytes, bytes)>)
    requires ps != [] && At(line, p, RenderedParams(ps)[1..] + CRLF) && p + |RenderedParams(ps)| + 1 == |line|
    ensures var name, value, more := ps[0].0, ps[0].1, ps[1..];
      var q := p + 1 + |name|;
      var r := q + 1 + |value|;
      && At(line, p, [SPACE] + name) && At(line, q, [EQUALS]) && At(line, q + 1, value)
      && (more == [] ==> At(line, r, CRLF) && At(line, q + 1, value + CRLF) && r + 2 == |line|)
      && (more != [] ==>
            && At(line, r, [SEMICOLON]) && At(line, r + 1, RenderedParams(more)[1..] + CRLF)
            && r + 1 + |RenderedParams(more)| + 1 == |line|)
  {
    hide At;
    var name, value, more := ps[0].0, ps[0].1, ps[1..];
    var rest := RenderedParams(more);
    var q := p + 1 + |name|;
    var r := q + 1 + |value|;
    ParamText(ps);
    AtConcat(line, p, [SPACE] + name, [EQUALS] + (value + (rest + CRLF)));
    AtConcat(line, q, [EQUALS], value + (rest + CRLF));
    AtConcat(line, q + 1, value, rest + CRLF);
    if more == [] {
      assert [] + CRLF == CRLF;
    } else {
      assert rest + CRLF == [SEMICOLON] + (rest[1..] + CRLF);
      AtConcat(line, r, [SEMICOLON], rest[1..] + CRLF);
    }
  }

  lemma {:induction false} ParamText(ps: seq<(bytes, bytes)>)
    requires ps != []
    ensures RenderedParams(ps)[1..] + CRLF
         == ([SPACE] + ps[0].0) + ([EQUALS] + (ps[0].1 + (RenderedParams(ps[1..]) + CRLF)))
    ensures |RenderedParams(ps)| == 3 + |ps[0].0| + |ps[0].1| + |RenderedParams(ps[1..])|
    ensures RenderedParams(ps)[0] == SEMICOLON
  {
    ParamRegrouped(ps[0].0, ps[0].1, RenderedParams(ps[1..]));
  }

  lemma ParamRegrouped(n: bytes, v: bytes, rest: bytes)
    ensures var s := [SEMICOLON, SPACE] + n + [EQUALS] + v + rest;
      && s[0] == SEMICOLON && |s| == 3 + |n| + |v| + |rest|
      && s[1..] + CRLF == ([SPACE] + n) + ([EQUALS] + (v + (rest + CRLF)))
  {
    var head := [SEMICOLON, SPACE] + n;
    assert head[1..] == [SPACE] + n;
    FourRegrouped(head, [EQUALS], v, rest, CRLF);
    FourRegrouped(head[1..], [EQUALS], v, rest, CRLF);
    TailOfFour(head, [EQUALS], v, rest);
  }

  lemma FourRegrouped(a: bytes, b: bytes, c: bytes, d: bytes, e: bytes)
    ensures a + b + c + d + e == a + (b + (c + (d + e)))
  {
  }

  lemma TailOfFour(a: bytes, b: bytes, c: bytes, d: bytes)
    requires a != []
    ensures (a + b + c + d)[1..] == a[1..] + b + c + d
  {
  }

  // ---------------------------------------------------------------- a rendered header

  /** The texts of a rendered line. */
  lemma FieldParts(line: bytes, f: Field)
    requires line == RenderedField(f)
    ensures var n, rest := |f.name|, RenderedParams(f.params) + CRLF;
      var q := n + 2 + |f.value|;
      && At(line, 0, f.name) && At(line, n, [COLON]) && At(line, n + 1, [SPACE] + f.value)
      && At(line, q, rest) && q + |rest| == |line|
      && (f.params == [] ==> At(line, q, CRLF) && At(line, n + 1, [SPACE] + f.value + CRLF) && q + 2 == |line|)
      && (f.params != [] ==> At(line, q, [SEMICOLON]) && At(line, q + 1, RenderedParams(f.params)[1..] + CRLF))
  {
    hide At;
    var ps := RenderedParams(f.params);
    var rest := ps + CRLF;
    FieldRegrouped(f.name, f.value, ps);
    WholeAt(line);
    AtConcat(line, 0, f.name, [COLON] + (([SPACE] + f.value) + rest));
    AtConcat(line, |f.name|, [COLON], ([SPACE] + f.value) + rest);
    AtConcat(line, |f.name| + 1, [SPACE] + f.value, rest);
    if f.params == [] {
      assert rest == CRLF;
    } else {
      ParamText(f.params);
      assert rest == [SEMICOLON] + (ps[1..] + CRLF);
      AtConcat(line, |f.name| + 2 + |f.value|, [SEMICOLON], ps[1..] + CRLF);
    }
  }

  lemma WholeAt(line: bytes)
    ensures At(line, 0, line)
  {
  }

  lemma FieldRegrouped(n: bytes, v: bytes, ps: bytes)
    ensures var s := n + [COLON, SPACE] + v + ps + CRLF;
      s == n + ([COLON] + (([SPACE] + v) + (ps + CRLF))) && |s| == |n| + 4 + |v| + |ps|
  {
    assert [COLON, SPACE] == [COLON] + [SPACE];
    FourRegrouped(n, [COLON, SPACE], v, ps, CRLF);
    PairSplit(v + (ps + CRLF), v, ps + CRLF);
  }

  lemma PairSplit(t: bytes, v: bytes, rest: bytes)
    requires t == v + rest
    ensures [COLON, SPACE] + t == [COLON] + (([SPACE] + v) + rest)
  {
  }

  lemma {:induction false} ParamsAreOneLine(ps: seq<(bytes, bytes)>)
    requires ScannedParams(ps)
    ensures NulFree(RenderedParams(ps)) && LF !in RenderedParams(ps)
  {
    hide Balanced;
    if ps != [] {
      BalancedIsOneLine(Value, Value, ps[0].1);
      ParamsAreOneLine(ps[1..]);
    }
  }

  lemma FieldIsOneLine(f: Field)
    requires ScannedField(f)
    ensures var line := RenderedField(f);
      && NulFree(line) && LF !in line[..|line| - 1] && line[|line| - 1] == LF
      && !IsSpace(line[0]) && !EndsScan(line[0])
  {
    hide Balanced, RenderedParams, ScannedParams;
    BalancedIsOneLine(Type, Type, f.value);
    ParamsAreOneLine(f.params);
    var line, ps := RenderedField(f), RenderedParams(f.params);
    assert line[..|line| - 1] == f.name + [COLON, SPACE] + f.value + ps + [CR];
    assert line[0] == if f.name == [] then COLON else f.name[0];
  }

  /** A rendered line adds the header of its field. */
  lemma FieldScans(f: Field, hs: seq<Header>)
    requires ScannedField(f)
    ensures ParseLine(RenderedField(f), hs) == hs + [HeaderOf(f)] && !IsBlankLine(RenderedField(f))
  {
    hide At, Finished, Avoids, Balanced, AllInert, UptoNul, StripEnds, Lowered, NulFree, RenderedParams, RenderedField,
         ScannedParams;
    var line, n := RenderedField(f), |f.name|;
    var q := n + 2 + |f.value|;
    FieldIsOneLine(f);
    FieldParts(line, f);
    AvoidsIsInert(f.name);
    SpaceBalances(Type, f.value);
    StripsSpaces(f.value);
    var sc := FirstScan(line, hs);
    ScanOver(line, 0, f.name, sc);
    TextAt(line, 0, f.name);
    ScanStep(line, n, COLON, sc);
    var typed := Scan(Type, Start, n + 1, StripEnds(f.name), hs);
    var saved := ScanBalanced(line, n + 1, Type, [SPACE] + f.value, typed);
    var valued := typed.(saved := saved);
    TextAt(line, n + 1, [SPACE] + f.value);
    var h := NewHeader(StripEnds(f.name), StripEnds(f.value));
    if f.params == [] {
      ScanEnd(line, q, valued);
      LastText(line, n + 1, [SPACE] + f.value);
    } else {
      ScanStep(line, q, SEMICOLON, valued);
      ParamsScan(line, q + 1, Scan(Name, saved, q + 1, Null, hs + [h]), hs, h, f.params);
      assert [] + ParamsOf(f.params) == ParamsOf(f.params);
    }
  }

  /** The piece of a rendered line is the line. */
  lemma FieldIsPiece(s: bytes, p: nat, f: Field)
    requires ScannedField(f) && At(s, p, RenderedField(f))
    ensures p < |s| && PieceEnd(s, p) == p + |RenderedField(f)| && s[p..PieceEnd(s, p)] == RenderedField(f)
  {
    hide ScannedParams, RenderedParams, Avoids, Balanced;
    var line := RenderedField(f);
    FieldIsOneLine(f);
    AtIndex(s, p, line);
    forall k | p <= k < p + |line| - 1 ensures s[k] != LF { assert s[p + (k - p)] == line[..|line| - 1][k - p]; }
    LineEndAt(s, p, |line| - 1, MAX_SMLEN - 1);
  }

  lemma {:induction false} BlankLineEnds(s: bytes, p: nat, hs: seq<Header>)
    requires At(s, p, CRLF)
    ensures p < |s| && ParseFrom(s, p, hs) == Parsed(hs, p + 2)
  {
    AtIndex(s, p, CRLF);
    assert s[p + 0] == CR && s[p + 1] == LF;
    LineEndAt(s, p, 1, MAX_SMLEN - 1);
    assert s[p..p + 2] == CRLF;
    assert ScanFrom(CRLF, 0, FirstScan(CRLF, hs)) == FirstScan(CRLF, hs);
  }

  /** Rendered headers parse to the headers of their fields, and the parser stops at the first
      byte of the body. */
  lemma {:induction false} RenderedParses(s: bytes, p: nat, fs: seq<Field>, hs: seq<Header>)
    requires (forall k :: 0 <= k < |fs| ==> ScannedField(fs[k])) && At(s, p, Rendered(fs))
    ensures p <= |s| && ParseFrom(s, p, hs) == Parsed(hs + HeadersOf(fs), p + |Rendered(fs)|)
    decreases |fs|
  {
    hide At, ScannedField, RenderedField, HeaderOf, ParseLine, IsBlankLine, PieceEnd, ParseFrom;
    if fs == [] {
      BlankLineEnds(s, p, hs);
      assert hs + [] == hs;
    } else {
      AtConcat(s, p, RenderedField(fs[0]), Rendered(fs[1..]));
      FieldIsPiece(s, p, fs[0]);
      FieldScans(fs[0], hs);
      ParseStep(s, p, hs);
      RenderedParses(s, p + |RenderedField(fs[0])|, fs[1..], hs + [HeaderOf(fs[0])]);
      assert hs + [HeaderOf(fs[0])] + HeadersOf(fs[1..]) == hs + HeadersOf(fs);
    }
  }

  lemma {:induction false} ParseStep(s: bytes, p: nat, hs: seq<Header>)
    requires p < |s| && !IsBlankLine(s[p..PieceEnd(s, p)])
    ensures ParseFrom(s, p, hs) == ParseFrom(s, PieceEnd(s, p), ParseLine(s[p..PieceEnd(s, p)], hs))
  {
    hide ParseLine, PieceEnd, IsBlankLine;
  }

  // ---------------------------------------------------------------- plain and quoted texts

  predicate PlainParam(p: (bytes, bytes)) {
    && Solid(p.0) && Avoids(p.0, {EQUALS})
    && Solid(p.1) && Avoids(p.1, {SEMICOLON, QUOTE, LPAREN})
  }

  predicate PlainParams(ps: seq<(bytes, bytes)>) {
    ps == [] || (PlainParam(ps[0]) && PlainParams(ps[1..]))
  }

  /** Texts without the characters that mean something where they stand, on one line of the buffer. */
  predicate PlainField(f: Field) {
    && Solid(f.name) && Avoids(f.name, {COLON})
    && Solid(f.value) && Avoids(f.value, {SEMICOLON, LPAREN})
    && PlainParams(f.params)
    && |RenderedField(f)| < MAX_SMLEN
  }

  function PlainParamsOf(ps: seq<(bytes, bytes)>): seq<Param> {
    if ps == [] then [] else [Param(Str(Lower(ps[0].0)), Str(ps[0].1))] + PlainParamsOf(ps[1..])
  }

  lemma {:induction false} AvoidsIsBalanced(home: LineMode, s: bytes)
    requires Avoids(s, if home == Type then {SEMICOLON, LPAREN} else {SEMICOLON, QUOTE, LPAREN})
    requires home in {Type, Value}
    ensures Balanced(home, home, s)
  {
    if s != [] { AvoidsIsBalanced(home, s[1..]); }
  }

  lemma {:induction false} PlainParamsAreScanned(ps: seq<(bytes, bytes)>)
    requires PlainParams(ps)
    ensures ScannedParams(ps) && ParamsOf(ps) == PlainParamsOf(ps)
  {
    hide StripEnds, Balanced, Avoids, Solid;
    if ps != [] {
      SolidStrips(ps[0].0);
      SolidStrips(ps[0].1);
      AvoidsIsBalanced(Value, ps[0].1);
      PlainParamsAreScanned(ps[1..]);
    }
  }

  /** Plain texts come through the parser as they are, but for the case of their letters. */
  lemma PlainIsScanned(f: Field)
    requires PlainField(f)
    ensures ScannedField(f)
    ensures HeaderOf(f) == Header(Str(Lower(f.name)), Str(Lower(f.value)), PlainParamsOf(f.params))
  {
    hide StripEnds, Balanced, Avoids, RenderedField, PlainParams, ScannedParams;
    SolidStrips(f.name);
    SolidStrips(f.value);
    AvoidsIsBalanced(Type, f.value);
    PlainParamsAreScanned(f.params);
  }

  lemma {:induction false} QuotationCloses(v: bytes)
    requires Avoids(v, {QUOTE})
    ensures Balanced(Value, Quoted, v + [QUOTE])
  {
    if v == [] {
      assert v + [QUOTE] == [QUOTE] && [QUOTE][1..] == [];
    } else {
      assert (v + [QUOTE])[1..] == v[1..] + [QUOTE] && (v + [QUOTE])[0] == v[0];
      QuotationCloses(v[1..]);
    }
  }

  lemma QuotedIsBalanced(v: bytes)
    requires Avoids(v, {QUOTE})
    ensures Balanced(Value, Value, InQuotes(v))
  {
    QuotationCloses(v);
    assert InQuotes(v)[1..] == v + [QUOTE];
  }

  /** The field with one quoted parameter. */
  function QuotedField(name: bytes, value: bytes, p: bytes, v: bytes): Field {
    Field(name, value, [(p, InQuotes(v))])
  }

  lemma QuotedIsScanned(name: bytes, value: bytes, p: bytes, v: bytes)
    requires ScannedField(Field(name, value, [])) && Avoids(p, {EQUALS}) && Avoids(v, {QUOTE})
    requires |RenderedField(QuotedField(name, value, p, v))| < MAX_SMLEN
    ensures ScannedField(QuotedField(name, value, p, v))
    ensures HeaderOf(QuotedField(name, value, p, v)) ==
      Header(Lowered(StripEnds(name)), Lowered(StripEnds(value)),
             [Param(Lowered(StripEnds(p)), if |v| == 1 then Null else Str(v))])
  {
    hide StripEnds, Balanced, Avoids, RenderedField, InQuotes, Lowered;
    QuotedIsBalanced(v);
    OneScannedParam(p, InQuotes(v));
    QuotedStrips(v);
  }

  /** A quoted parameter value may hold ';', '(' and white space at its ends; it comes back exactly
      when it has not one character, for then the parser has a null pointer in its place. */
  lemma QuotedParameter(name: bytes, value: bytes, p: bytes, v: bytes, hs: seq<Header>)
    requires ScannedField(Field(name, value, [])) && Avoids(p, {EQUALS}) && Avoids(v, {QUOTE})
    requires |RenderedField(QuotedField(name, value, p, v))| < MAX_SMLEN
    ensures var r := ParseLine(RenderedField(QuotedField(name, value, p, v)), hs);
      && r == hs + [
           Header(Lowered(StripEnds(name)), Lowered(StripEnds(value)),
                  [Param(Lowered(StripEnds(p)), if |v| == 1 then Null else Str(v))])]
      && (r[|hs|].params[0].value == Str(v) <==> |v| != 1)
  {
    hide StripEnds, Avoids, RenderedField, QuotedField, ScannedField, HeaderOf, Lowered, ParseLine, IsBlankLine;
    QuotedIsScanned(name, value, p, v);
    FieldScans(QuotedField(name, value, p, v), hs);
  }

  lemma {:induction false} OneScannedParam(p: bytes, v: bytes)
    requires Avoids(p, {EQUALS}) && Balanced(Value, Value, v)
    ensures ScannedParams([(p, v)])
    ensures ParamsOf([(p, v)]) == [Param(Lowered(StripEnds(p)), StripEnds(v))]
  {
    hide StripEnds, Balanced, Avoids, Lowered;
    assert [(p, v)][1..] == [];
  }

  // ---------------------------------------------------------------- names in lower case

  predicate LowerText(t: Text) {
    t.Str? ==> forall k :: 0 <= k < |t.s| ==> !IsUpper(t.s[k])
  }

  predicate LowerHeader(h: Header) {
    LowerText(h.name) && LowerText(h.value) && forall k :: 0 <= k < |h.params| ==> LowerText(h.params[k].name)
  }

  predicate LowerHeaders(hs: seq<Header>) {
    forall k :: 0 <= k < |hs| ==> LowerHeader(hs[k])
  }

  lemma NewHeaderIsLower(hs: seq<Header>, name: Text, value: Text)
    requires LowerHeaders(hs)
    ensures LowerHeaders(hs + [NewHeader(name, value)])
  {
  }

  lemma AddParamKeepsLower(hs: seq<Header>, name: Text, value: Text)
    requires LowerHeaders(hs)
    ensures LowerHeaders(AddParam(hs, name, value))
  {
    hide LowerText;
    LoweredIsLower(name);
  }

  lemma LoweredIsLower(t: Text)
    ensures LowerText(Lowered(t))
  {
  }

  lemma StepKeepsLower(sc: Scan, c: byte, p: nat, text: bytes)
    requires LowerHeaders(sc.headers)
    ensures LowerHeaders(Step(sc, c, p, text).headers)
  {
    hide LowerHeaders, StripEnds, AddParam, NewHeader;
    NewHeaderIsLower(sc.headers, sc.name, StripEnds(text));
    AddParamKeepsLower(sc.headers, sc.name, StripEnds(text));
  }

  lemma {:induction false} ScanKeepsLower(line: bytes, p: nat, sc: Scan)
    requires sc.q <= p <= |line| && LowerHeaders(sc.headers)
    ensures LowerHeaders(ScanFrom(line, p, sc).headers)
    decreases |line| - p
  {
    hide LowerHeaders, Step;
    if p < |line| && !EndsScan(line[p]) {
      StepKeepsLower(sc, line[p], p, line[sc.q..p]);
      StepStart(sc, line[p], p, line[sc.q..p]);
      ScanKeepsLower(line, p + 1, Step(sc, line[p], p, line[sc.q..p]));
    }
  }

  lemma StepStart(sc: Scan, c: byte, p: nat, text: bytes)
    requires sc.q <= p
    ensures Step(sc, c, p, text).q <= p + 1
  {
    hide StripEnds, AddParam, NewHeader;
  }

  lemma LineKeepsLower(line: bytes, hs: seq<Header>)
    requires LowerHeaders(hs)
    ensures LowerHeaders(ParseLine(line, hs))
  {
    hide LowerHeaders, ScanFrom, StripEnds, AddParam, NewHeader, UptoNul;
    var sc := FirstScan(line, hs);
    ScanKeepsLower(line, 0, sc);
    var end := ScanFrom(line, 0, sc);
    var text := StripEnds(UptoNul(line[end.q..]));
    NewHeaderIsLower(end.headers, end.name, text);
    AddParamKeepsLower(end.headers, end.name, text);
  }

  /** Whatever the message: the names and values of its headers and the names of their parameters
      are in lower case. */
  lemma {:induction false} ParsedIsLower(s: bytes, p: nat, hs: seq<Header>)
    requires p <= |s| && LowerHeaders(hs)
    ensures LowerHeaders(ParseFrom(s, p, hs).headers)
    decreases |s| - p
  {
    hide LowerHeaders, ParseLine, PieceEnd, IsBlankLine;
    if p < |s| {
      var e := PieceEnd(s, p);
      LineKeepsLower(s[p..e], hs);
      if !IsBlankLine(s[p..e]) { ParsedIsLower(s, e, ParseLine(s[p..e], hs)); }
    }
  }

  /** No message has a header or a parameter that is found under a name with a capital letter. */
  lemma {:induction false} CapitalsAreNotFound(s: bytes, name: bytes)
    requires exists k :: 0 <= k < |name| && IsUpper(name[k])
    ensures var hs := ParseHeaders(s).headers;
      && FindHeader(hs, name) < 0
      && forall h :: h in hs ==> FindParam(h.params, name) < 0
  {
    hide ParseFrom;
    ParsedIsLower(s, 0, []);
    var hs := ParseHeaders(s).headers;
    assert !LowerText(Str(name));
  }

  /** A header is found under the lower case form of its name, however it was written. */
  lemma {:induction false} HeaderIsFound(hs: seq<Header>, name: bytes, value: Text, query: bytes)
    requires FindHeader(hs, query) < 0
    ensures FindHeader(hs + [NewHeader(Str(name), value)], query) == if query == Lower(name) then |hs| else -1
  {
    hide Lower;
    var all := hs + [NewHeader(Str(name), value)];
    if hs == [] {
      assert all[1..] == [];
    } else {
      assert all[0] == hs[0] && all[1..] == hs[1..] + [NewHeader(Str(name), value)];
      HeaderIsFound(hs[1..], name, value, query);
    }
  }

  /** A parameter is found in the last header under the lower case form of its name, with the value
      as it was written; the other headers, and what the last one was found to be, stay. */
  lemma ParamIsFound(hs: seq<Header>, name: bytes, value: Text, query: bytes)
    requires hs != [] && FindParam(hs[|hs| - 1].params, query) < 0
    ensures var r := AddParam(hs, Str(name), value);
      var h, h' := hs[|hs| - 1], r[|hs| - 1];
      && |r| == |hs| && r[..|hs| - 1] == hs[..|hs| - 1] && h'.name == h.name && h'.value == h.value
      && FindParam(h'.params, query) == (if query == Lower(name) then |h.params| else -1)
      && (query == Lower(name) ==> h'.params[|h.params|].value == value)
  {
    hide Lower, FindParam;
    NewParamIsFound(hs[|hs| - 1].params, name, value, query);
  }

  lemma {:induction false} NewParamIsFound(ps: seq<Param>, name: bytes, value: Text, query: bytes)
    requires FindParam(ps, query) < 0
    ensures FindParam(ps + [Param(Str(Lower(name)), value)], query) == if query == Lower(name) then |ps| else -1
  {
    hide Lower;
    var all := ps + [Param(Str(Lower(name)), value)];
    if ps == [] {
      assert all[1..] == [];
    } else {
      assert all[0] == ps[0] && all[1..] == ps[1..] + [Param(Str(Lower(name)), value)];
      NewParamIsFound(ps[1..], name, value, query);
    }
  }

  // ---------------------------------------------------------------- white space

  predicate AllWhite(s: bytes) {
    forall k :: 0 <= k < |s| ==> s[k] in {9, 10, 11, 12, 13, 32}
  }

  /** White space in front of a text and behind it is stripped, however much there is. */
  lemma {:induction false} StripsWhite(a: bytes, t: bytes, b: bytes)
    requires AllWhite(a) && AllWhite(b) && Solid(t)
    ensures StripEnds(a + t + b) == Str(t)
  {
    hide StripStart, StripEnd, Solid;
    WhiteInFront(a, t + b);
    WhiteBehind(t, b);
    SolidStrips(t);
    SolidStarts(t, b);
    assert a + t + b == a + (t + b);
  }

  lemma {:induction false} WhiteInFront(a: bytes, t: bytes)
    requires AllWhite(a)
    ensures StripStart(a + t) == StripStart(t)
  {
    if a == [] {
      assert a + t == t;
    } else {
      assert (a + t)[1..] == a[1..] + t;
      WhiteInFront(a[1..], t);
    }
  }

  lemma {:induction false} WhiteBehind(t: bytes, b: bytes)
    requires AllWhite(b)
    ensures StripEnd(t + b) == StripEnd(t)
    decreases |b|
  {
    if b == [] {
      assert t + b == t;
    } else {
      assert (t + b)[..|t + b| - 1] == t + b[..|b| - 1];
      WhiteBehind(t, b[..|b| - 1]);
    }
  }

  lemma {:induction false} SolidStarts(t: bytes, b: bytes)
    requires Solid(t)
    ensures StripStart(t + b) == Str(t + b) && StripStart(t) == Str(t)
  {
  }

  /** A piece is scanned up to its first NUL, CR or LF. */
  lemma ScanEndsAt(c: byte)
    ensures EndsScan(c) <==> c in {0, 10, 13}
  {
  }
}
