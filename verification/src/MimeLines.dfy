/** What any line of a header means, by splitting it at its separators, and the headers that are
    folded over several lines. */
module MimeLines {
  import opened Bytes
  import opened MemBio
  import opened MimeHeader

  // ---------------------------------------------------------------- the meaning of a line

  function IndexOf(s: bytes, c: byte): (i: nat)
    ensures i <= |s| && c !in s[..i] && (i < |s| ==> s[i] == c)
  {
    if s == [] || s[0] == c then 0
    else
      var i := IndexOf(s[1..], c);
      assert s[..i + 1] == [s[0]] + s[1..][..i];
      i + 1
  }

  /** Where a text ends: at the first ';' outside of comments and quotations, or with the line; and
      the mode there, which tells whether a comment or a quotation is still open. */
  function TextEnd(home: LineMode, mode: LineMode, s: bytes): (r: (nat, LineMode))
    ensures r.0 <= |s| && (r.0 < |s| ==> r.1 == home && s[r.0] == SEMICOLON)
    decreases |s|
  {
    if s == [] || (mode == home && s[0] == SEMICOLON) then (0, mode)
    else
      var r := TextEnd(home, TextMode(home, mode, s[0]), s[1..]);
      (r.0 + 1, r.1)
  }

  /** The parameters in a text. The last one reaches into `tail`, which is what stands behind the
      line; one with an open comment or quotation is lost. */
  function ParamsIn(s: bytes, tail: bytes): seq<Param>
    decreases |s|
  {
    var i := IndexOf(s, EQUALS);
    if i == |s| then [] else ParamsBehind(Lowered(StripEnds(s[..i])), s[i + 1..], tail)
  }

  function ParamsBehind(name: Text, s: bytes, tail: bytes): seq<Param>
    decreases |s|
  {
    var end := TextEnd(Value, Value, s);
    if end.0 < |s| then [Param(name, StripEnds(s[..end.0]))] + ParamsIn(s[end.0 + 1..], tail)
    else if end.1 == Value then [Param(name, StripEnds(s + tail))]
    else []
  }

  /** The header in a line, if there is one: none without a colon, and none with an open comment in its
      value. */
  function HeaderIn(s: bytes, tail: bytes): (hs: seq<Header>)
    ensures |hs| <= 1
  {
    var i := IndexOf(s, COLON);
    if i == |s| then [] else HeaderBehind(Lowered(StripEnds(s[..i])), s[i + 1..], tail)
  }

  function HeaderBehind(name: Text, s: bytes, tail: bytes): (hs: seq<Header>)
    ensures |hs| <= 1
  {
    var end := TextEnd(Type, Type, s);
    if end.0 < |s| then [Header(name, Lowered(StripEnds(s[..end.0])), ParamsIn(s[end.0 + 1..], tail))]
    else if end.1 == Type then [Header(name, Lowered(StripEnds(s + tail)), [])]
    else []
  }

  /** The line up to its first NUL, CR or LF. */
  function LineText(line: bytes): (s: bytes)
    ensures s <= line && (forall k :: 0 <= k < |s| ==> !EndsScan(s[k]))
    ensures |s| < |line| ==> EndsScan(line[|s|])
  {
    if line == [] || EndsScan(line[0]) then [] else [line[0]] + LineText(line[1..])
  }

  /** What stands behind it in the C string. */
  function LineTail(line: bytes): bytes {
    UptoNul(line[|LineText(line)|..])
  }

  function WithParams(hs: seq<Header>, ps: seq<Param>): seq<Header>
    requires hs != []
  {
    var h := hs[|hs| - 1];
    hs[|hs| - 1 := h.(params := h.params + ps)]
  }

  /** A line that starts with white space has parameters of the header before it; any other line has a
      header of its own. */
  function LineMeaning(line: bytes, hs: seq<Header>): seq<Header> {
    if hs != [] && IsSpace(ByteAt(line, 0)) then WithParams(hs, ParamsIn(LineText(line), LineTail(line)))
    else hs + HeaderIn(LineText(line), LineTail(line))
  }

  // ---------------------------------------------------------------- the machine

  predicate NoEnder(s: bytes) {
    forall k :: 0 <= k < |s| ==> !EndsScan(s[k])
  }

  /** The machine runs over a text without a ';' of its own and stands where TextEnd says. */
  lemma {:induction false} ScanText(line: bytes, p: nat, home: LineMode, w: bytes, sc: Scan)
    returns (saved: LineMode)
    requires home in {Type, Value} && (sc.mode in {home, Comment} || (home == Value && sc.mode == Quoted))
    requires sc.mode == Comment ==> sc.saved == home
    requires sc.q <= p && At(line, p, w) && NoEnder(w) && TextEnd(home, sc.mode, w).0 == |w|
    ensures p + |w| <= |line| && TextEnd(home, sc.mode, w).1 in {home, Comment, Quoted}
    ensures Finished(line, p, sc) == Finished(line, p + |w|, sc.(mode := TextEnd(home, sc.mode, w).1, saved := saved))
    decreases |w|
  {
    hide At, Finished, Step, TextMode;
    AtBounds(line, p, w);
    saved := sc.saved;
    if w != [] {
      assert w == [w[0]] + w[1..];
      AtConcat(line, p, [w[0]], w[1..]);
      ScanStep(line, p, w[0], sc);
      StepInText(home, sc, w[0], p, line[sc.q..p]);
      saved := ScanText(line, p + 1, home, w[1..], Step(sc, w[0], p, line[sc.q..p]));
    }
  }

  lemma {:induction false} TextEndOfPrefix(home: LineMode, mode: LineMode, s: bytes)
    ensures var end := TextEnd(home, mode, s); TextEnd(home, mode, s[..end.0]) == end
    decreases |s|
  {
    hide TextEnd, TextMode;
    TextEndStep(home, mode, s);
    var k := TextEnd(home, mode, s).0;
    TextEndStep(home, mode, s[..k]);
    if s != [] && !(mode == home && s[0] == SEMICOLON) {
      TextEndOfPrefix(home, TextMode(home, mode, s[0]), s[1..]);
      PrefixTail(s, k);
    }
  }

  lemma PrefixTail(s: bytes, k: nat)
    requires 0 < k <= |s|
    ensures s[..k][1..] == s[1..][..k - 1] && s[..k][0] == s[0]
  {
  }

  lemma {:induction false} TextEndStep(home: LineMode, mode: LineMode, s: bytes)
    ensures TextEnd(home, mode, s) ==
      if s == [] || (mode == home && s[0] == SEMICOLON) then (0, mode)
      else (var r := TextEnd(home, TextMode(home, mode, s[0]), s[1..]); (r.0 + 1, r.1))
  {
    hide TextMode;
  }

  /** The end of the line: what is done there to the text from q on. */
  lemma {:induction false} LineEnds(line: bytes, sc: Scan)
    requires sc.q <= |LineText(line)|
    ensures sc.q <= |line|
    ensures Finished(line, |LineText(line)|, sc) == FinishLine(sc, line[sc.q..|LineText(line)|] + LineTail(line))
  {
    hide FinishLine, UptoNul, LineText;
    StringOfLine(line, sc.q);
  }

  lemma {:induction false} StringOfLine(line: bytes, q: nat)
    requires q <= |LineText(line)|
    ensures q <= |line| && UptoNul(line[q..]) == line[q..|LineText(line)|] + LineTail(line)
    decreases |LineText(line)| - q
  {
    hide LineText, UptoNul;
    var e := |LineText(line)|;
    if q == e {
      assert line[q..e] == [];
    } else {
      assert LineText(line)[q] == line[q];
      StringOfLine(line, q + 1);
      UptoNulBehind(line, q);
      OneBefore(line, q, e, LineTail(line));
    }
  }

  lemma {:induction false} UptoNulBehind(line: bytes, q: nat)
    requires q < |line| && line[q] != NUL
    ensures UptoNul(line[q..]) == [line[q]] + UptoNul(line[q + 1..])
  {
    assert line[q..][1..] == line[q + 1..];
  }

  lemma OneBefore(line: bytes, q: nat, e: nat, tail: bytes)
    requires q < e <= |line|
    ensures [line[q]] + (line[q + 1..e] + tail) == line[q..e] + tail
  {
  }

  /** A stretch of the line's text. */
  lemma {:induction false} Stretch(line: bytes, p: nat, q: nat)
    requires p <= q <= |LineText(line)|
    ensures q <= |line| && At(line, p, line[p..q]) && NoEnder(line[p..q])
  {
    hide LineText;
    forall k | 0 <= k < q - p ensures !EndsScan(line[p..q][k]) {
      assert line[p..q][k] == LineText(line)[p + k];
    }
  }

  lemma OneAt(line: bytes, p: nat)
    requires p < |line|
    ensures At(line, p, [line[p]])
  {
    assert line[p..p + 1] == [line[p]];
  }

  /** The name and the text behind it: their places in the line. */
  lemma {:induction false} Places(line: bytes, p: nat, c: byte)
    requires p <= |LineText(line)|
    ensures p <= |line| && |LineText(line)| <= |line|
    ensures var s := line[p..|LineText(line)|];
      var i := IndexOf(s, c);
      && s[..i] == line[p..p + i]
      && (i < |s| ==> line[p + i] == c && !EndsScan(c) && s[i + 1..] == line[p + i + 1..|LineText(line)|])
      && c !in line[p..p + i]
  {
    hide LineText;
    var e := |LineText(line)|;
    var s := line[p..e];
    var i := IndexOf(s, c);
    assert s[..i] == line[p..p + i];
    if i < |s| {
      assert line[p + i] == LineText(line)[p + i];
      assert s[i + 1..] == line[p + i + 1..e];
    }
  }

  /** The text behind a name: its places in the line. */
  lemma {:induction false} TextPlaces(line: bytes, q: nat, home: LineMode)
    requires q <= |LineText(line)|
    ensures q <= |line| && |LineText(line)| <= |line|
    ensures var rest := line[q..|LineText(line)|];
      var end := TextEnd(home, home, rest);
      && rest[..end.0] == line[q..q + end.0] && q + end.0 <= |LineText(line)|
      && TextEnd(home, home, line[q..q + end.0]) == end
      && (end.0 < |rest| ==>
            line[q + end.0] == SEMICOLON && rest[end.0 + 1..] == line[q + end.0 + 1..|LineText(line)|])
      && (end.0 == |rest| ==> line[q..q + end.0] == rest)
  {
    hide LineText, TextEnd;
    var e := |LineText(line)|;
    var rest := line[q..e];
    var end := TextEnd(home, home, rest);
    TextEndOfPrefix(home, home, rest);
    assert rest[..end.0] == line[q..q + end.0];
    if end.0 < |rest| { assert rest[end.0 + 1..] == line[q + end.0 + 1..e]; }
  }

  /** From a place where a parameter name may start to the end of the line. */
  lemma {:induction false} ParamsMean(line: bytes, p: nat, sc: Scan, hs: seq<Header>, h: Header)
    requires p <= |LineText(line)| && sc.mode == Name && sc.q == p && sc.headers == hs + [h]
    ensures p <= |line| && |LineText(line)| <= |line|
    ensures Finished(line, p, sc) ==
      hs + [h.(params := h.params + ParamsIn(line[p..|LineText(line)|], LineTail(line)))]
    decreases |LineText(line)| - p
  {
    hide LineText, LineTail, Finished, IndexOf, ParamsBehind, StripEnds, Lowered, At, NoEnder, AllInert, UptoNul,
         Step, EndsScan;
    var e := |LineText(line)|;
    Places(line, p, EQUALS);
    var s := line[p..e];
    var i := IndexOf(s, EQUALS);
    Stretch(line, p, p + i);
    InertName(line[p..p + i]);
    ScanOver(line, p, line[p..p + i], sc);
    if i == |s| {
      LineEnds(line, sc);
      NoParams(h);
    } else {
      var q := p + i + 1;
      OneAt(line, p + i);
      ScanStep(line, p + i, EQUALS, sc);
      var named := sc.(mode := Value, name := StripEnds(line[p..p + i]), q := q);
      NameStep(sc, p + i, line[p..p + i]);
      ParamMeans(line, q, named, hs, h);
    }
  }

  lemma NameStep(sc: Scan, p: nat, text: bytes)
    requires sc.mode == Name
    ensures Step(sc, EQUALS, p, text) == sc.(mode := Value, name := StripEnds(text), q := p + 1)
  {
    hide StripEnds;
  }

  lemma InertName(s: bytes)
    requires NoEnder(s)
    ensures EQUALS !in s ==> AllInert(Name, s)
    ensures COLON !in s ==> AllInert(Start, s)
  {
  }

  lemma NoParams(h: Header)
    ensures h.(params := h.params + []) == h
  {
    assert h.params + [] == h.params;
  }

  /** From behind the '=' of a parameter to the end of the line. */
  lemma {:induction false} ParamMeans(line: bytes, q: nat, named: Scan, hs: seq<Header>, h: Header)
    requires q <= |LineText(line)| && named.mode == Value && named.q == q && named.headers == hs + [h]
    ensures q <= |line| && |LineText(line)| <= |line|
    ensures Finished(line, q, named) == hs + [h.(params := h.params +
      ParamsBehind(Lowered(named.name), line[q..|LineText(line)|], LineTail(line)))]
    decreases |LineText(line)| - q, 1
  {
    hide LineText, LineTail, Finished, TextEnd, StripEnds, Lowered, ParamsIn, At, NoEnder, UptoNul, AddParam;
    var e, tail := |LineText(line)|, LineTail(line);
    TextPlaces(line, q, Value);
    var rest := line[q..e];
    var end := TextEnd(Value, Value, rest);
    Stretch(line, q, q + end.0);
    var saved := ScanText(line, q, Value, line[q..q + end.0], named);
    var valued := named.(mode := end.1, saved := saved);
    if end.0 < |rest| {
      OneAt(line, q + end.0);
      ScanStep(line, q + end.0, SEMICOLON, valued);
      var param := Param(Lowered(named.name), StripEnds(rest[..end.0]));
      AddParamLast(hs, h, named.name, StripEnds(rest[..end.0]));
      var h' := h.(params := h.params + [param]);
      ParamsMean(line, q + end.0 + 1, Scan(Name, saved, q + end.0 + 1, Null, hs + [h']), hs, h');
      ParamsAppend(h.params, param, ParamsIn(rest[end.0 + 1..], tail));
    } else {
      LineEnds(line, valued);
      AddParamLast(hs, h, named.name, StripEnds(rest + tail));
      NoParams(h);
    }
  }

  /** A line that starts a header. */
  lemma {:induction false} HeaderMeans(line: bytes, sc: Scan)
    requires sc.mode == Start && sc.q == 0
    ensures Finished(line, 0, sc) == sc.headers + HeaderIn(LineText(line), LineTail(line))
  {
    hide LineText, LineTail, Finished, IndexOf, HeaderBehind, StripEnds, Lowered, At, NoEnder, AllInert, UptoNul;
    var e := |LineText(line)|;
    Places(line, 0, COLON);
    var s := line[0..e];
    assert s == LineText(line);
    var i := IndexOf(s, COLON);
    Stretch(line, 0, i);
    InertName(line[0..i]);
    ScanOver(line, 0, line[0..i], sc);
    if i == |s| {
      LineEnds(line, sc);
    } else {
      OneAt(line, i);
      ScanStep(line, i, COLON, sc);
      TypeMeans(line, i + 1, sc.(mode := Type, name := StripEnds(line[0..i]), q := i + 1));
    }
  }

  /** From behind the ':' to the end of the line. */
  lemma {:induction false} TypeMeans(line: bytes, q: nat, typed: Scan)
    requires q <= |LineText(line)| && typed.mode == Type && typed.q == q
    ensures q <= |line| && |LineText(line)| <= |line|
    ensures Finished(line, q, typed)
         == typed.headers + HeaderBehind(Lowered(typed.name), line[q..|LineText(line)|], LineTail(line))
  {
    hide LineText, LineTail, Finished, TextEnd, StripEnds, Lowered, ParamsIn, At, NoEnder, UptoNul;
    var e, tail, hs := |LineText(line)|, LineTail(line), typed.headers;
    TextPlaces(line, q, Type);
    var rest := line[q..e];
    var end := TextEnd(Type, Type, rest);
    Stretch(line, q, q + end.0);
    var saved := ScanText(line, q, Type, line[q..q + end.0], typed);
    var valued := typed.(mode := end.1, saved := saved);
    if end.0 < |rest| {
      OneAt(line, q + end.0);
      ScanStep(line, q + end.0, SEMICOLON, valued);
      var h := NewHeader(typed.name, StripEnds(rest[..end.0]));
      ParamsMean(line, q + end.0 + 1, Scan(Name, saved, q + end.0 + 1, Null, hs + [h]), hs, h);
      assert [] + ParamsIn(rest[end.0 + 1..], tail) == ParamsIn(rest[end.0 + 1..], tail);
    } else {
      LineEnds(line, valued);
      assert hs + [] == hs;
    }
  }

  /** Whatever the line, and whatever headers come before it: the machine makes of it what the line
      means. */
  lemma {:induction false} LineMeans(line: bytes, hs: seq<Header>)
    ensures ParseLine(line, hs) == LineMeaning(line, hs)
  {
    hide LineText, LineTail, Finished, ParamsIn, HeaderIn;
    var sc := FirstScan(line, hs);
    if hs != [] && IsSpace(ByteAt(line, 0)) {
      var n := |hs| - 1;
      assert hs == hs[..n] + [hs[n]];
      ParamsMean(line, 0, sc, hs[..n], hs[n]);
      assert line[0..|LineText(line)|] == LineText(line);
      LastReplaced(hs, hs[n].(params := hs[n].params + ParamsIn(LineText(line), LineTail(line))));
    } else {
      HeaderMeans(line, sc);
    }
  }

  lemma LastReplaced(hs: seq<Header>, h: Header)
    requires hs != []
    ensures hs[|hs| - 1 := h] == hs[..|hs| - 1] + [h]
  {
  }

  // ---------------------------------------------------------------- folded headers

  /** The line break behind a line does not change what is in it. */
  lemma {:induction false} TailIsStripped(s: bytes)
    ensures ParamsIn(s, CRLF) == ParamsIn(s, []) && HeaderIn(s, CRLF) == HeaderIn(s, [])
    decreases |s|, 1
  {
    hide IndexOf, StripEnds, Lowered, ParamsBehind, HeaderBehind;
    var i, j := IndexOf(s, EQUALS), IndexOf(s, COLON);
    if i < |s| { TextTail(Lowered(StripEnds(s[..i])), s[i + 1..]); }
    if j < |s| { TextTail(Lowered(StripEnds(s[..j])), s[j + 1..]); }
  }

  lemma {:induction false} TextTail(name: Text, s: bytes)
    ensures ParamsBehind(name, s, CRLF) == ParamsBehind(name, s, [])
    ensures HeaderBehind(name, s, CRLF) == HeaderBehind(name, s, [])
    decreases |s|, 0
  {
    hide StripEnds, TextEnd, ParamsIn, HeaderIn;
    StripsSpaces(s);
    assert s + [] == s;
    var k, m := TextEnd(Value, Value, s).0, TextEnd(Type, Type, s).0;
    if k < |s| { TailIsStripped(s[k + 1..]); }
    if m < |s| { TailIsStripped(s[m + 1..]); }
  }

  /** A line of a header that fits into the buffer. */
  predicate FitsLine(l: bytes) {
    l != [] && NoEnder(l) && |l| + 2 < MAX_SMLEN
  }

  /** The lines of a folded header: the first one holds a header, the others start with white space. */
  predicate Folded(ls: seq<bytes>) {
    && ls != [] && (forall k :: 0 <= k < |ls| ==> FitsLine(ls[k]))
    && !IsSpace(ls[0][0]) && HeaderIn(ls[0], []) != []
    && forall k :: 1 <= k < |ls| ==> IsSpace(ls[k][0])
  }

  function LinesText(ls: seq<bytes>): bytes {
    if ls == [] then [] else ls[0] + CRLF + LinesText(ls[1..])
  }

  function ParamsOfLines(ls: seq<bytes>): seq<Param> {
    if ls == [] then [] else ParamsIn(ls[0], []) + ParamsOfLines(ls[1..])
  }

  /** The header of the first line with the parameters of all lines. */
  function FoldedHeader(ls: seq<bytes>): Header
    requires Folded(ls)
  {
    var h := HeaderIn(ls[0], [])[0];
    h.(params := h.params + ParamsOfLines(ls[1..]))
  }

  lemma FittingLine(l: bytes)
    requires FitsLine(l)
    ensures var line := l + CRLF;
      && LineText(line) == l && LineTail(line) == CRLF
      && ByteAt(line, 0) == l[0] && !IsBlankLine(line)
      && (forall k :: 0 <= k < |l| + 1 ==> line[k] != LF)
  {
    var line := l + CRLF;
    TextOfLine(l);
    assert line[|l|..] == CRLF;
    assert UptoNul(CRLF) == CRLF by { assert CRLF[1..] == [LF] && [LF][1..] == []; }
  }

  lemma {:induction false} TextOfLine(l: bytes)
    requires NoEnder(l)
    ensures LineText(l + CRLF) == l
  {
    if l == [] {
      assert l + CRLF == CRLF;
    } else {
      assert (l + CRLF)[1..] == l[1..] + CRLF && (l + CRLF)[0] == l[0];
      TextOfLine(l[1..]);
    }
  }

  /** One line that fits: one piece, with its meaning. */
  lemma {:induction false} LineParses(s: bytes, p: nat, l: bytes, hs: seq<Header>)
    requires FitsLine(l) && At(s, p, l + CRLF)
    ensures p + |l| + 2 <= |s|
    ensures ParseFrom(s, p, hs) == ParseFrom(s, p + |l| + 2,
      if hs != [] && IsSpace(l[0]) then WithParams(hs, ParamsIn(l, [])) else hs + HeaderIn(l, []))
  {
    hide ParseLine, IsBlankLine, ParseFrom, LineText, LineTail, ParamsIn, HeaderIn, WithParams, NoEnder, UptoNul;
    var line := l + CRLF;
    FittingLine(l);
    AtBounds(s, p, line);
    AtIndex(s, p, line);
    forall k | p <= k < p + |l| + 1 ensures s[k] != LF { assert s[p + (k - p)] == line[k - p]; }
    assert s[p + (|l| + 1)] == line[|l| + 1] == LF;
    LineEndAt(s, p, |l| + 1, MAX_SMLEN - 1);
    assert s[p..PieceEnd(s, p)] == line by { assert s[p..p + |line|] == line; }
    ParseStep(s, p, hs);
    LineMeans(line, hs);
    TailIsStripped(l);
  }

  /** The continuation lines behind a header. */
  lemma {:induction false} ContinuationsParse(s: bytes, p: nat, ls: seq<bytes>, hs: seq<Header>, h: Header)
    requires forall k :: 0 <= k < |ls| ==> FitsLine(ls[k]) && IsSpace(ls[k][0])
    requires At(s, p, LinesText(ls))
    ensures p + |LinesText(ls)| <= |s|
    ensures ParseFrom(s, p, hs + [h])
         == ParseFrom(s, p + |LinesText(ls)|, hs + [h.(params := h.params + ParamsOfLines(ls))])
    decreases |ls|
  {
    hide At, ParseFrom, ParamsIn, FitsLine;
    if ls == [] {
      AtBounds(s, p, []);
      NoParams(h);
    } else {
      AtConcat(s, p, ls[0] + CRLF, LinesText(ls[1..]));
      NonEmptyLine(ls[0]);
      LineParses(s, p, ls[0], hs + [h]);
      var h' := h.(params := h.params + ParamsIn(ls[0], []));
      LastReplaced(hs + [h], h');
      assert (hs + [h])[..|hs|] == hs;
      ContinuationsParse(s, p + |ls[0]| + 2, ls[1..], hs, h');
      assert h.params + ParamsIn(ls[0], []) + ParamsOfLines(ls[1..]) == h.params + ParamsOfLines(ls);
    }
  }

  lemma NonEmptyLine(l: bytes)
    requires FitsLine(l)
    ensures l != []
  {
  }

  /** A folded header is one header, with the parameters of all its lines in order. */
  lemma {:induction false} FoldedParses(s: bytes, p: nat, ls: seq<bytes>, hs: seq<Header>)
    requires Folded(ls) && At(s, p, LinesText(ls))
    ensures p + |LinesText(ls)| <= |s|
    ensures ParseFrom(s, p, hs) == ParseFrom(s, p + |LinesText(ls)|, hs + [FoldedHeader(ls)])
  {
    hide At, ParseFrom, ParamsIn, HeaderIn, FitsLine;
    AtConcat(s, p, ls[0] + CRLF, LinesText(ls[1..]));
    NonEmptyLine(ls[0]);
    LineParses(s, p, ls[0], hs);
    var h := HeaderIn(ls[0], [])[0];
    assert HeaderIn(ls[0], []) == [h];
    ContinuationsParse(s, p + |ls[0]| + 2, ls[1..], hs, h);
  }

  function FoldedText(fs: seq<seq<bytes>>): bytes {
    if fs == [] then CRLF else LinesText(fs[0]) + FoldedText(fs[1..])
  }

  function FoldedHeaders(fs: seq<seq<bytes>>): seq<Header>
    requires forall k :: 0 <= k < |fs| ==> Folded(fs[k])
  {
    if fs == [] then [] else [FoldedHeader(fs[0])] + FoldedHeaders(fs[1..])
  }

  /** Headers folded over any number of lines, and the blank line behind them. */
  lemma {:induction false} FoldedHeadersParse(s: bytes, p: nat, fs: seq<seq<bytes>>, hs: seq<Header>)
    requires (forall k :: 0 <= k < |fs| ==> Folded(fs[k])) && At(s, p, FoldedText(fs))
    ensures p <= |s| && ParseFrom(s, p, hs) == Parsed(hs + FoldedHeaders(fs), p + |FoldedText(fs)|)
    decreases |fs|
  {
    hide At, ParseFrom, Folded, FoldedHeader, LinesText;
    if fs == [] {
      BlankLineEnds(s, p, hs);
      assert hs + [] == hs;
    } else {
      AtConcat(s, p, LinesText(fs[0]), FoldedText(fs[1..]));
      FoldedParses(s, p, fs[0], hs);
      FoldedHeadersParse(s, p + |LinesText(fs[0])|, fs[1..], hs + [FoldedHeader(fs[0])]);
      assert hs + [FoldedHeader(fs[0])] + FoldedHeaders(fs[1..]) == hs + FoldedHeaders(fs);
    }
  }

  lemma {:induction false} IndexIsMember(s: bytes, c: byte)
    ensures IndexOf(s, c) < |s| ==> c in s
  {
    var i := IndexOf(s, c);
    if i < |s| { assert s[i] in s; }
  }

  /** A continuation line without a '=' is lost: the value of a header cannot be folded. */
  lemma {:induction false} FoldedValueIsLost(first: bytes, l: bytes)
    requires Folded([first, l]) && EQUALS !in l
    ensures FoldedHeader([first, l]) == HeaderIn(first, [])[0]
  {
    hide HeaderIn, FitsLine;
    IndexIsMember(l, EQUALS);
    assert [first, l][1..] == [l] && [l][1..] == [];
    assert ParamsOfLines([l]) == [];
    NoParams(HeaderIn(first, [])[0]);
  }

  // ---------------------------------------------------------------- lines with known parts

  lemma {:induction false} IndexOfFirst(a: bytes, c: byte, b: bytes)
    requires c !in a
    ensures var s := a + [c] + b; IndexOf(s, c) == |a| && s[..|a|] == a && s[|a| + 1..] == b
  {
    var s := a + [c] + b;
    if a == [] {
      assert s[0] == c;
    } else {
      assert s[0] == a[0] && a[0] in a && s[1..] == a[1..] + [c] + b;
      IndexOfFirst(a[1..], c, b);
    }
    assert s[..|a|] == a && s[|a| + 1..] == b;
  }

  /** A balanced text ends with the line, or at the ';' behind it. */
  lemma {:induction false} BalancedEnds(home: LineMode, mode: LineMode, s: bytes, b: bytes)
    requires Balanced(home, mode, s)
    ensures TextEnd(home, mode, s) == (|s|, home)
    ensures TextEnd(home, mode, s + [SEMICOLON] + b) == (|s|, home)
    decreases |s|
  {
    hide TextMode;
    var t := s + [SEMICOLON] + b;
    if s == [] {
      assert t[0] == SEMICOLON;
    } else {
      assert t[0] == s[0] && t[1..] == s[1..] + [SEMICOLON] + b;
      BalancedEnds(home, TextMode(home, mode, s[0]), s[1..], b);
    }
  }

  /** "name:value;" */
  lemma {:induction false} HeaderLine(name: bytes, value: bytes)
    requires COLON !in name && Balanced(Type, Type, value)
    ensures HeaderIn(name + [COLON] + (value + [SEMICOLON]), [])
         == [Header(Lowered(StripEnds(name)), Lowered(StripEnds(value)), [])]
  {
    hide StripEnds, Lowered, TextEnd, IndexOf;
    var rest := value + [SEMICOLON];
    IndexOfFirst(name, COLON, rest);
    BalancedEnds(Type, Type, value, []);
    assert value + [SEMICOLON] + [] == rest;
    assert rest[..|value|] == value && rest[|value| + 1..] == [];
  }

  /** "name=value" */
  lemma {:induction false} ParamLine(name: bytes, value: bytes)
    requires EQUALS !in name && Balanced(Value, Value, value)
    ensures ParamsIn(name + [EQUALS] + value, []) == [Param(Lowered(StripEnds(name)), StripEnds(value))]
  {
    hide StripEnds, Lowered, TextEnd, IndexOf;
    IndexOfFirst(name, EQUALS, value);
    BalancedEnds(Value, Value, value, []);
    assert value + [] == value;
  }

  /** A header on one line and a parameter on the next. */
  lemma {:induction false} TwoLines(first: bytes, l: bytes, h: Header, p: Param)
    requires FitsLine(first) && FitsLine(l) && !IsSpace(first[0]) && IsSpace(l[0])
    requires HeaderIn(first, []) == [h] && h.params == [] && ParamsIn(l, []) == [p]
    ensures Folded([first, l]) && FoldedHeader([first, l]) == h.(params := [p])
  {
    hide HeaderIn, ParamsIn, FitsLine;
    var ls, more := [first, l], [l];
    assert ls[1..] == more && more[1..] == [];
    assert ParamsOfLines(more) == [p] + [] == [p];
    assert [] + [p] == [p];
  }
}
