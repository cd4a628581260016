/** mime_parse_hdr on its line buffer: texts are cut out in place by writing NULs. */
module MimeParser {
  import opened Bytes
  import opened MemBio
  import opened MimeHeader

  /** A char pointer into the line buffer. */
  datatype Pointer = NoText | TextAt(i: nat)

  /** The C string at i ends inside the buffer. */
  predicate Ends(b: bytes, i: nat) {
    i <= |b| && i + |UptoNul(b[i..])| < |b|
  }

  function StringAt(b: bytes, i: nat): bytes
    requires i <= |b|
  {
    UptoNul(b[i..])
  }

  /** What a pointer points to. */
  function TextOf(b: bytes, t: Pointer): Text
    requires t.TextAt? ==> t.i <= |b|
  {
    if t.NoText? then Null else Str(StringAt(b, t.i))
  }

  /** The string at i does not change when its end stays where it is. */
  lemma {:induction false} StringUpto(b: bytes, i: nat, e: nat)
    requires i <= e < |b| && b[e] == NUL && forall k :: i <= k < e ==> b[k] != NUL
    ensures StringAt(b, i) == b[i..e]
    decreases e - i
  {
    if i < e {
      StringUpto(b, i + 1, e);
      assert b[i..][1..] == b[i + 1..];
    }
  }

  lemma StringEnd(b: bytes, i: nat)
    requires Ends(b, i)
    ensures i <= |b| && i + |StringAt(b, i)| < |b|
    ensures var e := i + |StringAt(b, i)|;
      b[e] == NUL && StringAt(b, i) == b[i..e] && forall k :: i <= k < e ==> b[k] != NUL
  {
    var t := UptoNul(b[i..]);
    assert b[i..][..|t|] == t;
    assert b[i..][|t|] == NUL;
    assert forall k :: 0 <= k < |t| ==> t[k] == b[i + k] && t[k] in t;
  }

  /** strip_start */
  method StripStartAt(buf: array<byte>, name: nat) returns (r: Pointer)
    requires Ends(buf[..], name)
    ensures r.TextAt? ==> name <= r.i && Ends(buf[..], r.i)
    ensures r.TextAt? ==> r.i + |StringAt(buf[..], r.i)| == name + |StringAt(buf[..], name)|
    ensures TextOf(buf[..], r) == StripStart(StringAt(buf[..], name))
  {
    hide UptoNul, StripStart, Ends, StringAt;
    var p := name;
    ghost var b := buf[..];
    StringEnd(b, name);
    ghost var e := name + |StringAt(b, name)|;
    while buf[p] != NUL
      invariant name <= p <= e < |b| && b == buf[..] && StringAt(b, p) == b[p..e] && Ends(b, p)
      invariant StripStart(b[p..e]) == StripStart(b[name..e])
      decreases e - p
    {
      StripStartStep(b, p, e);
      EndsAt(b, p + 1, e);
      if buf[p] == QUOTE {
        if buf[p + 1] != NUL { return TextAt(p + 1); }
        return NoText;
      }
      if !IsSpace(buf[p]) { return TextAt(p); }
      p := p + 1;
    }
    NothingToStart(b, p);
    return NoText;
  }

  lemma EndsAt(b: bytes, i: nat, e: nat)
    requires i <= e < |b| && b[e] == NUL && forall k :: i <= k < e ==> b[k] != NUL
    ensures StringAt(b, i) == b[i..e] && Ends(b, i)
  {
    StringUpto(b, i, e);
  }

  lemma StripStartStep(b: bytes, p: nat, e: nat)
    requires p < e <= |b|
    ensures StripStart(b[p..e]) ==
      if b[p] == QUOTE then (if p + 1 < e then Str(b[p + 1..e]) else Null)
      else if !IsSpace(b[p]) then Str(b[p..e])
      else StripStart(b[p + 1..e])
  {
    assert b[p..e][1..] == b[p + 1..e];
  }

  lemma NothingToStart(b: bytes, p: nat)
    requires p <= |b|
    ensures StripStart(b[p..p]) == Null
  {
  }

  /** strip_end */
  method StripEndAt(buf: array<byte>, name: Pointer) returns (r: Pointer)
    requires name.TextAt? ==> Ends(buf[..], name.i)
    modifies buf
    ensures name.NoText? ==> r.NoText? && buf[..] == old(buf[..])
    ensures name.TextAt? ==>
      (var e := name.i + |StringAt(old(buf[..]), name.i)|;
       buf[..name.i] == old(buf[..name.i]) && buf[e..] == old(buf[e..]))
    ensures name.TextAt? ==>
      (r == TextAt(name.i) || r == NoText) && TextOf(buf[..], r) == StripEnd(StringAt(old(buf[..]), name.i))
    ensures r.TextAt? ==> Ends(buf[..], r.i) && |StringAt(buf[..], r.i)| <= |StringAt(old(buf[..]), r.i)|
  {
    hide UptoNul, StripEnd, Ends, StringAt;
    if name.NoText? { return NoText; }
    ghost var b, i := buf[..], name.i;
    StringEnd(b, i);
    ghost var e := i + |StringAt(b, i)|;
    var p := Strlen(buf, name.i);
    p := p + name.i;
    while p > name.i
      invariant i <= p <= e < |b| == buf.Length && buf[..][..p] == b[..p] && buf[..][e..] == b[e..] && buf[p] == NUL
      invariant StripEnd(b[i..p]) == StripEnd(b[i..e])
      decreases p
    {
      p := p - 1;
      PrefixShrinks(buf[..], b, p);
      StripEndStep(b, i, p);
      CutHere(b, buf[..], i, p + 1);
      var c := buf[p];
      if c == QUOTE {
        if p - 1 == name.i { return NoText; }
        buf[p] := NUL;
        CutHere(b, buf[..], i, p);
        return name;
      }
      if IsSpace(c) {
        buf[p] := NUL;
      } else {
        return name;
      }
    }
    NothingToStrip(b, i);
    return NoText;
  }

  lemma PrefixShrinks(now: bytes, b: bytes, p: nat)
    requires p < |b| == |now| && now[..p + 1] == b[..p + 1]
    ensures now[..p] == b[..p] && now[p] == b[p]
  {
    assert now[..p + 1][..p] == b[..p + 1][..p];
    assert now[..p + 1][p] == b[..p + 1][p];
  }

  lemma StripEndStep(b: bytes, i: nat, p: nat)
    requires i <= p < |b|
    ensures StripEnd(b[i..p + 1]) ==
      if b[p] == QUOTE then (if p == i + 1 then Null else Str(b[i..p]))
      else if IsSpace(b[p]) then StripEnd(b[i..p])
      else Str(b[i..p + 1])
  {
    assert b[i..p + 1][..p - i] == b[i..p];
  }

  lemma NothingToStrip(b: bytes, i: nat)
    requires i <= |b|
    ensures StripEnd(b[i..i]) == Null
  {
  }

  /** A string whose bytes are those of b and which is cut at p. */
  lemma CutHere(b: bytes, now: bytes, i: nat, p: nat)
    requires |b| == |now| && i <= p < |b| && now[..p] == b[..p] && now[p] == NUL
    requires forall k :: i <= k < p ==> b[k] != NUL
    ensures StringAt(now, i) == b[i..p] && Ends(now, i) && now[..i] == b[..i]
  {
    assert forall k :: 0 <= k < p ==> now[k] == now[..p][k] == b[..p][k] == b[k];
    StringUpto(now, i, p);
    assert now[i..p] == b[i..p];
    assert now[..i] == now[..p][..i] && b[..i] == b[..p][..i];
  }

  method Strlen(buf: array<byte>, i: nat) returns (n: nat)
    requires Ends(buf[..], i)
    ensures n == |StringAt(buf[..], i)|
  {
    hide UptoNul;
    StringEnd(buf[..], i);
    n := 0;
    while buf[i + n] != NUL
      invariant n <= |StringAt(buf[..], i)|
      decreases |StringAt(buf[..], i)| - n
    {
      n := n + 1;
    }
  }

  /** strip_ends of the string at q, which ends at e: nothing outside of it is written. */
  method StripEndsAt(buf: array<byte>, q: nat, ghost e: nat) returns (r: Pointer)
    requires Ends(buf[..], q) && e == q + |StringAt(buf[..], q)|
    modifies buf
    ensures buf[..q] == old(buf[..q]) && buf[e..] == old(buf[e..])
    ensures r.TextAt? ==> q <= r.i && Ends(buf[..], r.i) && r.i + |StringAt(buf[..], r.i)| <= e
    ensures TextOf(buf[..], r) == StripEnds(StringAt(old(buf[..]), q))
  {
    hide UptoNul, StripStart, StripEnd;
    r := StripStartAt(buf, q);
    ghost var b := buf[..];
    if r.TextAt? {
      r := StripEndAt(buf, r);
      assert buf[..q] == b[..q];
    }
  }

  // ---------------------------------------------------------------- one line

  /** The pointer to the name read last stands for the text, and its string ends before q. */
  predicate NameIs(b: bytes, ntmp: Pointer, q: nat, name: Text)
    requires q <= |b|
  {
    if ntmp.NoText? then name == Null
    else ntmp.i < q && Ends(b[..q], ntmp.i) && name == Str(StringAt(b[..q], ntmp.i))
  }

  /** What is written behind q does not touch the name. */
  lemma NameStays(b: bytes, now: bytes, ntmp: Pointer, q: nat, name: Text)
    requires q <= |b| == |now| && NameIs(b, ntmp, q, name) && now[..q] == b[..q]
    ensures NameIs(now, ntmp, q, name)
  {
  }

  /** The string of the name in the whole buffer. */
  lemma NameText(b: bytes, ntmp: Pointer, q: nat, name: Text)
    requires q <= |b| && NameIs(b, ntmp, q, name)
    ensures ntmp.TextAt? ==> ntmp.i <= |b| && Ends(b, ntmp.i)
    ensures TextOf(b, ntmp) == name
  {
    if ntmp.TextAt? {
      var i := ntmp.i;
      StringEnd(b[..q], i);
      var e := i + |StringAt(b[..q], i)|;
      assert forall k :: i <= k <= e ==> b[..q][k] == b[k];
      StringUpto(b, i, e);
      assert b[..q][i..e] == b[i..e];
    }
  }

  /** A stripped text that ends at or before e is a name for every q behind e. */
  lemma TextIsName(b: bytes, t: Pointer, e: nat)
    requires e < |b|
    requires t.TextAt? ==> Ends(b, t.i) && t.i + |StringAt(b, t.i)| <= e
    ensures NameIs(b, t, e + 1, TextOf(b, t))
  {
    if t.TextAt? {
      var i := t.i;
      StringEnd(b, i);
      var m := i + |StringAt(b, i)|;
      assert forall k :: i <= k <= m ==> b[..e + 1][k] == b[k];
      StringUpto(b[..e + 1], i, m);
      assert b[..e + 1][i..m] == b[i..m];
    }
  }

  /** In these modes the header under way has been pushed. */
  predicate InHeader(sc: Scan) {
    sc.mode in {Name, Value, Quoted} || (sc.mode == Comment && sc.saved == Value) ==> sc.headers != []
  }

  predicate SavedIsText(sc: Scan) {
    sc.mode == Comment ==> sc.saved in {Type, Value}
  }

  /** The buffer agrees with the scan of the line that was in it. */
  ghost predicate Tracks(b: bytes, line: bytes, p: nat, ntmp: Pointer, sc: Scan) {
    && sc.q <= p <= |line| < |b|
    && b[sc.q..|line|] == line[sc.q..] && b[|line|] == NUL
    && (forall k :: 0 <= k < p ==> line[k] != NUL)
    && NameIs(b, ntmp, sc.q, sc.name)
    && InHeader(sc) && SavedIsText(sc)
  }

  lemma TracksStart(b: bytes, line: bytes, hs: seq<Header>)
    requires |line| < |b| && b[..|line|] == line && b[|line|] == NUL
    ensures Tracks(b, line, 0, NoText, FirstScan(line, hs))
  {
    assert b[0..|line|] == b[..|line|];
  }

  lemma TracksByte(b: bytes, line: bytes, p: nat, ntmp: Pointer, sc: Scan)
    requires Tracks(b, line, p, ntmp, sc)
    ensures b[p] == if p < |line| then line[p] else NUL
  {
    hide NameIs;
    if p < |line| {
      assert b[sc.q..|line|][p - sc.q] == b[p];
      assert line[sc.q..][p - sc.q] == line[p];
    }
  }

  /** Writing a NUL at p makes line[q..p] a string. */
  lemma CutAt(b: bytes, line: bytes, p: nat, ntmp: Pointer, sc: Scan)
    requires Tracks(b, line, p, ntmp, sc) && p < |line|
    ensures var now := b[p := NUL];
      && Ends(now, sc.q) && StringAt(now, sc.q) == line[sc.q..p] && sc.q + |StringAt(now, sc.q)| == p
      && NameIs(now, ntmp, sc.q, sc.name) && now[p + 1..] == b[p + 1..]
  {
    hide NameIs;
    var now, q := b[p := NUL], sc.q;
    forall k | q <= k < p ensures now[k] == line[k] {
      assert b[q..|line|][k - q] == line[q..][k - q];
    }
    StringUpto(now, q, p);
    assert now[q..p] == line[q..p];
    assert now[..q] == b[..q];
    NameStays(b, now, ntmp, q, sc.name);
  }

  /** The string at q when nothing was cut: it ends with the C string in the buffer. */
  lemma NotCut(b: bytes, line: bytes, p: nat, ntmp: Pointer, sc: Scan)
    requires Tracks(b, line, p, ntmp, sc)
    ensures Ends(b, sc.q) && StringAt(b, sc.q) == UptoNul(line[sc.q..])
  {
    hide NameIs;
    var q, t := sc.q, UptoNul(line[sc.q..]);
    var e := q + |t|;
    forall k | q <= k <= e ensures b[k] == if k < e then t[k - q] else NUL {
      if k < |line| {
        assert b[q..|line|][k - q] == line[q..][k - q];
        if k < e { assert t == line[q..][..|t|]; }
      }
    }
    forall k | q <= k < e ensures b[k] != NUL { assert t[k - q] in t; }
    StringUpto(b, q, e);
    assert b[q..e] == t;
  }

  /** Behind a text that was cut at p the buffer tracks the next state. */
  lemma TracksBehind(b: bytes, now: bytes, line: bytes, p: nat, ntmp: Pointer, sc: Scan, t: Pointer, next: Scan)
    requires Tracks(b, line, p, ntmp, sc) && p < |line| && line[p] != NUL
    requires |now| == |b| && now[p + 1..] == b[p + 1..]
    requires next.q == p + 1 && NameIs(now, t, p + 1, next.name) && InHeader(next) && SavedIsText(next)
    ensures Tracks(now, line, p + 1, t, next)
  {
    hide NameIs;
    assert now[p + 1..|line|] == now[p + 1..][..|line| - p - 1] == b[p + 1..|line|];
    assert now[|line|] == now[p + 1..][|line| - p - 1] == b[|line|];
    assert b[p + 1..|line|] == b[sc.q..|line|][p + 1 - sc.q..] == line[p + 1..];
  }

  lemma TracksOn(b: bytes, line: bytes, p: nat, ntmp: Pointer, sc: Scan, next: Scan)
    requires Tracks(b, line, p, ntmp, sc) && p < |line| && line[p] != NUL
    requires next.q == sc.q && next.name == sc.name && InHeader(next) && SavedIsText(next)
    ensures Tracks(b, line, p + 1, ntmp, next)
  {
  }

  lemma FinishedStep(line: bytes, p: nat, sc: Scan)
    requires sc.q <= p <= |line|
    ensures p < |line| && !EndsScan(line[p]) ==>
      (var next := Step(sc, line[p], p, line[sc.q..p]);
       next.q <= p + 1 && Finished(line, p, sc) == Finished(line, p + 1, next))
    ensures p == |line| || EndsScan(line[p]) ==>
      Finished(line, p, sc) == FinishLine(sc, UptoNul(line[sc.q..]))
  {
    hide FinishLine, UptoNul;
  }

  /** BUF_strdup of the string at i, and the loop over the copy that lowers its capitals. */
  method LowerCopy(buf: array<byte>, i: nat) returns (copy: array<byte>)
    requires Ends(buf[..], i)
    ensures fresh(copy) && copy.Length == |StringAt(buf[..], i)| + 1
    ensures forall k :: 0 <= k < copy.Length - 1 ==> copy[k] == LowerByte(StringAt(buf[..], i)[k]) && copy[k] != NUL
    ensures copy[copy.Length - 1] == NUL
  {
    hide UptoNul, Ends, StringAt;
    StringEnd(buf[..], i);
    ghost var s := StringAt(buf[..], i);
    var n := Strlen(buf, i);
    copy := new byte[n + 1](_ => NUL);
    var k := 0;
    while k < n
      invariant k <= n && copy[..k] == s[..k] && copy[n] == NUL
    {
      copy[k] := buf[i + k];
      k := k + 1;
    }
    assert forall j :: 0 <= j < n ==> copy[j] == copy[..n][j] == s[j] == buf[i + j];
    var p := 0;
    while copy[p] != NUL
      invariant p <= n && copy[n] == NUL
      invariant forall j :: 0 <= j < p ==> copy[j] == LowerByte(s[j])
      invariant forall j :: p <= j < n ==> copy[j] == s[j] && copy[j] != NUL
      decreases n - p
    {
      var c := copy[p];
      if IsUpper(c) { copy[p] := c + 32; }
      p := p + 1;
    }
    assert forall j :: 0 <= j < n ==> s[j] != NUL by { assert forall j :: 0 <= j < n ==> s[j] == buf[i + j]; }
  }

  /** The lower-case copy of a text that may be null. */
  method LowerTextOf(buf: array<byte>, t: Pointer) returns (r: Text)
    requires t.TextAt? ==> Ends(buf[..], t.i)
    ensures r == Lowered(TextOf(buf[..], t))
  {
    hide UptoNul, Ends, StringAt;
    if t.NoText? { return Null; }
    EndsInside(buf[..], t);
    var copy := LowerCopy(buf, t.i);
    r := Str(copy[..copy.Length - 1]);
    assert r.s == Lower(StringAt(buf[..], t.i));
  }

  /** mime_hdr_new: the copies of both texts in lower case, and no parameters yet. */
  method HdrNew(buf: array<byte>, name: Pointer, value: Pointer) returns (h: Header)
    requires name.TextAt? ==> Ends(buf[..], name.i)
    requires value.TextAt? ==> Ends(buf[..], value.i)
    ensures name.TextAt? ==> name.i <= buf.Length
    ensures value.TextAt? ==> value.i <= buf.Length
    ensures h == NewHeader(TextOf(buf[..], name), TextOf(buf[..], value))
  {
    hide Ends;
    EndsInside(buf[..], name);
    EndsInside(buf[..], value);
    var tmpname := LowerTextOf(buf, name);
    var tmpval := LowerTextOf(buf, value);
    h := Header(tmpname, tmpval, []);
  }

  /** *p = 0; strip_ends(q): the text between q and p, with the name read before it untouched. */
  method CutText(buf: array<byte>, q: nat, p: nat, ghost line: bytes, ntmp: Pointer, ghost sc: Scan)
    returns (t: Pointer)
    requires Tracks(buf[..], line, p, ntmp, sc) && p < |line| && q == sc.q
    modifies buf
    ensures buf[p + 1..] == old(buf[p + 1..]) && NameIs(buf[..], ntmp, q, sc.name)
    ensures t.TextAt? ==> t.i <= buf.Length && Ends(buf[..], t.i)
    ensures TextOf(buf[..], t) == StripEnds(line[q..p]) && NameIs(buf[..], t, p + 1, StripEnds(line[q..p]))
  {
    hide Tracks, NameIs, Ends, StringAt, StripEnds;
    ghost var b := buf[..];
    CutBounds(b, line, p, ntmp, sc);
    CutAt(b, line, p, ntmp, sc);
    buf[p] := NUL;
    assert buf[..] == b[p := NUL];
    t := StripEndsAt(buf, q, p);
    ghost var now := buf[..];
    assert now[..q] == b[p := NUL][..q];
    NameStays(b[p := NUL], now, ntmp, q, sc.name);
    EndsInside(now, t);
    TextIsName(now, t, p);
    assert now[p..] == b[p := NUL][p..];
    assert now[p + 1..] == now[p..][1..] == b[p := NUL][p..][1..] == b[p + 1..];
  }

  lemma EndsInside(b: bytes, t: Pointer)
    requires t.TextAt? ==> Ends(b, t.i)
    ensures t.TextAt? ==> t.i <= |b|
  {
  }

  lemma CutBounds(b: bytes, line: bytes, p: nat, ntmp: Pointer, sc: Scan)
    requires Tracks(b, line, p, ntmp, sc) && p < |line|
    ensures p < |b| && sc.q <= p
  {
  }

  /** The variables of the loop over a line. */
  datatype Vars = Vars(mode: LineMode, saved: LineMode, q: nat, ntmp: Pointer, headers: seq<Header>)

  predicate Matches(v: Vars, sc: Scan) {
    v.mode == sc.mode && v.saved == sc.saved && v.q == sc.q && v.headers == sc.headers
  }

  /** case MIME_TYPE, c == ';' */
  method PushHeader(buf: array<byte>, p: nat, ghost line: bytes, v: Vars, ghost sc: Scan) returns (w: Vars)
    requires Tracks(buf[..], line, p, v.ntmp, sc) && p < |line| && Matches(v, sc)
    requires sc.mode == Type && line[p] == SEMICOLON
    modifies buf
    ensures var next := Step(sc, SEMICOLON, p, line[v.q..p]);
      Matches(w, next) && Tracks(buf[..], line, p + 1, w.ntmp, next)
  {
    hide Tracks, NameIs, StripEnds, Ends, StringAt;
    ghost var b := buf[..];
    CutBounds(b, line, p, v.ntmp, sc);
    var t := CutText(buf, v.q, p, line, v.ntmp, sc);
    NameText(buf[..], v.ntmp, v.q, sc.name);
    var h := HdrNew(buf, v.ntmp, t);
    w := Vars(Name, v.saved, p + 1, NoText, v.headers + [h]);
    NoName(buf[..], p + 1);
    TracksBehind(b, buf[..], line, p, v.ntmp, sc, NoText, Step(sc, SEMICOLON, p, line[v.q..p]));
  }

  lemma NoName(b: bytes, q: nat)
    requires q <= |b|
    ensures NameIs(b, NoText, q, Null)
  {
  }

  /** case MIME_START, c == ':' and case MIME_NAME, c == '=' */
  method CutName(buf: array<byte>, p: nat, ghost line: bytes, v: Vars, ghost sc: Scan) returns (w: Vars)
    requires Tracks(buf[..], line, p, v.ntmp, sc) && p < |line| && Matches(v, sc)
    requires (sc.mode == Start && line[p] == COLON) || (sc.mode == Name && line[p] == EQUALS)
    modifies buf
    ensures var next := Step(sc, line[p], p, line[v.q..p]);
      Matches(w, next) && Tracks(buf[..], line, p + 1, w.ntmp, next)
  {
    hide Tracks, NameIs, StripEnds, Ends, StringAt;
    ghost var b := buf[..];
    CutBounds(b, line, p, v.ntmp, sc);
    var t := CutText(buf, v.q, p, line, v.ntmp, sc);
    w := v.(mode := if v.mode == Start then Type else Value, q := p + 1, ntmp := t);
    TracksModes(b, line, p, v.ntmp, sc);
    TracksBehind(b, buf[..], line, p, v.ntmp, sc, t, Step(sc, line[p], p, line[v.q..p]));
  }

  lemma TracksModes(b: bytes, line: bytes, p: nat, ntmp: Pointer, sc: Scan)
    requires Tracks(b, line, p, ntmp, sc)
    ensures InHeader(sc) && SavedIsText(sc)
  {
  }

  /** case MIME_VALUE, c == ';' */
  method PushParam(buf: array<byte>, p: nat, ghost line: bytes, v: Vars, ghost sc: Scan) returns (w: Vars)
    requires Tracks(buf[..], line, p, v.ntmp, sc) && p < |line| && Matches(v, sc)
    requires sc.mode == Value && line[p] == SEMICOLON
    modifies buf
    ensures var next := Step(sc, SEMICOLON, p, line[v.q..p]);
      Matches(w, next) && Tracks(buf[..], line, p + 1, w.ntmp, next)
  {
    hide Tracks, NameIs, StripEnds, Ends, StringAt;
    ghost var b := buf[..];
    CutBounds(b, line, p, v.ntmp, sc);
    TracksModes(b, line, p, v.ntmp, sc);
    var t := CutText(buf, v.q, p, line, v.ntmp, sc);
    NameText(buf[..], v.ntmp, v.q, sc.name);
    var hs := HdrAddParam(buf, v.headers, v.ntmp, t);
    w := Vars(Name, v.saved, p + 1, NoText, hs);
    NoName(buf[..], p + 1);
    TracksBehind(b, buf[..], line, p, v.ntmp, sc, NoText, Step(sc, SEMICOLON, p, line[v.q..p]));
  }

  /** mime_hdr_addparam on the header that was pushed last: the name in lower case, the value as it
      is. */
  method HdrAddParam(buf: array<byte>, hs: seq<Header>, name: Pointer, value: Pointer) returns (r: seq<Header>)
    requires hs != []
    requires name.TextAt? ==> Ends(buf[..], name.i)
    requires value.TextAt? ==> Ends(buf[..], value.i)
    ensures name.TextAt? ==> name.i <= buf.Length
    ensures value.TextAt? ==> value.i <= buf.Length
    ensures r == AddParam(hs, TextOf(buf[..], name), TextOf(buf[..], value)) && r != []
  {
    hide Ends, StringAt;
    EndsInside(buf[..], name);
    EndsInside(buf[..], value);
    var tmpname := LowerTextOf(buf, name);
    var tmpval := CopyText(buf, value);
    var mhdr := hs[|hs| - 1];
    r := hs[|hs| - 1 := mhdr.(params := mhdr.params + [Param(tmpname, tmpval)])];
  }

  /** BUF_strdup of a text that may be null. */
  method CopyText(buf: array<byte>, t: Pointer) returns (r: Text)
    requires t.TextAt? ==> Ends(buf[..], t.i)
    ensures t.TextAt? ==> t.i <= buf.Length
    ensures r == TextOf(buf[..], t)
  {
    hide UptoNul, Ends, StringAt;
    if t.NoText? { return Null; }
    EndsInside(buf[..], t);
    StringEnd(buf[..], t.i);
    var n := Strlen(buf, t.i);
    r := Str(buf[t.i..t.i + n]);
    assert buf[..][t.i..t.i + n] == buf[t.i..t.i + n];
  }

  /** The switch of mime_parse_hdr, for one character. */
  method OneCharacter(buf: array<byte>, p: nat, c: byte, ghost line: bytes, v: Vars, ghost sc: Scan) returns (w: Vars)
    requires Tracks(buf[..], line, p, v.ntmp, sc) && p < |line| && c == line[p] && !EndsScan(c) && Matches(v, sc)
    modifies buf
    ensures sc.q <= p
    ensures var next := Step(sc, c, p, line[v.q..p]);
      Matches(w, next) && Tracks(buf[..], line, p + 1, w.ntmp, next)
  {
    hide Tracks, NameIs, StripEnds, AddParam, NewHeader;
    CutBounds(buf[..], line, p, v.ntmp, sc);
    if (v.mode == Start && c == COLON) || (v.mode == Name && c == EQUALS) {
      w := CutName(buf, p, line, v, sc);
    } else if v.mode == Type && c == SEMICOLON {
      w := PushHeader(buf, p, line, v, sc);
    } else if v.mode == Value && c == SEMICOLON {
      w := PushParam(buf, p, line, v, sc);
    } else {
      w := ChangeMode(c, v);
      TracksModes(buf[..], line, p, v.ntmp, sc);
      TracksOn(buf[..], line, p, v.ntmp, sc, Step(sc, c, p, line[v.q..p]));
    }
  }

  /** The cases that only change the mode. */
  method ChangeMode(c: byte, v: Vars) returns (w: Vars)
    ensures w == match v.mode
      case Type => if c == LPAREN then v.(saved := Type, mode := Comment) else v
      case Comment => if c == RPAREN then v.(mode := v.saved) else v
      case Value =>
        if c == QUOTE then v.(mode := Quoted)
        else if c == LPAREN then v.(saved := Value, mode := Comment) else v
      case Quoted => if c == QUOTE then v.(mode := Value) else v
      case _ => v
  {
    w := v;
    if v.mode == Type {
      if c == LPAREN { w := v.(saved := Type, mode := Comment); }
    } else if v.mode == Comment {
      if c == RPAREN { w := v.(mode := v.saved); }
    } else if v.mode == Value {
      if c == QUOTE {
        w := v.(mode := Quoted);
      } else if c == LPAREN {
        w := v.(saved := Value, mode := Comment);
      }
    } else if v.mode == Quoted {
      if c == QUOTE { w := v.(mode := Value); }
    }
  }

  /** The work on one piece in the buffer: the headers it adds, and whether it is blank. */
  method ParseInPlace(buf: array<byte>, len: nat, hs0: seq<Header>) returns (hs: seq<Header>, blank: bool)
    requires len < buf.Length && buf[len] == NUL
    modifies buf
    ensures hs == ParseLine(old(buf[..len]), hs0) && blank == IsBlankLine(old(buf[..len]))
  {
    hide Tracks, NameIs, StripEnds, Step, FinishLine, Finished;
    ghost var line := buf[..len];
    ghost var sc := FirstScan(line, hs0);
    var v := Vars(if hs0 != [] && IsSpace(buf[0]) then Name else Start, Start, 0, NoText, hs0);
    TracksStart(buf[..], line, hs0);
    TracksByte(buf[..], line, 0, NoText, sc);
    blank := EndsScan(buf[0]);
    var p := 0;
    while !EndsScan(buf[p])
      invariant Tracks(buf[..], line, p, v.ntmp, sc) && Matches(v, sc) && p <= len == |line|
      invariant sc.q <= p && Finished(line, p, sc) == ParseLine(line, hs0)
      decreases len - p
    {
      TracksByte(buf[..], line, p, v.ntmp, sc);
      FinishedStep(line, p, sc);
      v := OneCharacter(buf, p, buf[p], line, v, sc);
      sc := Step(sc, line[p], p, line[sc.q..p]);
      p := p + 1;
    }
    TracksByte(buf[..], line, p, v.ntmp, sc);
    FinishedStep(line, p, sc);
    hs := FinishInPlace(buf, p, line, v, sc);
  }

  /** What is done behind the loop over a line. */
  method FinishInPlace(buf: array<byte>, p: nat, ghost line: bytes, v: Vars, ghost sc: Scan) returns (hs: seq<Header>)
    requires Tracks(buf[..], line, p, v.ntmp, sc) && Matches(v, sc)
    modifies buf
    ensures sc.q <= |line| && hs == FinishLine(sc, UptoNul(line[sc.q..]))
  {
    hide Tracks, NameIs, StripEnds, AddParam, NewHeader, UptoNul;
    ghost var b := buf[..];
    TracksQ(b, line, p, v.ntmp, sc);
    TracksModes(b, line, p, v.ntmp, sc);
    if v.mode != Type && v.mode != Value { return v.headers; }
    NotCut(b, line, p, v.ntmp, sc);
    var t := StripEndsAt(buf, v.q, v.q + |StringAt(b, v.q)|);
    NameStays(b, buf[..], v.ntmp, v.q, sc.name);
    NameText(buf[..], v.ntmp, v.q, sc.name);
    EndsInside(buf[..], t);
    if v.mode == Type {
      var h := HdrNew(buf, v.ntmp, t);
      hs := v.headers + [h];
    } else {
      hs := HdrAddParam(buf, v.headers, v.ntmp, t);
    }
  }

  lemma TracksQ(b: bytes, line: bytes, p: nat, ntmp: Pointer, sc: Scan)
    requires Tracks(b, line, p, ntmp, sc)
    ensures sc.q <= |line| < |b| && NameIs(b, ntmp, sc.q, sc.name)
  {
  }

  // ---------------------------------------------------------------- the whole header

  /** mime_parse_hdr: the headers, with the stream at the first byte of the body. */
  method ParseHdr(bio: Bio) returns (headers: seq<Header>)
    requires bio.Valid() && bio.pos == 0
    modifies bio
    ensures bio.Valid() && Parsed(headers, bio.pos) == ParseHeaders(bio.data)
  {
    hide ParseLine, IsBlankLine, PieceEnd, ParseFrom;
    var linebuf := new byte[MAX_SMLEN](_ => 0);
    headers := [];
    var len := bio.Gets(linebuf);
    while len > 0
      invariant bio.Valid() && 0 <= len < MAX_SMLEN && linebuf[len] == NUL && fresh(linebuf)
      invariant len <= bio.pos && (len > 0 ==> bio.pos == PieceEnd(bio.data, bio.pos - len))
      invariant linebuf[..len] == bio.data[bio.pos - len..bio.pos]
      invariant len == 0 ==> bio.pos == |bio.data|
      invariant ParseFrom(bio.data, bio.pos - len, headers) == ParseHeaders(bio.data)
      decreases |bio.data| - bio.pos + len
    {
      ghost var p := bio.pos - len;
      ParseUnfold(bio.data, p, headers);
      var blank;
      headers, blank := ParseInPlace(linebuf, len, headers);
      if blank { return; }
      len := bio.Gets(linebuf);
    }
    ParseUnfold(bio.data, bio.pos, headers);
  }

  lemma {:induction false} ParseUnfold(s: bytes, p: nat, hs: seq<Header>)
    requires p <= |s|
    ensures p == |s| ==> ParseFrom(s, p, hs) == Parsed(hs, p)
    ensures p < |s| ==>
      (var e := PieceEnd(s, p);
       var line := s[p..e];
       ParseFrom(s, p, hs) ==
         if IsBlankLine(line) then Parsed(ParseLine(line, hs), e) else ParseFrom(s, e, ParseLine(line, hs)))
  {
    hide ParseLine, IsBlankLine, PieceEnd;
  }
}
