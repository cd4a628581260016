/** What multi_split makes of a multipart body, and why it gives back the parts that the
    composer put together. */
module Multipart {
  import opened Bytes
  import opened MemBio
  import opened MimeHeader

  const DASHES: bytes := [MINUS, MINUS]

  // ---------------------------------------------------------------- multi_split

  /** mime_bound_check: 0 for no boundary, 1 for a part boundary, 2 for the final boundary. */
  function BoundCheck(line: bytes, bound: bytes): nat {
    if |bound| + 2 > |line| then 0
    else if line[..2] == DASHES && line[2..2 + |bound|] == bound then
      if ByteAt(line, |bound| + 2) == MINUS && ByteAt(line, |bound| + 3) == MINUS then 2 else 1
    else 0
  }

  /** strip_eol: the piece without the CRs and LFs at its end. */
  function StripEol(line: bytes): bytes {
    if line != [] && line[|line| - 1] in {CR, LF} then StripEol(line[..|line| - 1]) else line
  }

  /** The flag strip_eol returns: there was an LF among them. */
  predicate HasEol(line: bytes) {
    line != [] && (line[|line| - 1] == LF || (line[|line| - 1] == CR && HasEol(line[..|line| - 1])))
  }

  /** The BIO of the part under way, if there is one. */
  datatype Piece = NoPiece | Piece(s: bytes)

  /** The variables of multi_split. `part` is a char: it counts modulo 256. */
  datatype Split = Split(part: nat, first: bool, eol: bool, bpart: Piece, parts: seq<bytes>)

  const SPLIT_START := Split(0, true, false, NoPiece, [])

  /** The parts that are finished, and the one under way. */
  function AllParts(st: Split): seq<bytes> {
    st.parts + if st.bpart.Piece? then [st.bpart.s] else []
  }

  /** One turn of the loop, for a piece that is not the final boundary. */
  function OneLine(st: Split, line: bytes, bound: bytes): Split {
    if BoundCheck(line, bound) == 1 then st.(first := true, part := (st.part + 1) % 256)
    else if st.part == 0 then st
    else if st.first then
      Split(st.part, false, HasEol(line), Piece(StripEol(line)), AllParts(st))
    else
      var text := if st.bpart.Piece? then st.bpart.s else [];
      st.(eol := HasEol(line), bpart := Piece(text + (if st.eol then CRLF else []) + StripEol(line)))
  }

  /** The end of the loop: at the final boundary, or at the end of the message. */
  datatype SplitEnd = Final(st: Split) | NoFinal

  function SplitFrom(s: bytes, p: nat, st: Split, bound: bytes): SplitEnd
    requires p <= |s|
    decreases |s| - p
  {
    if p == |s| then NoFinal
    else
      var e := PieceEnd(s, p);
      var line := s[p..e];
      if BoundCheck(line, bound) == 2 then Final(st) else SplitFrom(s, e, OneLine(st, line, bound), bound)
  }

  // ---------------------------------------------------------------- the composer

  /** The body that toMixed puts together. */
  function MixedBody(parts: seq<bytes>, bound: bytes): bytes {
    if parts == [] then DASHES + bound + DASHES + CRLF + CRLF
    else DASHES + bound + CRLF + (parts[0] + CRLF + MixedBody(parts[1..], bound))
  }

  /** Every CR is followed by an LF, and every LF preceded by a CR. */
  predicate CrlfOnly(s: bytes) {
    forall k :: 0 <= k < |s| ==> BreaksAt(s, k)
  }

  predicate BreaksAt(s: bytes, k: nat)
    requires k < |s|
  {
    && (s[k] == CR ==> k + 1 < |s| && s[k + 1] == LF)
    && (s[k] == LF ==> k > 0 && s[k - 1] == CR)
  }

  predicate Contains(s: bytes, w: bytes) {
    exists k :: 0 <= k <= |s| && At(s, k, w)
  }

  /** A part that can be told from its boundaries. */
  predicate PlainPart(part: bytes, bound: bytes) {
    CrlfOnly(part) && !Contains(part, DASHES + bound)
  }

  /** A boundary whose lines fit into the buffer. */
  predicate PlainBoundary(bound: bytes) {
    |bound| + 6 < MAX_SMLEN && forall k :: 0 <= k < |bound| ==> !EndsScan(bound[k])
  }

  /** The parts that are kept when n boundaries, counted modulo 256, came before: all but every
      256th. */
  function Kept(parts: seq<bytes>, n: nat): seq<bytes> {
    if parts == [] then []
    else
      var m := (n + 1) % 256;
      (if m == 0 then [] else [parts[0]]) + Kept(parts[1..], m)
  }

  lemma {:induction false} KeptLength(parts: seq<bytes>, n: nat)
    requires n < 256
    ensures |Kept(parts, n)| == |parts| - (n + |parts|) / 256
  {
    if parts != [] { KeptLength(parts[1..], (n + 1) % 256); }
  }

  lemma {:induction false} KeptAll(parts: seq<bytes>, n: nat)
    requires n + |parts| < 256
    ensures Kept(parts, n) == parts
  {
    if parts != [] { KeptAll(parts[1..], n + 1); }
  }

  /** No part is lost exactly when there are fewer than 256 of them. */
  lemma {:induction false} NothingLost(parts: seq<bytes>)
    ensures Kept(parts, 0) == parts <==> |parts| < 256
  {
    KeptLength(parts, 0);
    if |parts| < 256 { KeptAll(parts, 0); }
  }

  // ---------------------------------------------------------------- the pieces of a part

  /** Where the stripped piece ends. */
  function StripTo(x: bytes, k: nat, e: nat): (m: nat)
    requires k < e <= |x|
    ensures k <= m <= e
  {
    if x[e - 1] == LF then (if e - 1 == k then k else e - 2)
    else if x[e - 1] == CR then e - 1
    else e
  }

  lemma {:induction false} StripsTo(c: bytes, n: nat)
    requires n <= |c| && (forall j :: n <= j < |c| ==> c[j] in {CR, LF}) && (n > 0 ==> c[n - 1] !in {CR, LF})
    ensures StripEol(c) == c[..n] && (HasEol(c) <==> exists j :: n <= j < |c| && c[j] == LF)
    decreases |c| - n
  {
    if n < |c| {
      var init := c[..|c| - 1];
      StripsTo(init, n);
      assert init[..n] == c[..n];
      assert forall j :: 0 <= j < |init| ==> init[j] == c[j];
    } else {
      assert c[..n] == c;
    }
  }

  /** What a piece that ends at e loses of its end. */
  lemma StripPiece(x: bytes, k: nat, e: nat)
    requires CrlfOnly(x) && k < e <= |x| && forall j :: k <= j < e - 1 ==> x[j] != LF
    ensures HasEol(x[k..e]) <==> x[e - 1] == LF
    ensures StripEol(x[k..e]) == x[k..StripTo(x, k, e)]
  {
    hide StripEol, HasEol;
    var c, m := x[k..e], StripTo(x, k, e);
    LastBytes(x, k, e);
    assert forall j :: 0 <= j < |c| ==> c[j] == x[k + j];
    assert x[e - 1] == c[|c| - 1];
    StripsTo(c, m - k);
    assert c[..m - k] == x[k..m];
  }

  lemma LastBytes(x: bytes, k: nat, e: nat)
    requires CrlfOnly(x) && k < e <= |x| && forall j :: k <= j < e - 1 ==> x[j] != LF
    ensures var m := StripTo(x, k, e);
      && (forall j :: m <= j < e ==> x[j] in {CR, LF}) && (m > k ==> x[m - 1] !in {CR, LF})
      && (forall j :: m <= j < e - 1 ==> x[j] == CR) && (m == e ==> x[e - 1] != LF)
  {
    assert BreaksAt(x, e - 1);
    if e - 2 >= k { assert BreaksAt(x, e - 2); }
    if e - 3 >= k { assert BreaksAt(x, e - 3); }
  }

  /** The part of x[..k] that is written once the pieces up to k are read: a line break at the
      end is held back. */
  function Body(x: bytes, k: nat): bytes
    requires k <= |x|
  {
    if k >= 2 && x[k - 1] == LF then x[..k - 2]
    else if k >= 1 && x[k - 1] == CR then x[..k - 1]
    else x[..k]
  }

  lemma BodyGrows(x: bytes, k: nat, e: nat)
    requires CrlfOnly(x) && k < e <= |x| && forall j :: k <= j < e - 1 ==> x[j] != LF
    ensures Body(x, k) + (if k > 0 && x[k - 1] == LF then CRLF else []) + StripEol(x[k..e]) == Body(x, e)
  {
    hide StripEol, HasEol;
    StripPiece(x, k, e);
    var m := StripTo(x, k, e);
    LineFeeds(x, k);
    LineFeeds(x, e);
    if k > 0 && x[k - 1] == LF {
      Joins(x, k, m);
    } else if k > 0 && x[k - 1] == CR {
      assert e == k + 1;
      assert x[..k - 1] + [] + [] == x[..k - 1];
    } else {
      Joins(x, k, m);
    }
  }

  lemma LineFeeds(x: bytes, k: nat)
    requires CrlfOnly(x) && 0 <= k <= |x|
    ensures k > 0 && x[k - 1] == LF ==> k >= 2 && x[k - 2] == CR && x[..k - 2] + CRLF == x[..k]
    ensures k > 0 && x[k - 1] == CR ==> k < |x| && x[k] == LF
  {
    if k > 0 { assert BreaksAt(x, k - 1); }
  }

  lemma Joins(x: bytes, k: nat, m: nat)
    requires k <= m <= |x|
    ensures x[..k] + x[k..m] == x[..m] && x[..k] + [] + x[k..m] == x[..m]
  {
  }

  /** The state after the first k bytes of a part and its line break. */
  function Consumed(st: Split, x: bytes, k: nat): Split
    requires k <= |x|
  {
    if k == 0 then st
    else Split(st.part, false, x[k - 1] == LF, Piece(Body(x, k)), AllParts(st))
  }

  lemma ConsumedStep(st: Split, x: bytes, k: nat, e: nat, bound: bytes)
    requires CrlfOnly(x) && k < e <= |x| && (forall j :: k <= j < e - 1 ==> x[j] != LF)
    requires st.part != 0 && st.first && BoundCheck(x[k..e], bound) == 0
    ensures OneLine(Consumed(st, x, k), x[k..e], bound) == Consumed(st, x, e)
  {
    hide CrlfOnly, BoundCheck, StripEol, HasEol, Body;
    StripPiece(x, k, e);
    BodyGrows(x, k, e);
    if k == 0 {
      NoBody(x);
      assert [] + [] + StripEol(x[k..e]) == StripEol(x[k..e]);
    }
  }

  lemma NoBody(x: bytes)
    ensures Body(x, 0) == []
  {
  }

  /** A part and its line break hold no line that looks like a boundary. */
  lemma NoBoundary(part: bytes, k: nat, e: nat, bound: bytes)
    requires PlainPart(part, bound) && PlainBoundary(bound) && k <= e <= |part| + 2
    ensures BoundCheck((part + CRLF)[k..e], bound) == 0
  {
    hide BoundCheck, CrlfOnly;
    if BoundCheck((part + CRLF)[k..e], bound) != 0 { BoundaryIsInside(part, k, e, bound); }
  }

  lemma BoundaryIsInside(part: bytes, k: nat, e: nat, bound: bytes)
    requires PlainBoundary(bound) && k <= e <= |part| + 2
    requires BoundCheck((part + CRLF)[k..e], bound) != 0
    ensures Contains(part, DASHES + bound)
  {
    var x, w := part + CRLF, DASHES + bound;
    var line, end := x[k..e], k + |w|;
    assert line[..|w|] == line[..2] + line[2..2 + |bound|];
    assert x[k..end] == line[..|w|];
    forall j | k <= j < end ensures x[j] != CR {
      assert x[j] == w[j - k];
    }
    assert x[|part|] == CR;
    assert part[k..end] == x[k..end];
    assert At(part, k, w);
  }

  lemma PartIsCrlfOnly(part: bytes)
    requires CrlfOnly(part)
    ensures CrlfOnly(part + CRLF)
  {
    var x := part + CRLF;
    forall k | 0 <= k < |x| ensures BreaksAt(x, k) {
      if k < |part| { assert BreaksAt(part, k); }
    }
  }

  /** A piece that starts in a part or in its line break ends there too. */
  lemma PieceOfPart(s: bytes, p: nat, x: bytes, k: nat)
    requires At(s, p, x) && x != [] && x[|x| - 1] == LF && k < |x|
    ensures var e := PieceEnd(s, p + k) - p;
      k < e <= |x| && s[p + k..p + e] == x[k..e] && forall j :: k <= j < e - 1 ==> x[j] != LF
  {
    AtIndex(s, p, x);
    var e := PieceEnd(s, p + k) - p;
    assert s[p + (|x| - 1)] == LF;
    forall j | k <= j < e - 1 ensures x[j] != LF { assert s[p + j] == x[j]; }
    assert s[p + k..p + e] == x[k..e];
  }

  lemma {:induction false} SplitStep(s: bytes, p: nat, st: Split, bound: bytes)
    requires p < |s| && BoundCheck(s[p..PieceEnd(s, p)], bound) != 2
    ensures SplitFrom(s, p, st, bound)
         == SplitFrom(s, PieceEnd(s, p), OneLine(st, s[p..PieceEnd(s, p)], bound), bound)
  {
    hide BoundCheck, OneLine, PieceEnd;
  }

  /** The pieces of a part build it up; those of a part that is not counted do nothing. */
  lemma {:induction false} PartSplits(s: bytes, p: nat, part: bytes, k: nat, st: Split, bound: bytes)
    requires PlainPart(part, bound) && PlainBoundary(bound) && st.first
    requires At(s, p, part + CRLF) && k <= |part| + 2
    ensures p + |part| + 2 <= |s|
    ensures SplitFrom(s, p + k, if st.part == 0 then st else Consumed(st, part + CRLF, k), bound)
         == SplitFrom(s, p + |part| + 2, if st.part == 0 then st else Consumed(st, part + CRLF, |part| + 2), bound)
    decreases |part| + 2 - k
  {
    hide At, PlainPart, PlainBoundary, BoundCheck, PieceEnd, Consumed, SplitFrom, CrlfOnly, StripEol, HasEol;
    var x := part + CRLF;
    AtBounds(s, p, x);
    if k < |x| {
      PieceOfPart(s, p, x, k);
      var e := PieceEnd(s, p + k) - p;
      NoBoundary(part, k, e, bound);
      PlainIsCrlf(part, bound);
      PartIsCrlfOnly(part);
      if st.part != 0 { ConsumedStep(st, x, k, e, bound); }
      SplitStep(s, p + k, if st.part == 0 then st else Consumed(st, x, k), bound);
      PartSplits(s, p, part, e, st, bound);
    }
  }

  lemma PlainIsCrlf(part: bytes, bound: bytes)
    requires PlainPart(part, bound)
    ensures CrlfOnly(part)
  {
  }

  lemma WholePart(st: Split, part: bytes)
    ensures Consumed(st, part + CRLF, 0) == st
    ensures Consumed(st, part + CRLF, |part| + 2) == Split(st.part, false, true, Piece(part), AllParts(st))
  {
    var x := part + CRLF;
    assert x[|part| + 1] == LF && x[..|part|] == part;
  }

  // ---------------------------------------------------------------- boundaries

  lemma BoundaryLine(s: bytes, p: nat, bound: bytes, tail: bytes)
    requires PlainBoundary(bound) && (tail == [] || tail == DASHES) && At(s, p, DASHES + bound + tail + CRLF)
    ensures var e := p + |bound| + |tail| + 4;
      p < |s| && PieceEnd(s, p) == e && BoundCheck(s[p..e], bound) == if tail == [] then 1 else 2
  {
    var line := DASHES + bound + tail + CRLF;
    AtIndex(s, p, line);
    AtBounds(s, p, line);
    forall k | p <= k < p + |line| - 1 ensures s[k] != LF {
      assert s[p + (k - p)] == line[k - p];
    }
    assert s[p + (|line| - 1)] == LF;
    LineEndAt(s, p, |line| - 1, MAX_SMLEN - 1);
    assert s[p..p + |line|] == line;
    assert line[..2] == DASHES && line[2..2 + |bound|] == bound;
  }

  /** The state behind a boundary and its part. */
  function AfterPart(st: Split, part: bytes): Split {
    var m := (st.part + 1) % 256;
    if m == 0 then st.(first := true, part := 0) else Split(m, false, true, Piece(part), AllParts(st))
  }

  function AfterParts(st: Split, parts: seq<bytes>): Split
    decreases |parts|
  {
    if parts == [] then st else AfterParts(AfterPart(st, parts[0]), parts[1..])
  }

  lemma {:induction false} AfterPartsKeep(st: Split, parts: seq<bytes>)
    requires st.part < 256 && (st.bpart.NoPiece? ==> st.parts == [])
    ensures var x := AfterParts(st, parts);
      AllParts(x) == AllParts(st) + Kept(parts, st.part) && (x.bpart.NoPiece? ==> x.parts == [])
    decreases |parts|
  {
    hide AfterPart, AllParts;
    if parts == [] {
      assert AllParts(st) + [] == AllParts(st);
    } else {
      var lost := (st.part + 1) % 256 == 0;
      AfterPartKeeps(st, parts[0]);
      AfterPartsKeep(AfterPart(st, parts[0]), parts[1..]);
      Regrouped(AllParts(st), if lost then [] else [parts[0]], Kept(parts[1..], (st.part + 1) % 256));
    }
  }

  lemma AfterPartKeeps(st: Split, part: bytes)
    requires st.part < 256 && (st.bpart.NoPiece? ==> st.parts == [])
    ensures var x := AfterPart(st, part);
      && x.part == (st.part + 1) % 256 && (x.bpart.NoPiece? ==> x.parts == [])
      && AllParts(x) == AllParts(st) + if (st.part + 1) % 256 == 0 then [] else [part]
  {
  }

  lemma Regrouped(a: seq<bytes>, b: seq<bytes>, c: seq<bytes>)
    ensures a + (b + c) == a + b + c
  {
  }

  /** A boundary and a part take the splitter from one state to the next. */
  lemma BoundaryAndPart(s: bytes, p: nat, part: bytes, bound: bytes, st: Split)
    requires PlainPart(part, bound) && PlainBoundary(bound)
    requires At(s, p, DASHES + bound + CRLF) && At(s, p + |bound| + 4, part + CRLF)
    ensures p + |bound| + 6 + |part| <= |s|
    ensures SplitFrom(s, p, st, bound) == SplitFrom(s, p + |bound| + 6 + |part|, AfterPart(st, part), bound)
  {
    hide At, PlainPart, PlainBoundary, BoundCheck, PieceEnd, Consumed, SplitFrom;
    AtBounds(s, p, DASHES + bound + CRLF);
    assert DASHES + bound + [] + CRLF == DASHES + bound + CRLF;
    BoundaryLine(s, p, bound, []);
    SplitStep(s, p, st, bound);
    var next := st.(first := true, part := (st.part + 1) % 256);
    PartSplits(s, p + |bound| + 4, part, 0, next, bound);
    WholePart(next, part);
  }

  /** Splitting the body of the composer ends at the final boundary, with every part behind the
      other. */
  lemma {:induction false} BodySplits(s: bytes, p: nat, parts: seq<bytes>, bound: bytes, st: Split)
    requires PlainBoundary(bound) && (forall k :: 0 <= k < |parts| ==> PlainPart(parts[k], bound))
    requires At(s, p, MixedBody(parts, bound))
    ensures p <= |s| && SplitFrom(s, p, st, bound) == Final(AfterParts(st, parts))
    decreases |parts|
  {
    hide At, PlainPart, PlainBoundary, BoundCheck, PieceEnd, OneLine, AfterPart;
    if parts == [] {
      AtConcat(s, p, DASHES + bound + DASHES + CRLF, CRLF);
      BoundaryLine(s, p, bound, DASHES);
    } else {
      var rest := MixedBody(parts[1..], bound);
      AtConcat(s, p, DASHES + bound + CRLF, parts[0] + CRLF + rest);
      AtConcat(s, p + |bound| + 4, parts[0] + CRLF, rest);
      BoundaryAndPart(s, p, parts[0], bound, st);
      BodySplits(s, p + |bound| + 6 + |parts[0]|, parts[1..], bound, AfterPart(st, parts[0]));
    }
  }

  // ---------------------------------------------------------------- any body

  /** What mime_bound_check says of the pieces, up to the first final boundary. */
  function Checks(s: bytes, p: nat, bound: bytes): seq<nat>
    requires p <= |s|
    decreases |s| - p
  {
    if p == |s| then []
    else
      var e := PieceEnd(s, p);
      var c := BoundCheck(s[p..e], bound);
      if c == 2 then [2] else [c] + Checks(s, e, bound)
  }

  /** How many part boundaries there are. */
  function Boundaries(cs: seq<nat>): nat {
    if cs == [] then 0 else Boundaries(cs[..|cs| - 1]) + if cs[|cs| - 1] == 1 then 1 else 0
  }

  /** The k-th piece is no boundary, and the number of boundaries before it, on top of n, is not
      0 modulo 256: it is taken into a part. */
  predicate TakenAt(cs: seq<nat>, n: nat, k: nat)
    requires k < |cs|
  {
    cs[k] == 0 && (n + Boundaries(cs[..k])) % 256 != 0
  }

  lemma {:induction false} BoundariesOfRest(cs: seq<nat>)
    requires cs != []
    ensures Boundaries(cs) == (if cs[0] == 1 then 1 else 0) + Boundaries(cs[1..])
  {
    if |cs| > 1 {
      var init := cs[..|cs| - 1];
      BoundariesOfRest(init);
      assert init[1..] == cs[1..][..|cs| - 2];
    } else {
      assert cs[..0] == [] == cs[1..];
    }
  }

  lemma TakenBehind(c: nat, cs: seq<nat>, n: nat, k: nat)
    requires k < |cs|
    ensures TakenAt([c] + cs, n, k + 1) <==> TakenAt(cs, n + if c == 1 then 1 else 0, k)
  {
    hide Boundaries;
    var all := [c] + cs;
    BoundariesOfRest(all[..k + 1]);
    assert all[..k + 1][1..] == cs[..k];
  }

  lemma TakenFirst(c: nat, cs: seq<nat>, n: nat)
    ensures TakenAt([c] + cs, n, 0) <==> c == 0 && n % 256 != 0
  {
    assert ([c] + cs)[..0] == [];
  }

  /** The loop ends at a final boundary exactly when there is one, and then without a part exactly
      when it started without one and took no piece. */
  lemma {:induction false} NoPieceExactly(s: bytes, p: nat, st: Split, bound: bytes, n: nat)
    requires p <= |s| && st.part == n % 256
    ensures var cs := Checks(s, p, bound);
      && (SplitFrom(s, p, st, bound).Final? <==> cs != [] && cs[|cs| - 1] == 2)
      && (SplitFrom(s, p, st, bound).Final? ==>
            (SplitFrom(s, p, st, bound).st.bpart.NoPiece? <==>
               st.bpart.NoPiece? && forall k :: 0 <= k < |cs| ==> !TakenAt(cs, n, k)))
    decreases |s| - p
  {
    hide BoundCheck, OneLine, PieceEnd, TakenAt;
    if p < |s| {
      var e := PieceEnd(s, p);
      var line := s[p..e];
      var c := BoundCheck(line, bound);
      if c == 2 {
        TakenFirst(2, [], n);
        assert [2] + [] == [2];
      } else {
        var m := n + if c == 1 then 1 else 0;
        OneLineTakes(st, line, bound, n);
        NoPieceExactly(s, e, OneLine(st, line, bound), bound, m);
        var rest := Checks(s, e, bound);
        NoneTaken(c, rest, n, m);
      }
    }
  }

  lemma NoneTaken(c: nat, cs: seq<nat>, n: nat, m: nat)
    requires m == n + if c == 1 then 1 else 0
    ensures (forall k :: 0 <= k <= |cs| ==> !TakenAt([c] + cs, n, k)) <==>
      !(c == 0 && n % 256 != 0) && forall k :: 0 <= k < |cs| ==> !TakenAt(cs, m, k)
  {
    hide TakenAt;
    var all := [c] + cs;
    TakenFirst(c, cs, n);
    forall k | 0 <= k < |cs| ensures TakenAt(all, n, k + 1) <==> TakenAt(cs, m, k) { TakenBehind(c, cs, n, k); }
    if (forall k :: 0 <= k <= |cs| ==> !TakenAt(all, n, k)) {
      forall k | 0 <= k < |cs| ensures !TakenAt(cs, m, k) { assert !TakenAt(all, n, k + 1); }
    } else {
      var k :| 0 <= k <= |cs| && TakenAt(all, n, k);
      if k > 0 { assert TakenAt(cs, m, k - 1); }
    }
  }

  lemma OneLineTakes(st: Split, line: bytes, bound: bytes, n: nat)
    requires st.part == n % 256 && BoundCheck(line, bound) != 2
    ensures var c, next := BoundCheck(line, bound), OneLine(st, line, bound);
      && next.part == (n + if c == 1 then 1 else 0) % 256
      && (next.bpart.NoPiece? <==> st.bpart.NoPiece? && !(c == 0 && n % 256 != 0))
  {
    hide StripEol, HasEol;
    CheckRange(line, bound);
    hide BoundCheck;
  }

  lemma CheckRange(line: bytes, bound: bytes)
    ensures BoundCheck(line, bound) <= 2
  {
  }

  // ---------------------------------------------------------------- the splitter on its buffer

  /** strncmp(line + from, w, |w|) == 0 on the line buffer, for a w without a NUL */
  method SameBytes(line: array<byte>, from: nat, w: bytes) returns (same: bool)
    requires from + |w| <= line.Length
    ensures same <==> line[from..from + |w|] == w
  {
    var k := 0;
    while k < |w|
      invariant k <= |w| && line[from..from + k] == w[..k]
    {
      if line[from + k] != w[k] {
        assert line[from..from + |w|][k] != w[k];
        return false;
      }
      k := k + 1;
    }
    assert w[..|w|] == w;
    return true;
  }

  /** mime_bound_check */
  method MimeBoundCheck(line: array<byte>, linelen: nat, bound: bytes) returns (state: nat)
    requires linelen < line.Length && line[linelen] == NUL
    ensures state == BoundCheck(line[..linelen], bound)
  {
    var blen := |bound|;
    if blen + 2 > linelen { return 0; }
    var dashes := SameBytes(line, 0, DASHES);
    assert line[..linelen][..2] == line[0..2];
    if !dashes { return 0; }
    var same := SameBytes(line, 2, bound);
    assert line[..linelen][2..2 + blen] == line[2..2 + blen];
    if !same { return 0; }
    if line[blen + 2] == MINUS {
      if blen + 2 < linelen && line[blen + 3] == MINUS { return 2; }
    }
    return 1;
  }

  /** strip_eol: the length without the CRs and LFs at the end, and whether there was an LF. */
  method StripEolOf(linebuf: array<byte>, plen: nat) returns (isEol: bool, len: nat)
    requires plen <= linebuf.Length
    ensures len <= plen && linebuf[..len] == StripEol(linebuf[..plen]) && isEol == HasEol(linebuf[..plen])
  {
    isEol := false;
    len := plen;
    while len > 0
      invariant len <= plen && StripEol(linebuf[..len]) == StripEol(linebuf[..plen])
      invariant isEol || HasEol(linebuf[..len]) <==> HasEol(linebuf[..plen])
      decreases len
    {
      assert linebuf[..len][..len - 1] == linebuf[..len - 1];
      var c := linebuf[len - 1];
      if c == LF {
        isEol := true;
      } else if c != CR {
        return;
      }
      len := len - 1;
    }
  }

  /** The stack of BIOs as multi_split fills it. */
  function Pieces(parts: seq<bytes>): (ps: seq<Piece>)
    ensures |ps| == |parts| && forall k :: 0 <= k < |parts| ==> ps[k] == Piece(parts[k])
  {
    seq(|parts|, k requires 0 <= k < |parts| => Piece(parts[k]))
  }

  /** multi_split: 1 and the parts, the last one pushed at the final boundary, or 0. */
  method MultiSplit(bio: Bio, bound: bytes) returns (ret: nat, parts: seq<Piece>)
    requires bio.Valid()
    modifies bio
    ensures var end := SplitFrom(bio.data, old(bio.pos), SPLIT_START, bound);
      if end.NoFinal? then ret == 0 else ret == 1 && parts == Pieces(end.st.parts) + [end.st.bpart]
  {
    hide BoundCheck, StripEol, HasEol, PieceEnd, SplitFrom;
    var linebuf := new byte[MAX_SMLEN](_ => 0);
    var st := SPLIT_START;
    ghost var start := bio.pos;
    var len := bio.Gets(linebuf);
    while len > 0
      invariant bio.Valid() && 0 <= len < MAX_SMLEN && linebuf[len] == NUL && fresh(linebuf)
      invariant len <= bio.pos && (len > 0 ==> bio.pos == PieceEnd(bio.data, bio.pos - len))
      invariant linebuf[..len] == bio.data[bio.pos - len..bio.pos]
      invariant len == 0 ==> bio.pos == |bio.data|
      invariant SplitFrom(bio.data, bio.pos - len, st, bound) == SplitFrom(bio.data, start, SPLIT_START, bound)
      decreases |bio.data| - bio.pos + len
    {
      SplitUnfold(bio.data, bio.pos - len, st, bound);
      var state := MimeBoundCheck(linebuf, len, bound);
      if state == 2 { return 1, Pieces(st.parts) + [st.bpart]; }
      st := TakeLine(linebuf, len, state, st, bound);
      len := bio.Gets(linebuf);
    }
    SplitUnfold(bio.data, bio.pos, st, bound);
    return 0, [];
  }

  lemma {:induction false} SplitUnfold(s: bytes, p: nat, st: Split, bound: bytes)
    requires p <= |s|
    ensures p == |s| ==> SplitFrom(s, p, st, bound) == NoFinal
    ensures p < |s| ==>
      (var e := PieceEnd(s, p);
       var line := s[p..e];
       SplitFrom(s, p, st, bound) ==
         if BoundCheck(line, bound) == 2 then Final(st) else SplitFrom(s, e, OneLine(st, line, bound), bound))
  {
    hide BoundCheck, OneLine, PieceEnd;
  }

  /** The body of the loop for a line that is no final boundary; bpart is a BIO that is
      written to, `parts` the stack it is pushed on. */
  method TakeLine(linebuf: array<byte>, len: nat, state: nat, st: Split, ghost bound: bytes) returns (next: Split)
    requires len <= linebuf.Length && state == BoundCheck(linebuf[..len], bound) && state != 2
    ensures next == OneLine(st, linebuf[..len], bound)
  {
    hide BoundCheck, StripEol, HasEol;
    if state == 1 { return st.(first := true, part := (st.part + 1) % 256); }
    if st.part == 0 { return st; }
    var nextEol, n := StripEolOf(linebuf, len);
    if st.first {
      var pushed := if st.bpart.Piece? then st.parts + [st.bpart.s] else st.parts;
      assert st.parts + [] == st.parts;
      return Split(st.part, false, nextEol, Piece(linebuf[..n]), pushed);
    }
    var text := if st.bpart.Piece? then st.bpart.s else [];
    if st.eol { text := text + CRLF; } else { assert text + [] == text; }
    text := text + linebuf[..n];
    return st.(eol := nextEol, bpart := Piece(text));
  }

  // ---------------------------------------------------------------- boundary lines

  /** A line is a boundary when it starts with two hyphens and the boundary, and the last one when two
      more hyphens follow. */
  lemma BoundaryLines(line: bytes, bound: bytes)
    ensures BoundCheck(line, bound) > 0 <==> Ascii("--") + bound <= line
    ensures BoundCheck(line, bound) == 2 <==> Ascii("--") + bound + Ascii("--") <= line
    ensures BoundCheck(line, bound) <= 2
  {
    var w := Ascii("--") + bound;
    assert DASHES == Ascii("--");
    if |w| <= |line| {
      assert line[..|w|] == line[..2] + line[2..|w|];
      assert w[..2] == DASHES && w[2..] == bound;
      if |w| + 2 <= |line| { assert line[..|w| + 2] == line[..|w|] + [line[|w|], line[|w| + 1]]; }
    }
  }

  /** The body of a container, byte by byte. */
  lemma {:induction false} BodyTexts(parts: seq<bytes>, bound: bytes)
    ensures parts == [] ==> MixedBody(parts, bound) == Ascii("--") + bound + Ascii("--\r\n\r\n")
    ensures parts != [] ==>
      MixedBody(parts, bound)
        == Ascii("--") + bound + Ascii("\r\n") + parts[0] + Ascii("\r\n") + MixedBody(parts[1..], bound)
  {
    assert DASHES == Ascii("--") && CRLF == Ascii("\r\n");
    assert Ascii("--") + Ascii("\r\n") + Ascii("\r\n") == Ascii("--\r\n\r\n");
    hide Ascii;
    if parts == [] {
      assert DASHES + bound + DASHES + CRLF + CRLF == DASHES + bound + (DASHES + CRLF + CRLF);
    } else {
      var rest := MixedBody(parts[1..], bound);
      assert DASHES + bound + CRLF + (parts[0] + CRLF + rest) == DASHES + bound + CRLF + parts[0] + CRLF + rest;
    }
  }
}
