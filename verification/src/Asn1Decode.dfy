/** What ASN1.decode computes, as functions of the octets and a position, and what every
    accepted element looks like. */
module Asn1Decode {
  import opened Bytes
  import opened Asn1Numbers

  type TagClass = c: nat | c < 4

  datatype Tag = Tag(cls: TagClass, constructed: bool, number: nat)

  /** An element: where it starts, the length of its header, the length of its contents
      (negative for the indefinite form), its tag, and its children if it has been taken apart. */
  datatype Node = Node(pos: nat, header: nat, length: int, tag: Tag, sub: Sub)

  /** The children of an element, unless its contents are left as they are. */
  datatype Sub = Unparsed | Parsed(kids: seq<Node>)

  /** What a step gives and where the stream then stands, unless it throws. */
  datatype Outcome<T> = Done(v: T, pos: nat) | Fail

  function Abs(n: int): nat {
    if n < 0 then -n else n
  }

  function PosContent(n: Node): nat {
    n.pos + n.header
  }

  function PosEnd(n: Node): nat {
    n.pos + n.header + Abs(n.length)
  }

  predicate IsEOC(t: Tag) {
    t.cls == 0 && t.number == 0
  }

  /** A primitive BIT STRING or OCTET STRING, whose contents may be elements themselves. */
  predicate MayEncapsulate(t: Tag) {
    !t.constructed && t.cls == 0 && (t.number == 3 || t.number == 4)
  }

  // ---------------------------------------------------------------- header

  /** The loop over the octets of a long tag number. */
  function LongTag(enc: bytes, p: nat, n: nat): (r: Outcome<nat>)
    ensures r.Done? ==> p < r.pos <= |enc|
    decreases if p < |enc| then |enc| - p else 0
  {
    if p >= |enc| then Fail
    else
      var m := n * 128 + enc[p] % 128;
      if enc[p] >= 128 then LongTag(enc, p + 1, m) else Done(m, p + 1)
  }

  /** new ASN1Tag(stream) */
  function ReadTag(enc: bytes, p: nat): (r: Outcome<Tag>)
    ensures r.Done? ==> p < r.pos <= |enc|
  {
    if p >= |enc| then Fail
    else
      var buf := enc[p];
      var cls, constructed := buf / 64, (buf / 32) % 2 == 1;
      if buf % 32 == 31 then
        var n := LongTag(enc, p + 1, 0);
        if n.Fail? then Fail else Done(Tag(cls, constructed, n.v), n.pos)
      else Done(Tag(cls, constructed, buf % 32), p + 1)
  }

  /** The loop over the octets of a long length. */
  function LongLength(enc: bytes, p: nat, k: nat, n: nat): (r: Outcome<nat>)
    ensures r.Done? ==> r.pos == p + k && (k > 0 ==> r.pos <= |enc|)
    decreases k
  {
    if k == 0 then Done(n, p)
    else if p >= |enc| then Fail
    else LongLength(enc, p + 1, k - 1, n * 256 + enc[p])
  }

  const UNKNOWN := -1

  /** ASN1.decodeLength: a length of at most six octets, or UNKNOWN for the indefinite form. */
  function ReadLength(enc: bytes, p: nat): (r: Outcome<int>)
    ensures r.Done? ==> p < r.pos <= |enc| && r.v >= UNKNOWN
  {
    if p >= |enc| then Fail
    else
      var len := enc[p] % 128;
      if enc[p] < 128 then Done(len, p + 1)
      else if len > 6 then Fail
      else if len == 0 then Done(UNKNOWN, p + 1)
      else
        var n := LongLength(enc, p + 1, len, 0);
        if n.Fail? then Fail else Done(n.v, n.pos)
  }

  datatype Header = Header(tag: Tag, len: int)

  function ReadHeader(enc: bytes, p: nat): (r: Outcome<Header>)
    ensures r.Done? ==> p + 2 <= r.pos <= |enc| && r.v.len >= UNKNOWN
  {
    var t := ReadTag(enc, p);
    if t.Fail? then Fail
    else
      var len := ReadLength(enc, t.pos);
      if len.Fail? then Fail else Done(Header(t.v, len.v), len.pos)
  }

  // ---------------------------------------------------------------- elements

  function Left(enc: bytes, p: nat): nat {
    if p < |enc| then |enc| - p else 0
  }

  /** ASN1.decode */
  function Decode(enc: bytes, p: nat): (r: Outcome<Node>)
    ensures r.Done? ==> p < |enc| && p < r.pos
    decreases Left(enc, p), 0
  {
    var h := ReadHeader(enc, p);
    if h.Fail? then Fail
    else
      var start, tag, len := h.pos, h.v.tag, h.v.len;
      if tag.constructed then
        var sub := GetSub(enc, start, start, len);
        if sub.Fail? then Fail
        else Done(Node(p, start - p, FinalLength(start, sub.pos, len), tag, Parsed(sub.v)), sub.pos)
      else
        var sub := if MayEncapsulate(tag) then Attempt(enc, start, tag, len) else Fail;
        if sub.Done? then Done(Node(p, start - p, FinalLength(start, sub.pos, len), tag, Parsed(sub.v)), sub.pos)
        else if len == UNKNOWN then Fail
        else Done(Node(p, start - p, len, tag, Unparsed), start + len)
  }

  /** Indefinite lengths are represented as negative values. */
  function FinalLength(start: nat, end: nat, len: int): int {
    if len == UNKNOWN then start - end else len
  }

  /** getSub, with the stream at p and the contents at start. */
  function GetSub(enc: bytes, p: nat, start: nat, len: int): (r: Outcome<seq<Node>>)
    ensures r.Done? ==> p <= r.pos
    ensures r.Done? && len == UNKNOWN ==> p < r.pos
    decreases Left(enc, p), 2
  {
    if len == UNKNOWN then Indefinite(enc, p)
    else Definite(enc, p, start + len)
  }

  /** The loop over contents of known length, which must end exactly at `end`. */
  function Definite(enc: bytes, p: nat, end: int): (r: Outcome<seq<Node>>)
    ensures r.Done? ==> p <= r.pos == end
    decreases Left(enc, p), 1
  {
    if p < end then
      var child := Decode(enc, p);
      if child.Fail? then Fail
      else
        var rest := Definite(enc, child.pos, end);
        if rest.Fail? then Fail else Done([child.v] + rest.v, rest.pos)
    else if p != end then Fail
    else Done([], p)
  }

  /** The loop over contents that end with an end-of-contents element. */
  function Indefinite(enc: bytes, p: nat): (r: Outcome<seq<Node>>)
    ensures r.Done? ==> p < r.pos
    decreases Left(enc, p), 1
  {
    var child := Decode(enc, p);
    if child.Fail? then Fail
    else if IsEOC(child.v.tag) then Done([], child.pos)
    else
      var rest := Indefinite(enc, child.pos);
      if rest.Fail? then Fail else Done([child.v] + rest.v, rest.pos)
  }

  predicate NoEOC(nodes: seq<Node>) {
    forall k :: 0 <= k < |nodes| ==> !IsEOC(nodes[k].tag)
  }

  /** The attempt to read the contents of a BIT STRING or OCTET STRING as elements. */
  function Attempt(enc: bytes, start: nat, tag: Tag, len: int): (r: Outcome<seq<Node>>)
    ensures r.Done? ==> start <= r.pos && (len == UNKNOWN ==> start < r.pos)
    decreases Left(enc, start), 3
  {
    var p := if tag.number == 3 then start + 1 else start;
    if tag.number == 3 && (start >= |enc| || enc[start] != 0) then Fail
    else
      var sub := GetSub(enc, p, start, len);
      if sub.Done? && !NoEOC(sub.v) then Fail else sub
  }

  // ---------------------------------------------------------------- what is accepted

  /** The elements follow each other from `from` on. */
  predicate Contiguous(kids: seq<Node>, from: nat) {
    kids == [] || (kids[0].pos == from && Contiguous(kids[1..], PosEnd(kids[0])))
  }

  function EndOf(kids: seq<Node>, from: nat): nat {
    if kids == [] then from else EndOf(kids[1..], PosEnd(kids[0]))
  }

  /** Where the first child starts: behind the unused-bits octet of a BIT STRING. */
  function FirstChild(n: Node): nat {
    if !n.tag.constructed && n.tag.number == 3 then PosContent(n) + 1 else PosContent(n)
  }

  /** The single end-of-contents element at p..end. */
  predicate EndsWithEOC(enc: bytes, p: nat, end: nat) {
    var e := Decode(enc, p);
    e.Done? && IsEOC(e.v.tag) && e.pos == end
  }

  /** The element's header stands in the stream; children are contiguous and fill a definite
      container exactly, or are followed by one end-of-contents element in an indefinite one;
      an element that was not taken apart is primitive and of known length. */
  ghost predicate Shaped(enc: bytes, n: Node)
    decreases n
  {
    && ReadHeader(enc, n.pos) == Done(Header(n.tag, if n.length < 0 then UNKNOWN else n.length), PosContent(n))
    && (n.sub.Unparsed? ==> !n.tag.constructed && n.length >= 0)
    && (n.sub.Parsed? ==>
          && (n.tag.constructed || (MayEncapsulate(n.tag) && NoEOC(n.sub.kids)))
          && (!n.tag.constructed && n.tag.number == 3 ==> ByteAt(enc, PosContent(n)) == 0)
          && Contiguous(n.sub.kids, FirstChild(n))
          && (n.length >= 0 ==> EndOf(n.sub.kids, FirstChild(n)) == PosEnd(n))
          && (n.length < 0 ==>
                NoEOC(n.sub.kids) && EndsWithEOC(enc, EndOf(n.sub.kids, FirstChild(n)), PosEnd(n)))
          && forall k :: 0 <= k < |n.sub.kids| ==> Shaped(enc, n.sub.kids[k]))
  }

  ghost predicate AllShaped(enc: bytes, kids: seq<Node>) {
    forall k :: 0 <= k < |kids| ==> Shaped(enc, kids[k])
  }

  lemma {:induction false} AllShapedCons(enc: bytes, n: Node, rest: seq<Node>, from: nat)
    requires Shaped(enc, n) && AllShaped(enc, rest) && n.pos == from && Contiguous(rest, PosEnd(n))
    ensures AllShaped(enc, [n] + rest) && Contiguous([n] + rest, from)
    ensures EndOf([n] + rest, from) == EndOf(rest, PosEnd(n))
    ensures NoEOC(rest) && !IsEOC(n.tag) ==> NoEOC([n] + rest)
  {
    hide Shaped;
    assert ([n] + rest)[1..] == rest;
  }

  /** Every accepted element is shaped like that, at every depth, and the stream stands
      behind it. */
  lemma {:induction false} DecodeIsShaped(enc: bytes, p: nat)
    requires Decode(enc, p).Done?
    ensures var r := Decode(enc, p); r.v.pos == p && r.pos == PosEnd(r.v) && Shaped(enc, r.v)
    decreases Left(enc, p), 0
  {
    hide ReadHeader, Definite, Indefinite, EndsWithEOC, NoEOC, Contiguous, EndOf;
    var h := ReadHeader(enc, p);
    var start, tag, len := h.pos, h.v.tag, h.v.len;
    if tag.constructed {
      SubIsShaped(enc, start, start, len);
    } else if MayEncapsulate(tag) && Attempt(enc, start, tag, len).Done? {
      SubIsShaped(enc, if tag.number == 3 then start + 1 else start, start, len);
    }
  }

  lemma {:induction false} SubIsShaped(enc: bytes, p: nat, start: nat, len: int)
    requires GetSub(enc, p, start, len).Done? && len >= UNKNOWN
    ensures var r := GetSub(enc, p, start, len);
      && Contiguous(r.v, p) && AllShaped(enc, r.v)
      && (len != UNKNOWN ==> EndOf(r.v, p) == r.pos == start + len)
      && (len == UNKNOWN ==> NoEOC(r.v) && EndsWithEOC(enc, EndOf(r.v, p), r.pos))
    decreases Left(enc, p), 2
  {
    hide Shaped, AllShaped, Definite, Indefinite, EndsWithEOC, NoEOC, Contiguous, EndOf;
    if len == UNKNOWN { IndefiniteIsShaped(enc, p); } else { DefiniteIsShaped(enc, p, start + len); }
  }

  lemma {:induction false} DefiniteIsShaped(enc: bytes, p: nat, end: int)
    requires Definite(enc, p, end).Done?
    ensures var r := Definite(enc, p, end);
      Contiguous(r.v, p) && AllShaped(enc, r.v) && EndOf(r.v, p) == r.pos == end
    decreases Left(enc, p), 1
  {
    hide Shaped, Decode;
    if p < end {
      var child := Decode(enc, p);
      DecodeIsShaped(enc, p);
      DefiniteIsShaped(enc, child.pos, end);
      AllShapedCons(enc, child.v, Definite(enc, child.pos, end).v, p);
    }
  }

  lemma {:induction false} IndefiniteIsShaped(enc: bytes, p: nat)
    requires Indefinite(enc, p).Done?
    ensures var r := Indefinite(enc, p);
      && Contiguous(r.v, p) && AllShaped(enc, r.v) && NoEOC(r.v)
      && EndsWithEOC(enc, EndOf(r.v, p), r.pos)
    decreases Left(enc, p), 1
  {
    hide Shaped, Decode;
    var child := Decode(enc, p);
    if !IsEOC(child.v.tag) {
      DecodeIsShaped(enc, p);
      IndefiniteIsShaped(enc, child.pos);
      AllShapedCons(enc, child.v, Indefinite(enc, child.pos).v, p);
    }
  }

  lemma {:induction false} EndOfGrows(kids: seq<Node>, from: nat)
    requires Contiguous(kids, from)
    ensures from <= EndOf(kids, from)
    ensures forall k :: 0 <= k < |kids| ==> from <= kids[k].pos && PosEnd(kids[k]) <= EndOf(kids, from)
    ensures forall j, k :: 0 <= j < k < |kids| ==> PosEnd(kids[j]) <= kids[k].pos
  {
    if kids != [] {
      EndOfGrows(kids[1..], PosEnd(kids[0]));
      forall k | 0 < k < |kids| ensures kids[k] == kids[1..][k - 1] {}
    }
  }

  /** Children lie inside the contents of their parent, one behind the other. */
  lemma {:induction false} ChildrenAreInside(enc: bytes, n: Node)
    requires Shaped(enc, n) && n.sub.Parsed?
    ensures forall k :: 0 <= k < |n.sub.kids| ==>
      PosContent(n) <= n.sub.kids[k].pos && PosEnd(n.sub.kids[k]) <= PosEnd(n)
    ensures forall j, k :: 0 <= j < k < |n.sub.kids| ==> PosEnd(n.sub.kids[j]) <= n.sub.kids[k].pos
  {
    hide ReadHeader, Decode, Shaped;
    ShapeOf(enc, n);
    EndOfGrows(n.sub.kids, FirstChild(n));
  }

  lemma {:induction false} ShapeOf(enc: bytes, n: Node)
    requires Shaped(enc, n) && n.sub.Parsed?
    ensures Contiguous(n.sub.kids, FirstChild(n)) && EndOf(n.sub.kids, FirstChild(n)) <= PosEnd(n)
  {
    hide ReadHeader, Decode, Contiguous, EndOf;
    if n.length < 0 { EOCIsBehind(enc, EndOf(n.sub.kids, FirstChild(n)), PosEnd(n)); }
  }

  lemma EOCIsBehind(enc: bytes, p: nat, end: nat)
    requires EndsWithEOC(enc, p, end)
    ensures p < end
  {
    hide Decode;
  }

  /** The element and all that is in it lie in the stream. */
  ghost predicate Inside(enc: bytes, n: Node)
    decreases n
  {
    PosEnd(n) <= |enc| && (n.sub.Parsed? ==> forall k :: 0 <= k < |n.sub.kids| ==> Inside(enc, n.sub.kids[k]))
  }

  /** The outermost end decides. */
  lemma {:induction false} InsideByEnd(enc: bytes, n: Node)
    requires Shaped(enc, n)
    ensures Inside(enc, n) <==> PosEnd(n) <= |enc|
    decreases n
  {
    if n.sub.Parsed? {
      ChildrenAreInside(enc, n);
      ChildrenAreShaped(enc, n);
      hide Shaped;
      forall k | 0 <= k < |n.sub.kids| ensures Inside(enc, n.sub.kids[k]) <==> PosEnd(n.sub.kids[k]) <= |enc| {
        InsideByEnd(enc, n.sub.kids[k]);
      }
    }
  }

  lemma {:induction false} ChildrenAreShaped(enc: bytes, n: Node)
    requires Shaped(enc, n) && n.sub.Parsed?
    ensures AllShaped(enc, n.sub.kids)
  {
    hide ReadHeader, Contiguous, EndOf, EndsWithEOC, NoEOC;
  }

  /** Skipping does not look at the stream, so an element whose end lies behind the stream can be
      accepted. One of known length lies in the stream exactly when the length it declares does
      not reach behind it; one of indefinite length, exactly when the element that ends its
      contents does. */
  lemma {:induction false} InsideExactly(enc: bytes, p: nat)
    requires Decode(enc, p).Done?
    ensures var n, h := Decode(enc, p).v, ReadHeader(enc, p);
      && h.Done? && Shaped(enc, n)
      && (h.v.len != UNKNOWN ==> (Inside(enc, n) <==> h.pos + h.v.len <= |enc|))
      && (h.v.len == UNKNOWN ==>
            && n.sub.Parsed?
            && var closer := Decode(enc, EndOf(n.sub.kids, FirstChild(n)));
               closer.Done? && IsEOC(closer.v.tag) && (Inside(enc, n) <==> Inside(enc, closer.v)))
  {
    hide Shaped, Decode, Inside, EndOf, Contiguous;
    DecodeIsShaped(enc, p);
    var n := Decode(enc, p).v;
    InsideByEnd(enc, n);
    HeaderOfShaped(enc, n);
    if n.length < 0 {
      var q := EndOf(n.sub.kids, FirstChild(n));
      DecodeIsShaped(enc, q);
      InsideByEnd(enc, Decode(enc, q).v);
    }
  }

  lemma {:induction false} HeaderOfShaped(enc: bytes, n: Node)
    requires Shaped(enc, n)
    ensures ReadHeader(enc, n.pos) == Done(Header(n.tag, if n.length < 0 then UNKNOWN else n.length), PosContent(n))
    ensures n.length < 0 ==> n.sub.Parsed? && EndsWithEOC(enc, EndOf(n.sub.kids, FirstChild(n)), PosEnd(n))
  {
    hide ReadHeader, Contiguous, EndOf, EndsWithEOC, NoEOC;
  }

  /** Only the tag of the closing element is looked at. X.690 section 8.1.5 wants two zero octets;
      the closing element has two octets exactly when they are these, or 32 and 0. */
  lemma {:induction false} TwoOctetCloser(enc: bytes, p: nat)
    requires Decode(enc, p).Done? && IsEOC(Decode(enc, p).v.tag)
    ensures Decode(enc, p).pos == p + 2 <==> p + 1 < |enc| && enc[p] in {0, 32} && enc[p + 1] == 0
  {
    hide Decode, LongTag, LongLength, Contiguous, EndOf, EndsWithEOC, NoEOC;
    DecodeIsShaped(enc, p);
    HeaderOfShaped(enc, Decode(enc, p).v);
    hide Shaped;
    EmptyHeader(enc, p, Decode(enc, p).v.tag);
    if Decode(enc, p).v.length < 0 {
      EOCIsBehindContents(enc, Decode(enc, p).v);
    }
  }

  lemma {:induction false} EOCIsBehindContents(enc: bytes, n: Node)
    requires Shaped(enc, n) && n.length < 0
    ensures PosContent(n) < PosEnd(n)
  {
  }

  /** A header of two octets for an end-of-contents tag and no contents. */
  lemma EmptyHeader(enc: bytes, p: nat, tag: Tag)
    requires IsEOC(tag)
    ensures ReadHeader(enc, p) == Done(Header(tag, 0), p + 2) ==> p + 1 < |enc| && enc[p] in {0, 32} && enc[p + 1] == 0
    ensures p + 1 < |enc| && enc[p] in {0, 32} && enc[p + 1] == 0 ==>
      ReadHeader(enc, p) == Done(Header(Tag(0, enc[p] == 32, 0), 0), p + 2)
  {
    hide LongTag, LongLength;
  }

  /** A primitive element that is cut off, and an element of indefinite length whose closing element
      declares five octets that are not there. */
  lemma {:induction false} CutOffIsAccepted()
    ensures var enc: bytes := [2, 5];
      Decode(enc, 0) == Done(Node(0, 2, 5, Tag(0, false, 2), Unparsed), 7) && !Inside(enc, Decode(enc, 0).v)
    ensures var enc: bytes := [48, 128, 0, 5];
      Decode(enc, 0) == Done(Node(0, 2, -7, Tag(0, true, 16), Parsed([])), 9) && !Inside(enc, Decode(enc, 0).v)
  {
    hide Decode, Indefinite;
    var enc: bytes := [2, 5];
    assert ReadTag(enc, 0) == Done(Tag(0, false, 2), 1);
    assert ReadLength(enc, 1) == Done(5, 2);
    DecodeStep(enc, 0, 2, Tag(0, false, 2), 5);
    enc := [48, 128, 0, 5];
    assert ReadTag(enc, 0) == Done(Tag(0, true, 16), 1);
    assert ReadLength(enc, 1) == Done(UNKNOWN, 2);
    assert ReadTag(enc, 2) == Done(Tag(0, false, 0), 3);
    assert ReadLength(enc, 3) == Done(5, 4);
    DecodeStep(enc, 2, 4, Tag(0, false, 0), 5);
    IndefiniteStep(enc, 2);
    DecodeStep(enc, 0, 2, Tag(0, true, 16), UNKNOWN);
  }

  // ---------------------------------------------------------------- the encoder of X.690 section 8.1

  /** A value to encode. lengthOctets chooses the form of the length: 0 for the short form, and
      otherwise the number of octets of the long form. Wrapped is a primitive BIT STRING or
      OCTET STRING with elements as its contents. */
  datatype Tree =
    | Leaf(cls: TagClass, number: nat, content: bytes, lengthOctets: nat)
    | Branch(cls: TagClass, number: nat, kids: seq<Tree>, lengthOctets: nat)
    | OpenBranch(cls: TagClass, number: nat, kids: seq<Tree>)
    | Wrapped(bits: bool, kids: seq<Tree>, lengthOctets: nat)

  function TagOf(t: Tree): Tag {
    match t
    case Leaf(cls, number, _, _) => Tag(cls, false, number)
    case Branch(cls, number, _, _) => Tag(cls, true, number)
    case OpenBranch(cls, number, _) => Tag(cls, true, number)
    case Wrapped(bits, _, _) => Tag(0, false, if bits then 3 else 4)
  }

  /** Identifier octets (section 8.1.2). */
  function Identifier(t: Tag): bytes {
    var lead := t.cls * 64 + if t.constructed then 32 else 0;
    if t.number < 31 then [lead + t.number] else [lead + 31] + Base128(t.number)
  }

  function BigEndian(n: nat, k: nat): (s: bytes)
    ensures |s| == k
  {
    if k == 0 then [] else BigEndian(n / 256, k - 1) + [n % 256]
  }

  /** The length can be written with that choice, and the decoder reads at most six octets. */
  predicate FitsLength(n: nat, k: nat) {
    if k == 0 then n < 128 else k <= 6 && n < Pow256(k)
  }

  /** Length octets (section 8.1.3) of a length that fits. */
  function LengthOctets(n: nat, k: nat): bytes {
    if k == 0 then [n % 128] else [128 + k % 128] + BigEndian(n, k)
  }

  /** The contents, with the end-of-contents octets of the indefinite form. */
  function Contents(t: Tree): bytes
    decreases t, 0
  {
    match t
    case Leaf(_, _, content, _) => content
    case Branch(_, _, kids, _) => EncodeAll(kids)
    case OpenBranch(_, _, kids) => EncodeAll(kids) + [0, 0]
    case Wrapped(bits, kids, _) => (if bits then [0] else []) + EncodeAll(kids)
  }

  /** Identifier and length octets. */
  function HeaderOctets(t: Tree): bytes
    decreases t, 1
  {
    Identifier(TagOf(t)) + if t.OpenBranch? then [128] else LengthOctets(|Contents(t)|, t.lengthOctets)
  }

  function Encode(t: Tree): bytes
    decreases t, 2
  {
    HeaderOctets(t) + Contents(t)
  }

  function EncodeAll(kids: seq<Tree>): bytes
    decreases kids
  {
    if kids == [] then [] else Encode(kids[0]) + EncodeAll(kids[1..])
  }

  predicate NoneEOC(kids: seq<Tree>) {
    forall k :: 0 <= k < |kids| ==> !IsEOC(TagOf(kids[k]))
  }

  /** Trees with lengths that fit and without an end-of-contents element where it would end the
      contents or forbid them. */
  predicate Encodable(t: Tree)
    decreases t
  {
    && (!t.OpenBranch? ==> FitsLength(|Contents(t)|, t.lengthOctets))
    && (t.OpenBranch? || t.Wrapped? ==> NoneEOC(t.kids))
    && (!t.Leaf? ==> AllEncodable(t.kids))
  }

  predicate AllEncodable(kids: seq<Tree>)
    decreases kids
  {
    kids == [] || (Encodable(kids[0]) && AllEncodable(kids[1..]))
  }

  /** The element that stands for t at p: the same tag, the length of its contents, and the
      elements of its children. The contents of a BIT STRING or OCTET STRING leaf are what the
      attempt to take them apart makes of them. */
  function NodeOf(enc: bytes, t: Tree, p: nat): Node
    decreases t, 1
  {
    var header := |HeaderOctets(t)|;
    Node(p, header, if t.OpenBranch? then -|Contents(t)| else |Contents(t)|, TagOf(t),
         if t.Leaf? then LeafSub(enc, p + header, TagOf(t), |Contents(t)|)
         else Parsed(NodesOf(enc, t.kids, p + header + if t.Wrapped? && t.bits then 1 else 0)))
  }

  function LeafSub(enc: bytes, start: nat, tag: Tag, len: nat): Sub {
    var sub := if MayEncapsulate(tag) then Attempt(enc, start, tag, len) else Fail;
    if sub.Done? then Parsed(sub.v) else Unparsed
  }

  function NodesOf(enc: bytes, kids: seq<Tree>, p: nat): seq<Node>
    decreases kids
  {
    if kids == [] then [] else [NodeOf(enc, kids[0], p)] + NodesOf(enc, kids[1..], p + |Encode(kids[0])|)
  }

  // ---------------------------------------------------------------- the decoder undoes the encoder

  lemma {:induction false} ContinuedTag(enc: bytes, p: nat, n: nat)
    requires At(enc, p, Continued(n))
    ensures LongTag(enc, p, 0) == LongTag(enc, p + |Continued(n)|, n)
    decreases n
  {
    hide At, LongTag;
    var head, last := if n < 128 then [] else Continued(n / 128), 128 + n % 128;
    assert Continued(n) == head + [last];
    AtConcat(enc, p, head, [last]);
    OctetAt(enc, p + |head|, last);
    if n >= 128 { ContinuedTag(enc, p, n / 128); }
    LongTagStep(enc, p + |head|, if n < 128 then 0 else n / 128);
  }

  lemma OctetAt(enc: bytes, p: nat, b: byte)
    requires At(enc, p, [b])
    ensures p < |enc| && enc[p] == b
  {
    assert enc[p..p + 1][0] == enc[p];
  }

  lemma LongTagStep(enc: bytes, p: nat, n: nat)
    requires p < |enc|
    ensures var m := n * 128 + enc[p] % 128;
      LongTag(enc, p, n) == if enc[p] >= 128 then LongTag(enc, p + 1, m) else Done(m, p + 1)
  {
  }

  lemma {:induction false} Base128Tag(enc: bytes, p: nat, n: nat)
    requires At(enc, p, Base128(n))
    ensures LongTag(enc, p, 0) == Done(n, p + |Base128(n)|)
  {
    hide At, LongTag, Continued;
    var head, last := if n < 128 then [] else Continued(n / 128), n % 128;
    assert Base128(n) == head + [last];
    AtConcat(enc, p, head, [last]);
    OctetAt(enc, p + |head|, last);
    if n >= 128 { ContinuedTag(enc, p, n / 128); }
    LongTagStep(enc, p + |head|, if n < 128 then 0 else n / 128);
  }

  lemma LeadOctet(t: Tag, low: nat)
    requires low < 32
    ensures var lead: nat := t.cls * 64 + (if t.constructed then 32 else 0) + low;
      lead < 256 && lead / 64 == t.cls && ((lead / 32) % 2 == 1 <==> t.constructed) && lead % 32 == low
  {
  }

  lemma IdentifierReads(enc: bytes, p: nat, t: Tag)
    requires At(enc, p, Identifier(t))
    ensures ReadTag(enc, p) == Done(t, p + |Identifier(t)|)
  {
    hide At, LongTag, Base128;
    var low := if t.number < 31 then t.number else 31;
    var lead: bytes := [t.cls * 64 + (if t.constructed then 32 else 0) + low];
    var tail := if t.number < 31 then [] else Base128(t.number);
    assert Identifier(t) == lead + tail;
    AtConcat(enc, p, lead, tail);
    AtIndex(enc, p, lead);
    AtBounds(enc, p, lead);
    LeadOctet(t, low);
    assert enc[p] == lead[0];
    if t.number >= 31 { Base128Tag(enc, p + 1, t.number); }
  }

  lemma {:induction false} BigEndianReads(enc: bytes, p: nat, n: nat, k: nat, rest: nat, high: nat)
    requires At(enc, p, BigEndian(n, k)) && n < Pow256(k)
    ensures LongLength(enc, p, k + rest, high) == LongLength(enc, p + k, rest, high * Pow256(k) + n)
    decreases k
  {
    hide At, LongLength;
    if k > 0 {
      var last: byte := n % 256;
      AtConcat(enc, p, BigEndian(n / 256, k - 1), [last]);
      OctetAt(enc, p + k - 1, last);
      BigEndianReads(enc, p, n / 256, k - 1, rest + 1, high);
      LongLengthStep(enc, p + k - 1, rest + 1, high * Pow256(k - 1) + n / 256);
      Shifted(high, Pow256(k - 1), n);
    }
  }

  lemma LongLengthStep(enc: bytes, p: nat, k: nat, n: nat)
    requires p < |enc| && k > 0
    ensures LongLength(enc, p, k, n) == LongLength(enc, p + 1, k - 1, n * 256 + enc[p])
  {
  }

  lemma Shifted(high: nat, p: nat, n: nat)
    ensures (high * p + n / 256) * 256 + n % 256 == high * (256 * p) + n
  {
  }

  lemma LengthReads(enc: bytes, p: nat, n: nat, k: nat)
    requires FitsLength(n, k) && At(enc, p, LengthOctets(n, k))
    ensures ReadLength(enc, p) == Done(n, p + |LengthOctets(n, k)|)
  {
    hide At, LongLength, BigEndian, Pow256;
    AtIndex(enc, p, LengthOctets(n, k));
    AtBounds(enc, p, LengthOctets(n, k));
    assert enc[p] == LengthOctets(n, k)[0];
    if k > 0 {
      AtConcat(enc, p, [128 + k % 128], BigEndian(n, k));
      BigEndianReads(enc, p + 1, n, k, 0, 0);
      LongLengthEnds(enc, p + 1 + k, n);
    }
  }

  lemma {:induction false} LongLengthEnds(enc: bytes, p: nat, n: nat)
    ensures LongLength(enc, p, 0, n) == Done(n, p)
  {
  }

  lemma {:induction false} HeaderReads(enc: bytes, p: nat, t: Tree)
    requires Encodable(t) && At(enc, p, Encode(t))
    ensures var start := p + |HeaderOctets(t)|;
      && ReadHeader(enc, p) == Done(Header(TagOf(t), if t.OpenBranch? then UNKNOWN else |Contents(t)|), start)
      && At(enc, start, Contents(t))
  {
    hide At, Identifier, LengthOctets, ReadTag, ReadLength, Contents, NoneEOC, AllEncodable;
    var id := Identifier(TagOf(t));
    AtConcat(enc, p, HeaderOctets(t), Contents(t));
    IdentifierThenLength(enc, p, t);
    IdentifierReads(enc, p, TagOf(t));
    if t.OpenBranch? {
      UnknownReads(enc, p + |id|);
    } else {
      LengthReads(enc, p + |id|, |Contents(t)|, t.lengthOctets);
    }
  }

  lemma {:induction false} IdentifierThenLength(enc: bytes, p: nat, t: Tree)
    requires At(enc, p, HeaderOctets(t))
    ensures var id := Identifier(TagOf(t));
      && At(enc, p, id)
      && At(enc, p + |id|, if t.OpenBranch? then [128] else LengthOctets(|Contents(t)|, t.lengthOctets))
  {
    hide At, Identifier, LengthOctets, Contents;
    AtConcat(enc, p, Identifier(TagOf(t)), if t.OpenBranch? then [128] else LengthOctets(|Contents(t)|, t.lengthOctets));
  }

  lemma UnknownReads(enc: bytes, p: nat)
    requires At(enc, p, [128])
    ensures ReadLength(enc, p) == Done(UNKNOWN, p + 1)
  {
    AtIndex(enc, p, [128]);
  }

  /** decode by the parts of the header. */
  lemma {:induction false} DecodeStep(enc: bytes, p: nat, start: nat, tag: Tag, len: int)
    requires ReadHeader(enc, p) == Done(Header(tag, len), start)
    ensures var sub := if tag.constructed then GetSub(enc, start, start, len)
                       else if MayEncapsulate(tag) then Attempt(enc, start, tag, len) else Fail;
      Decode(enc, p) ==
        if sub.Done? then Done(Node(p, start - p, FinalLength(start, sub.pos, len), tag, Parsed(sub.v)), sub.pos)
        else if tag.constructed || len == UNKNOWN then Fail
        else Done(Node(p, start - p, len, tag, Unparsed), start + len)
  {
    hide ReadHeader, GetSub, Attempt;
  }

  /** Decoding an encoded tree, wherever it stands, gives the element that stands for it. */
  lemma {:induction false} DecodeEncoded(enc: bytes, p: nat, t: Tree)
    requires Encodable(t) && At(enc, p, Encode(t))
    ensures Decode(enc, p) == Done(NodeOf(enc, t, p), p + |Encode(t)|)
    ensures PosEnd(NodeOf(enc, t, p)) == p + |Encode(t)|
    ensures At(enc, PosContent(NodeOf(enc, t, p)), Contents(t))
    decreases t, 1
  {
    hide Decode, ReadHeader, GetSub, Attempt, At, HeaderOctets, Contents, NodesOf, AllEncodable, NoneEOC, FitsLength;
    var start := p + |HeaderOctets(t)|;
    var len := if t.OpenBranch? then UNKNOWN else |Contents(t)|;
    HeaderReads(enc, p, t);
    DecodeStep(enc, p, start, TagOf(t), len);
    if t.Branch? {
      BranchDecodes(enc, start, t);
    } else if t.OpenBranch? {
      OpenBranchDecodes(enc, start, t);
    } else if t.Wrapped? {
      WrappedDecodes(enc, start, t);
    } else {
      AttemptEnds(enc, start, TagOf(t), |Contents(t)|);
    }
  }

  /** An attempt on contents of known length ends where they do. */
  lemma {:induction false} AttemptEnds(enc: bytes, start: nat, tag: Tag, len: nat)
    ensures Attempt(enc, start, tag, len).Done? ==> Attempt(enc, start, tag, len).pos == start + len
  {
    hide Definite, NoEOC;
  }

  lemma {:induction false} BranchDecodes(enc: bytes, start: nat, t: Tree)
    requires t.Branch? && AllEncodable(t.kids) && At(enc, start, Contents(t))
    ensures GetSub(enc, start, start, |Contents(t)|) == Done(NodesOf(enc, t.kids, start), start + |Contents(t)|)
    decreases t, 0
  {
    hide Definite, At, EncodeAll, NodesOf, AllEncodable;
    DefiniteEncoded(enc, start, t.kids);
  }

  lemma {:induction false} OpenBranchDecodes(enc: bytes, start: nat, t: Tree)
    requires t.OpenBranch? && AllEncodable(t.kids) && NoneEOC(t.kids) && At(enc, start, Contents(t))
    ensures GetSub(enc, start, start, UNKNOWN) == Done(NodesOf(enc, t.kids, start), start + |Contents(t)|)
    ensures |Contents(t)| > 0
    decreases t, 0
  {
    hide Indefinite, At, EncodeAll, NodesOf, AllEncodable, NoneEOC;
    AtConcat(enc, start, EncodeAll(t.kids), [0, 0]);
    IndefiniteEncoded(enc, start, t.kids);
  }

  lemma {:induction false} WrappedDecodes(enc: bytes, start: nat, t: Tree)
    requires t.Wrapped? && AllEncodable(t.kids) && NoneEOC(t.kids) && At(enc, start, Contents(t))
    ensures var from := start + if t.bits then 1 else 0;
      Attempt(enc, start, TagOf(t), |Contents(t)|) == Done(NodesOf(enc, t.kids, from), start + |Contents(t)|)
    decreases t, 0
  {
    hide Definite, At, EncodeAll, NodesOf, AllEncodable, NoneEOC, NoEOC;
    var lead: bytes := if t.bits then [0] else [];
    AtConcat(enc, start, lead, EncodeAll(t.kids));
    AtIndex(enc, start, lead);
    AtBounds(enc, start, lead);
    DefiniteEncoded(enc, start + |lead|, t.kids);
    NodesHaveNoEOC(enc, t.kids, start + |lead|);
    if t.bits { assert enc[start] == lead[0]; }
  }

  lemma {:induction false} NodesHaveNoEOC(enc: bytes, kids: seq<Tree>, p: nat)
    requires NoneEOC(kids)
    ensures NoEOC(NodesOf(enc, kids, p))
    decreases kids
  {
    hide Encode, HeaderOctets, Contents;
    if kids != [] {
      NodesHaveNoEOC(enc, kids[1..], p + |Encode(kids[0])|);
      NodeHasTag(enc, kids[0], p);
    }
  }

  lemma {:induction false} NodeHasTag(enc: bytes, t: Tree, p: nat)
    ensures NodeOf(enc, t, p).tag == TagOf(t) && |Encode(t)| >= 2
  {
    hide NodesOf, Contents, LengthOctets, Base128;
    HasTwoOctets(t);
  }

  lemma {:induction false} HasTwoOctets(t: Tree)
    ensures |HeaderOctets(t)| >= 2
  {
    hide Contents, Base128, BigEndian;
  }

  lemma {:induction false} DefiniteEncoded(enc: bytes, p: nat, kids: seq<Tree>)
    requires AllEncodable(kids) && At(enc, p, EncodeAll(kids))
    ensures Definite(enc, p, p + |EncodeAll(kids)|) == Done(NodesOf(enc, kids, p), p + |EncodeAll(kids)|)
    decreases kids
  {
    hide Decode, At, Encode, NodeOf, Encodable, Definite;
    DefiniteStep(enc, p, p + |EncodeAll(kids)|);
    if kids != [] {
      AtConcat(enc, p, Encode(kids[0]), EncodeAll(kids[1..]));
      DecodeEncoded(enc, p, kids[0]);
      NodeHasTag(enc, kids[0], p);
      DefiniteEncoded(enc, p + |Encode(kids[0])|, kids[1..]);
    }
  }

  lemma {:induction false} DefiniteStep(enc: bytes, p: nat, end: int)
    ensures p == end ==> Definite(enc, p, end) == Done([], p)
    ensures p < end && Decode(enc, p).Done? ==>
      (var rest := Definite(enc, Decode(enc, p).pos, end);
       Definite(enc, p, end) == if rest.Fail? then Fail else Done([Decode(enc, p).v] + rest.v, rest.pos))
  {
    hide Decode;
  }

  lemma {:induction false} IndefiniteStep(enc: bytes, p: nat)
    requires Decode(enc, p).Done?
    ensures var child := Decode(enc, p);
      var rest := Indefinite(enc, child.pos);
      Indefinite(enc, p) ==
        if IsEOC(child.v.tag) then Done([], child.pos)
        else if rest.Fail? then Fail else Done([child.v] + rest.v, rest.pos)
  {
    hide Decode;
  }

  lemma {:induction false} IndefiniteEncoded(enc: bytes, p: nat, kids: seq<Tree>)
    requires AllEncodable(kids) && NoneEOC(kids)
    requires At(enc, p, EncodeAll(kids)) && At(enc, p + |EncodeAll(kids)|, [0, 0])
    ensures Indefinite(enc, p) == Done(NodesOf(enc, kids, p), p + |EncodeAll(kids)| + 2)
    decreases kids
  {
    hide Decode, At, Encode, NodeOf, Encodable, Indefinite;
    if kids == [] {
      EOCDecodes(enc, p);
      IndefiniteStep(enc, p);
    } else {
      AtConcat(enc, p, Encode(kids[0]), EncodeAll(kids[1..]));
      DecodeEncoded(enc, p, kids[0]);
      NodeHasTag(enc, kids[0], p);
      IndefiniteStep(enc, p);
      IndefiniteEncoded(enc, p + |Encode(kids[0])|, kids[1..]);
    }
  }

  lemma {:induction false} EOCDecodes(enc: bytes, p: nat)
    requires At(enc, p, [0, 0])
    ensures Decode(enc, p).Done? && IsEOC(Decode(enc, p).v.tag) && Decode(enc, p).pos == p + 2
  {
    hide Decode;
    AtIndex(enc, p, [0, 0]);
    assert ReadTag(enc, p) == Done(Tag(0, false, 0), p + 1);
    assert ReadLength(enc, p + 1) == Done(0, p + 2);
    DecodeStep(enc, p, p + 2, Tag(0, false, 0), 0);
  }

  // ---------------------------------------------------------------- octets of a header

  /** Only primitive BIT STRINGs and OCTET STRINGs may be taken apart. */
  lemma EncapsulatingTags(t: Tag)
    ensures MayEncapsulate(t) <==> t == Tag(0, false, 3) || t == Tag(0, false, 4)
    ensures IsEOC(t) <==> t == Tag(0, false, 0) || t == Tag(0, true, 0)
  {
  }

  /** An identifier of one octet: two bits of class, one of form, and five of the number. */
  lemma ShortIdentifier(enc: bytes, p: nat)
    requires p < |enc| && enc[p] % 32 < 31
    ensures ReadTag(enc, p) == Done(Tag(enc[p] / 64, enc[p] % 64 >= 32, enc[p] % 32), p + 1)
  {
  }

  /** The first octet of a length: below 128 it is the length, 128 is the indefinite form, and more
      than six further octets are refused. */
  lemma {:induction false} FirstOfLength(enc: bytes, p: nat)
    requires p < |enc|
    ensures enc[p] < 128 ==> ReadLength(enc, p) == Done(enc[p], p + 1)
    ensures enc[p] == 128 ==> ReadLength(enc, p) == Done(-1, p + 1)
    ensures enc[p] > 134 ==> ReadLength(enc, p).Fail?
    ensures ReadLength(enc, |enc|).Fail? && ReadTag(enc, |enc|).Fail?
  {
    hide LongLength, LongTag;
  }
}
