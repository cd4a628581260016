/** ASN1.decode over a stream whose position it moves, with attempts that are taken back. */
module Asn1Decoder {
  import opened Answers
  import opened Bytes
  import opened Int10Numbers
  import opened Asn1Numbers
  import opened Asn1Decode

  /** What a method makes of the stream is what the function gives; where the stream stands
      after an exception is not said. */
  ghost predicate Agrees<T>(r: Answer<T>, pos: nat, o: Outcome<T>) {
    if o.Fail? then r.Throws? else r == Gives(o.v) && pos == o.pos
  }

  /** new ASN1Tag(stream) */
  method NewTag(stream: Stream) returns (r: Answer<Tag>)
    modifies stream
    ensures Agrees(r, stream.pos, ReadTag(stream.enc, old(stream.pos)))
  {
    hide LongTag;
    var buf := stream.Next();
    if buf.Throws? { return Throws; }
    var b: int := buf.value;
    var cls, constructed, number: nat := b / 64, (b / 32) % 2 == 1, b % 32;
    if number == 31 {
      var n := ReadLongTag(stream);
      if n.Throws? { return Throws; }
      number := n.value;
    }
    return Gives(Tag(cls, constructed, number));
  }

  method ReadLongTag(stream: Stream) returns (r: Answer<nat>)
    modifies stream
    ensures Agrees(r, stream.pos, LongTag(stream.enc, old(stream.pos), 0))
  {
    var n := new Int10(0);
    ghost var p := stream.pos;
    while true
      invariant fresh(n) && n.Valid() && n.Value() >= 0
      invariant LongTag(stream.enc, p, 0) == LongTag(stream.enc, stream.pos, n.Value())
      decreases Left(stream.enc, stream.pos)
    {
      ghost var before := stream.pos;
      var buf := stream.Next();
      if buf.Throws? { return Throws; }
      LongTagStep(stream.enc, before, n.Value());
      n.MulAdd(128, buf.value % 128);
      if buf.value < 128 { break; }
    }
    // simplify: a number, or the Int10 itself, which is used by its value
    var isNumber, k := n.Simplify();
    return Gives(if isNumber then k else LimbsValue(n.buf));
  }

  /** ASN1.decodeLength */
  method DecodeLength(stream: Stream) returns (r: Answer<int>)
    modifies stream
    ensures Agrees(r, stream.pos, ReadLength(stream.enc, old(stream.pos)))
  {
    hide LongLength;
    var first := stream.Next();
    if first.Throws? { return Throws; }
    var len := first.value % 128;
    if len == first.value { return Gives(len); }
    if len > 6 { return Throws; }
    if len == 0 { return Gives(UNKNOWN); }
    var buf := 0;
    ghost var p := stream.pos;
    for i := 0 to len
      invariant buf >= 0 && stream.pos == p + i
      invariant LongLength(stream.enc, p, len, 0) == LongLength(stream.enc, p + i, len - i, buf)
    {
      LongLengthUnfold(stream.enc, stream.pos, len - i, buf);
      var b := stream.Next();
      if b.Throws? { return Throws; }
      buf := buf * 256 + b.value;
    }
    LongLengthEnds(stream.enc, p + len, buf);
    return Gives(buf);
  }

  lemma LongLengthUnfold(enc: bytes, p: nat, k: nat, n: nat)
    requires k > 0
    ensures LongLength(enc, p, k, n)
         == if p >= |enc| then Fail else LongLength(enc, p + 1, k - 1, n * 256 + enc[p])
  {
  }

  /** Children that were read before what is still to come. */
  ghost function Prefixed(sub: seq<Node>, o: Outcome<seq<Node>>): Outcome<seq<Node>> {
    if o.Fail? then Fail else Done(sub + o.v, o.pos)
  }

  /** ASN1.decode */
  method DecodeElement(stream: Stream) returns (r: Answer<Node>)
    modifies stream
    ensures Agrees(r, stream.pos, Decode(stream.enc, old(stream.pos)))
    decreases Left(stream.enc, stream.pos), 0
  {
    hide ReadTag, ReadLength, GetSub, Attempt, Decode;
    var streamStart := stream.pos;
    DecodeFails(stream.enc, streamStart);
    var tag := NewTag(stream);
    if tag.Throws? { return Throws; }
    var len0 := DecodeLength(stream);
    if len0.Throws? { return Throws; }
    var len, start := len0.value, stream.pos;
    DecodeStep(stream.enc, streamStart, start, tag.value, len);
    var header := start - streamStart;
    var sub := Unparsed;
    if tag.value.constructed {
      var children;
      children, len := ReadSub(stream, start, len);
      if children.Throws? { return Throws; }
      sub := Parsed(children.value);
    } else if tag.value.cls == 0 && (tag.value.number == 3 || tag.value.number == 4) {
      var children, length := TrySub(stream, start, tag.value, len);
      if children.Gives? { sub, len := Parsed(children.value), length; }
    }
    if sub.Unparsed? {
      if len == UNKNOWN { return Throws; }
      stream.pos := start + len;
    }
    return Gives(Node(streamStart, header, len, tag.value, sub));
  }

  lemma {:induction false} DecodeFails(enc: bytes, p: nat)
    ensures ReadTag(enc, p).Fail? ==> Decode(enc, p).Fail?
    ensures ReadTag(enc, p).Done? && ReadLength(enc, ReadTag(enc, p).pos).Fail? ==> Decode(enc, p).Fail?
    ensures ReadTag(enc, p).Done? && ReadLength(enc, ReadTag(enc, p).pos).Done? ==>
      ReadHeader(enc, p) == Done(Header(ReadTag(enc, p).v, ReadLength(enc, ReadTag(enc, p).pos).v),
                                 ReadLength(enc, ReadTag(enc, p).pos).pos)
  {
    hide ReadTag, ReadLength, GetSub, Attempt;
  }

  /** The attempt of ASN1.decode to read a BIT STRING or OCTET STRING as elements; whatever is
      thrown ends it. */
  method TrySub(stream: Stream, start: nat, tag: Tag, len: int) returns (r: Answer<seq<Node>>, length: int)
    requires MayEncapsulate(tag) && start == stream.pos && len >= UNKNOWN
    modifies stream
    ensures Agrees(r, stream.pos, Attempt(stream.enc, start, tag, len))
    ensures r.Gives? ==> length == FinalLength(start, stream.pos, len)
    decreases Left(stream.enc, stream.pos), 3
  {
    hide GetSub, NoEOC, Decode;
    length := len;
    if tag.number == 3 {
      var unused := stream.Next();
      if unused.Throws? { return Throws, len; }
      if unused.value != 0 { return Throws, len; }
    }
    r, length := ReadSub(stream, start, len);
    if r.Throws? { return Throws, len; }
    var none := HasNoEOC(r.value);
    if !none { return Throws, len; }
  }

  /** The loop over the children that looks for an end-of-contents element. */
  method HasNoEOC(sub: seq<Node>) returns (none: bool)
    ensures none == NoEOC(sub)
  {
    for i := 0 to |sub|
      invariant forall k :: 0 <= k < i ==> !IsEOC(sub[k].tag)
    {
      if IsEOC(sub[i].tag) { return false; }
    }
    return true;
  }

  /** getSub */
  method ReadSub(stream: Stream, start: nat, len: int) returns (r: Answer<seq<Node>>, length: int)
    requires len >= UNKNOWN
    modifies stream
    ensures Agrees(r, stream.pos, GetSub(stream.enc, old(stream.pos), start, len))
    ensures r.Gives? ==> length == FinalLength(start, stream.pos, len)
    decreases Left(stream.enc, stream.pos), 2
  {
    hide Definite, Indefinite;
    length := len;
    if len != UNKNOWN {
      r := ReadDefinite(stream, start + len);
    } else {
      r := ReadIndefinite(stream);
      length := start - stream.pos;
    }
  }

  method ReadDefinite(stream: Stream, end: int) returns (r: Answer<seq<Node>>)
    modifies stream
    ensures Agrees(r, stream.pos, Definite(stream.enc, old(stream.pos), end))
    decreases Left(stream.enc, stream.pos), 1
  {
    hide Decode, Definite;
    var sub: seq<Node> := [];
    ghost var p := stream.pos;
    DefiniteUnfold(stream.enc, p, end, []);
    while stream.pos < end
      invariant p <= stream.pos
      invariant Definite(stream.enc, p, end) == Prefixed(sub, Definite(stream.enc, stream.pos, end))
      decreases end - stream.pos
    {
      DefiniteUnfold(stream.enc, stream.pos, end, sub);
      var child := DecodeElement(stream);
      if child.Throws? { return Throws; }
      sub := sub + [child.value];
    }
    DefiniteUnfold(stream.enc, stream.pos, end, sub);
    if stream.pos != end { return Throws; }
    return Gives(sub);
  }

  lemma NothingBefore(o: Outcome<seq<Node>>)
    ensures Prefixed([], o) == o
  {
    if o.Done? { assert [] + o.v == o.v; }
  }

  lemma {:induction false} DefiniteUnfold(enc: bytes, p: nat, end: int, sub: seq<Node>)
    ensures sub == [] ==> Prefixed(sub, Definite(enc, p, end)) == Definite(enc, p, end)
    ensures p >= end ==> Prefixed(sub, Definite(enc, p, end)) == if p == end then Done(sub, p) else Fail
    ensures p < end ==>
      (var child := Decode(enc, p);
       Prefixed(sub, Definite(enc, p, end))
         == if child.Fail? then Fail else Prefixed(sub + [child.v], Definite(enc, child.pos, end)))
    ensures p < end && Decode(enc, p).Done? ==> p < Decode(enc, p).pos
  {
    hide Decode;
    NothingBefore(Definite(enc, p, end));
    Regrouped(sub, p, end, enc);
  }

  lemma {:induction false} Regrouped(sub: seq<Node>, p: nat, end: int, enc: bytes)
    ensures sub + [] == sub
    ensures p < end && Decode(enc, p).Done? ==>
      (var child, rest := Decode(enc, p).v, Definite(enc, Decode(enc, p).pos, end);
       rest.Done? ==> sub + ([child] + rest.v) == sub + [child] + rest.v)
  {
    hide Decode, Definite;
  }

  method ReadIndefinite(stream: Stream) returns (r: Answer<seq<Node>>)
    modifies stream
    ensures Agrees(r, stream.pos, Indefinite(stream.enc, old(stream.pos)))
    decreases Left(stream.enc, stream.pos), 1
  {
    hide Decode, Indefinite;
    var sub: seq<Node> := [];
    ghost var p := stream.pos;
    IndefiniteUnfold(stream.enc, p, []);
    while true
      invariant p <= stream.pos
      invariant Indefinite(stream.enc, p) == Prefixed(sub, Indefinite(stream.enc, stream.pos))
      decreases Left(stream.enc, stream.pos)
    {
      IndefiniteUnfold(stream.enc, stream.pos, sub);
      var s := DecodeElement(stream);
      if s.Throws? { return Throws; }
      if IsEOC(s.value.tag) { break; }
      sub := sub + [s.value];
    }
    return Gives(sub);
  }

  lemma {:induction false} IndefiniteUnfold(enc: bytes, p: nat, sub: seq<Node>)
    ensures sub == [] ==> Prefixed(sub, Indefinite(enc, p)) == Indefinite(enc, p)
    ensures var child := Decode(enc, p);
      Prefixed(sub, Indefinite(enc, p))
        == if child.Fail? then Fail
           else if IsEOC(child.v.tag) then Done(sub, child.pos)
           else Prefixed(sub + [child.v], Indefinite(enc, child.pos))
    ensures Decode(enc, p).Done? ==> p < Decode(enc, p).pos && p < |enc|
  {
    hide Decode;
    NothingBefore(Indefinite(enc, p));
    assert sub + [] == sub;
    var child := Decode(enc, p);
    if child.Done? {
      var rest := Indefinite(enc, child.pos);
      if rest.Done? { assert sub + ([child.v] + rest.v) == sub + [child.v] + rest.v; }
    }
  }

  /** An encoded tree at the position of the stream is decoded to the element that stands for
      it, and the stream moves behind it. */
  method DecodeTree(stream: Stream, ghost t: Tree) returns (r: Answer<Node>)
    requires Encodable(t) && At(stream.enc, stream.pos, Encode(t))
    modifies stream
    ensures r == Gives(NodeOf(stream.enc, t, old(stream.pos))) && stream.pos == old(stream.pos) + |Encode(t)|
  {
    hide Decode, Encodable, Encode, NodeOf, At;
    DecodeEncoded(stream.enc, stream.pos, t);
    r := DecodeElement(stream);
  }
}
