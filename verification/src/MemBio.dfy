/** The memory BIO of OpenSSL as the MIME code uses it: lines come in pieces of a buffer. */
module MemBio {
  import opened Bytes

  const MAX_SMLEN := 1024

  /** Where the piece that starts at p ends: behind the first line feed, and after at most
      MAX_SMLEN - 1 bytes. */
  function PieceEnd(s: bytes, p: nat): (e: nat)
    requires p <= |s|
    ensures p <= e <= |s| && e - p <= MAX_SMLEN - 1 && (p < |s| ==> p < e)
    ensures forall k :: p <= k < e - 1 ==> s[k] != LF
    ensures e < |s| && e - p < MAX_SMLEN - 1 ==> s[e - 1] == LF
  {
    LineEnd(s, p, MAX_SMLEN - 1)
  }

  function LineEnd(s: bytes, p: nat, room: nat): (e: nat)
    requires p <= |s|
    ensures p <= e <= |s| && e - p <= room && (p < |s| && room > 0 ==> p < e)
    ensures forall k :: p <= k < e - 1 ==> s[k] != LF
    ensures e < |s| && e - p < room ==> e > p && s[e - 1] == LF
    decreases room
  {
    if room == 0 || p == |s| then p
    else if s[p] == LF then p + 1
    else LineEnd(s, p + 1, room - 1)
  }

  /** A line that fits ends at its line feed. */
  lemma {:induction false} LineEndAt(s: bytes, p: nat, n: nat, room: nat)
    requires p + n < |s| && s[p + n] == LF && (forall k :: p <= k < p + n ==> s[k] != LF)
    requires n < room
    ensures LineEnd(s, p, room) == p + n + 1
    decreases n
  {
    if n > 0 { LineEndAt(s, p + 1, n - 1, room - 1); }
  }

  class Bio {
    const data: bytes
    var pos: nat

    constructor (data: bytes)
      ensures this.data == data && pos == 0 && Valid()
    {
      this.data := data;
      pos := 0;
    }

    ghost predicate Valid()
      reads this
    {
      pos <= |data|
    }

    /** BIO_gets(bio, buf, MAX_SMLEN): one piece, with a NUL behind it. */
    method Gets(buf: array<byte>) returns (len: nat)
      requires Valid() && buf.Length == MAX_SMLEN
      modifies this, buf
      ensures Valid() && pos == PieceEnd(data, old(pos)) && len == pos - old(pos) < MAX_SMLEN
      ensures buf[..len] == data[old(pos)..pos] && buf[len] == NUL
    {
      len := 0;
      ghost var start := pos;
      while pos < |data| && len < MAX_SMLEN - 1
        invariant start <= pos <= |data| && len == pos - start <= MAX_SMLEN - 1
        invariant buf[..len] == data[start..pos]
        invariant PieceEnd(data, start) == LineEnd(data, pos, MAX_SMLEN - 1 - len)
        decreases |data| - pos
      {
        buf[len] := data[pos];
        pos := pos + 1;
        len := len + 1;
        assert buf[..len] == buf[..len - 1] + [data[pos - 1]];
        if data[pos - 1] == LF { break; }
      }
      buf[len] := NUL;
    }

    /** BIO_read(bio, buf, 4096) */
    method Read(size: nat) returns (out: bytes)
      requires Valid()
      modifies this
      ensures Valid() && pos == old(pos) + |out| && out == data[old(pos)..pos]
      ensures size > 0 && old(pos) < |data| ==> |out| > 0
      ensures out == [] ==> size == 0 || pos == |data|
    {
      var e := if size <= |data| - pos then pos + size else |data|;
      out := data[pos..e];
      pos := e;
    }
  }

  /** A line of more than 1023 bytes is cut there, and one that fits is read with its line feed. */
  lemma {:induction false} LongLineIsCut(s: bytes, p: nat)
    requires p + 1023 <= |s| && forall k :: p <= k < p + 1023 ==> s[k] != 10
    ensures PieceEnd(s, p) == p + 1023
  {
    if PieceEnd(s, p) < p + 1023 { assert false; }
  }

  lemma {:induction false} ShortLineIsWhole(s: bytes, p: nat, n: nat)
    requires p + n < |s| && s[p + n] == 10 && n < 1023 && forall k :: p <= k < p + n ==> s[k] != 10
    ensures PieceEnd(s, p) == p + n + 1
  {
    LineEndAt(s, p, n, 1023);
  }
}
