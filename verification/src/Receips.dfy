/** Recipient lists: decodeReceips, and the canonical key serializeReceips makes of a list. */
module Receips {
  import opened Bytes
  import opened JsonValue

  // ---------------------------------------------------------------- std::getline

  /** The offset of the first `sep` at or after p, or the length of the text. */
  function SepFrom(s: bytes, p: nat, sep: byte): (k: nat)
    requires p <= |s|
    ensures p <= k <= |s|
    ensures forall j :: p <= j < k ==> s[j] != sep
    ensures k < |s| ==> s[k] == sep
    decreases |s| - p
  {
    if p == |s| || s[p] == sep then p else SepFrom(s, p + 1, sep)
  }

  /** The pieces the getline loop sees from p on; an empty one behind the last separator is not seen. */
  function PiecesFrom(s: bytes, p: nat, sep: byte): seq<bytes>
    requires p <= |s|
    decreases |s| - p
  {
    if p == |s| then []
    else
      var k := SepFrom(s, p, sep);
      [s[p..k]] + if k < |s| then PiecesFrom(s, k + 1, sep) else []
  }

  function Pieces(s: bytes, sep: byte): seq<bytes> {
    PiecesFrom(s, 0, sep)
  }

  lemma PiecesStep(s: bytes, p: nat, sep: byte)
    requires p <= |s|
    ensures p == |s| ==> PiecesFrom(s, p, sep) == []
    ensures p < |s| ==>
      (var k := SepFrom(s, p, sep);
       PiecesFrom(s, p, sep) == [s[p..k]] + PiecesFrom(s, if k < |s| then k + 1 else k, sep))
  {
    hide SepFrom;
  }

  /** One std::getline(iss, line, sep) with the stream at p. */
  method GetLine(s: bytes, p: nat, sep: byte) returns (ok: bool, line: bytes, next: nat)
    requires p <= |s|
    ensures ok <==> p < |s|
    ensures ok ==> p < next <= |s| && PiecesFrom(s, p, sep) == [line] + PiecesFrom(s, next, sep) && sep !in line
    ensures !ok ==> next == p && PiecesFrom(s, p, sep) == []
  {
    hide PiecesFrom;
    PiecesStep(s, p, sep);
    if p == |s| { return false, [], p; }
    line := [];
    next := p;
    while next < |s| && s[next] != sep
      invariant p <= next <= |s| && line == s[p..next] && sep !in line
      invariant SepFrom(s, p, sep) == SepFrom(s, next, sep)
    {
      line := line + [s[next]];
      next := next + 1;
    }
    if next < |s| { next := next + 1; }
    ok := true;
  }

  lemma {:induction false} SepShift(a: bytes, s: bytes, p: nat, sep: byte)
    requires p <= |s|
    ensures SepFrom(a + s, |a| + p, sep) == |a| + SepFrom(s, p, sep)
    decreases |s| - p
  {
    if p < |s| && s[p] != sep { SepShift(a, s, p + 1, sep); }
  }

  lemma {:induction false} PiecesShift(a: bytes, s: bytes, p: nat, sep: byte)
    requires p <= |s|
    ensures PiecesFrom(a + s, |a| + p, sep) == PiecesFrom(s, p, sep)
    decreases |s| - p
  {
    hide SepFrom, PiecesFrom;
    PiecesStep(s, p, sep);
    PiecesStep(a + s, |a| + p, sep);
    if p < |s| {
      var k := SepFrom(s, p, sep);
      SepShift(a, s, p, sep);
      SliceOfSuffix(a, s, p, k);
      PiecesShift(a, s, if k < |s| then k + 1 else k, sep);
    }
  }

  lemma SliceOfSuffix(a: bytes, s: bytes, p: nat, k: nat)
    requires p <= k <= |s|
    ensures (a + s)[|a| + p..|a| + k] == s[p..k]
  {
  }

  lemma {:induction false} SepOfLine(line: bytes, p: nat, sep: byte, rest: bytes)
    requires sep !in line && p <= |line|
    ensures SepFrom(line + [sep] + rest, p, sep) == |line|
    decreases |line| - p
  {
    if p < |line| {
      assert (line + [sep] + rest)[p] == line[p];
      SepOfLine(line, p + 1, sep, rest);
    }
  }

  /** A line without the separator, its separator, and the rest. */
  lemma PiecesOfLine(line: bytes, sep: byte, rest: bytes)
    requires sep !in line
    ensures Pieces(line + [sep] + rest, sep) == [line] + Pieces(rest, sep)
  {
    var s := line + [sep] + rest;
    SepOfLine(line, 0, sep, rest);
    assert s[0..|line|] == line;
    assert |line + [sep]| + 0 == |line| + 1;
    PiecesShift(line + [sep], rest, 0, sep);
  }

  /** A text without the separator is one piece. */
  lemma PiecesOfLast(line: bytes, sep: byte)
    requires sep !in line
    ensures Pieces(line, sep) == if line == [] then [] else [line]
  {
    if line != [] {
      assert SepFrom(line, 0, sep) == |line|;
      assert line[0..|line|] == line;
    }
  }

  // ---------------------------------------------------------------- addresses

  /** std::isalnum in the C locale, and the three other characters an address keeps. */
  predicate IsKept(b: byte) {
    IsDigit(b) || IsUpper(b) || 97 <= b <= 122 || b == AT || b == DOT || b == UNDERSCORE
  }

  function Clean(s: bytes): (c: bytes)
    ensures forall b :: b in c <==> b in s && IsKept(b)
  {
    if s == [] then [] else (if IsKept(s[0]) then [s[0]] else []) + Clean(s[1..])
  }

  /** A piece counts when its clean form has an '@'; it is then kept in lower case. */
  predicate Counts(piece: bytes) {
    AT in Clean(piece)
  }

  function Address(piece: bytes): bytes {
    Lower(Clean(piece))
  }

  /** The clean, lower-case pieces with an '@' of a text. */
  ghost function AddressesIn(s: bytes): set<bytes> {
    set p | p in Pieces(s, SEMICOLON) && Counts(p) :: Address(p)
  }

  /** Those of all the texts of a list. */
  ghost function AddressesOf(texts: seq<bytes>): set<bytes> {
    set k, p | 0 <= k < |texts| && p in Pieces(texts[k], SEMICOLON) && Counts(p) :: Address(p)
  }

  /** An address that cleaning leaves as it is. */
  predicate IsAddress(a: bytes) {
    AT in a && forall k :: 0 <= k < |a| ==> IsKept(a[k]) && !IsUpper(a[k])
  }

  lemma {:induction false} CleanOfKept(s: bytes)
    requires forall k :: 0 <= k < |s| ==> IsKept(s[k])
    ensures Clean(s) == s
  {
    if s != [] { CleanOfKept(s[1..]); }
  }

  lemma AddressIsItself(a: bytes)
    requires IsAddress(a)
    ensures Counts(a) && Address(a) == a && SEMICOLON !in a && a != []
  {
    CleanOfKept(a);
  }

  lemma AddressIsAddress(piece: bytes)
    requires Counts(piece)
    ensures IsAddress(Address(piece))
  {
    var c := Clean(piece);
    assert forall k :: 0 <= k < |c| ==> c[k] in c;
    var k :| 0 <= k < |c| && c[k] == AT;
    assert Lower(c)[k] == AT;
  }

  lemma {:induction false} CleanFirst(done: bytes, s: bytes)
    requires s != []
    ensures done + Clean(s) == (if IsKept(s[0]) then done + [s[0]] else done) + Clean(s[1..])
  {
  }

  /** The loop that erases every other character of `line` in place. */
  method EraseOthers(line0: bytes) returns (line: bytes)
    ensures line == Clean(line0) == Filtered(line0)
  {
    hide Clean, Filtered;
    CleanIsFiltered(line0);
    line := line0;
    var it := 0;
    ghost var rest := line0;
    while it < |line|
      invariant it <= |line| && line[it..] == rest && line[..it] + Clean(rest) == Clean(line0)
      decreases |line| - it
    {
      CleanFirst(line[..it], rest);
      if IsKept(line[it]) {
        it := it + 1;
      } else {
        line := line[..it] + line[it + 1..];
      }
      rest := rest[1..];
    }
    NothingToClean();
  }

  lemma NothingToClean()
    ensures Clean([]) == []
  {
  }

  // ---------------------------------------------------------------- ordered sets of addresses

  /** std::set and std::vector<std::string>, in the order of std::string. */
  ghost predicate StrictlySorted(v: seq<bytes>) {
    forall j, k :: 0 <= j < k < |v| ==> KeyLess(v[j], v[k])
  }

  /** std::set::insert. */
  function Insert(v: seq<bytes>, x: bytes): (w: seq<bytes>)
    ensures forall y :: y in w <==> y in v || y == x
  {
    if v == [] then [x]
    else if v[0] == x then v
    else if KeyLess(x, v[0]) then [x] + v
    else [v[0]] + Insert(v[1..], x)
  }

  lemma {:induction false} InsertSorted(v: seq<bytes>, x: bytes)
    requires StrictlySorted(v)
    ensures StrictlySorted(Insert(v, x))
  {
    hide KeyLess;
    if v == [] {
    } else if v[0] == x {
    } else if KeyLess(x, v[0]) {
      forall k | 0 <= k < |v| ensures KeyLess(x, v[k]) {
        if k > 0 { KeyLessTransitive(x, v[0], v[k]); }
      }
    } else {
      KeyTrichotomy(v[0], x);
      InsertSorted(v[1..], x);
      var rest := Insert(v[1..], x);
      forall k | 0 <= k < |rest| ensures KeyLess(v[0], rest[k]) {
        assert rest[k] in rest;
        if rest[k] != x { var j :| 0 <= j < |v[1..]| && v[1..][j] == rest[k]; }
      }
    }
  }

  /** An ordered set has one listing. */
  lemma {:induction false} SortedUnique(v: seq<bytes>, w: seq<bytes>)
    requires StrictlySorted(v) && StrictlySorted(w) && forall x :: x in v <==> x in w
    ensures v == w
  {
    hide KeyLess;
    assert v != [] ==> v[0] in v;
    assert w != [] ==> w[0] in w;
    if v != [] {
      SameFirst(v, w);
      forall x ensures x in v[1..] <==> x in w[1..] {
        KeyTrichotomy(v[0], v[0]);
        if x in v[1..] { InTail(v, w, x); }
        if x in w[1..] { InTail(w, v, x); }
      }
      SortedUnique(v[1..], w[1..]);
    }
  }

  lemma SameFirst(v: seq<bytes>, w: seq<bytes>)
    requires v != [] && w != [] && v[0] in w && w[0] in v
    requires forall j :: 0 < j < |v| ==> KeyLess(v[0], v[j])
    requires forall j :: 0 < j < |w| ==> KeyLess(w[0], w[j])
    ensures v[0] == w[0]
  {
    hide KeyLess;
    KeyTrichotomy(v[0], w[0]);
  }

  lemma InTail(v: seq<bytes>, w: seq<bytes>, x: bytes)
    requires v != [] && w != [] && v[0] == w[0] && StrictlySorted(v) && x in v[1..] && x in w
    ensures x in w[1..]
  {
    hide KeyLess;
    var k :| 0 <= k < |v[1..]| && v[1..][k] == x;
    KeyTrichotomy(v[0], x);
    var j :| 0 <= j < |w| && w[j] == x;
    assert j > 0 && w[1..][j - 1] == x;
  }

  /** std::sort may leave only the same list when that is strictly sorted already. */
  lemma {:induction false} SortIsIdle(v: seq<bytes>, w: seq<bytes>)
    requires StrictlySorted(v) && multiset(v) == multiset(w)
    requires forall j, k :: 0 <= j < k < |w| ==> !KeyLess(w[k], w[j])
    ensures v == w
  {
    hide KeyLess;
    assert |multiset(v)| == |v| && |multiset(w)| == |w|;
    if v != [] {
      assert v[0] in multiset(w) && w[0] in multiset(v);
      var j :| 0 <= j < |w| && w[j] == v[0];
      KeyTrichotomy(v[0], w[0]);
      TailOf(v);
      TailOf(w);
      SortIsIdle(v[1..], w[1..]);
    }
  }

  lemma TailOf(v: seq<bytes>)
    requires v != []
    ensures multiset(v[1..]) == multiset(v) - multiset{v[0]}
  {
    assert v == [v[0]] + v[1..];
  }

  // ---------------------------------------------------------------- decodeReceips

  /** The ordered set after the loop of decodeReceips over `pieces`. */
  function Collect(pieces: seq<bytes>, acc: seq<bytes>): seq<bytes> {
    if pieces == [] then acc
    else Collect(pieces[1..], if Counts(pieces[0]) then Insert(acc, Address(pieces[0])) else acc)
  }

  function Decoded(s: bytes): seq<bytes> {
    Collect(Pieces(s, SEMICOLON), [])
  }

  lemma {:induction false} CollectIsSet(pieces: seq<bytes>, acc: seq<bytes>)
    requires StrictlySorted(acc)
    ensures StrictlySorted(Collect(pieces, acc))
    ensures forall x :: x in Collect(pieces, acc) <==>
      x in acc || exists k :: 0 <= k < |pieces| && Counts(pieces[k]) && Address(pieces[k]) == x
  {
    hide Counts, Address, Insert, StrictlySorted;
    if pieces != [] {
      var next := if Counts(pieces[0]) then Insert(acc, Address(pieces[0])) else acc;
      InsertSorted(acc, Address(pieces[0]));
      CollectIsSet(pieces[1..], next);
      forall x ensures x in Collect(pieces, acc) <==>
        x in acc || exists k :: 0 <= k < |pieces| && Counts(pieces[k]) && Address(pieces[k]) == x
      {
        if k :| 0 <= k < |pieces[1..]| && Counts(pieces[1..][k]) && Address(pieces[1..][k]) == x {
          assert pieces[k + 1] == pieces[1..][k];
        }
        if k :| 0 <= k < |pieces| && Counts(pieces[k]) && Address(pieces[k]) == x {
          if k > 0 { assert pieces[1..][k - 1] == pieces[k]; }
        }
      }
    }
  }

  /** decodeReceips gives the strictly sorted listing of the addresses in the text. */
  lemma DecodedIsListing(s: bytes)
    ensures StrictlySorted(Decoded(s)) && forall x :: x in Decoded(s) <==> x in AddressesIn(s)
  {
    hide StrictlySorted, Counts, Address, Collect, PiecesFrom;
    EmptyIsSorted();
    CollectIsSet(Pieces(s, SEMICOLON), []);
    var pieces := Pieces(s, SEMICOLON);
    forall x | x in AddressesIn(s) ensures x in Decoded(s) {
      var p :| p in pieces && Counts(p) && Address(p) == x;
      var k :| 0 <= k < |pieces| && pieces[k] == p;
    }
  }

  lemma EmptyIsSorted()
    ensures StrictlySorted([])
  {
  }

  method DecodeReceips(receips: bytes) returns (v: seq<bytes>)
    ensures v == Decoded(receips)
    ensures StrictlySorted(v) && forall x :: x in v <==> x in AddressesIn(receips)
    ensures forall x :: x in v <==> exists p :: p in Pieces(receips, 59) && 64 in p && BareAddress(p) == x
    ensures 64 in receips && 59 !in receips ==> v == [BareAddress(receips)]
  {
    hide PiecesFrom, StrictlySorted, AddressesIn, Insert, Clean, Filtered, Lower, BareAddress;
    DecodedIsListing(receips);
    DecodedByteByByte(receips);
    if 64 in receips && 59 !in receips { OnePiece(receips); }
    var uniqSet: seq<bytes> := [];
    var ok, line, p := GetLine(receips, 0, SEMICOLON);
    while ok
      invariant p <= |receips|
      invariant ok ==> Decoded(receips) == Collect([line] + PiecesFrom(receips, p, SEMICOLON), uniqSet)
      invariant !ok ==> Decoded(receips) == uniqSet
      decreases if ok then |receips| - p + 1 else 0
    {
      CollectStep(line, PiecesFrom(receips, p, SEMICOLON), uniqSet);
      if line != [] {
        line := EraseOthers(line);
        if AT in line {
          line := Lower(line);
          uniqSet := Insert(uniqSet, line);
        }
      }
      ok, line, p := GetLine(receips, p, SEMICOLON);
    }
    v := [];
    for it := 0 to |uniqSet|
      invariant v == uniqSet[..it]
    {
      v := v + [uniqSet[it]];
    }
  }

  lemma {:induction false} CollectStep(line: bytes, rest: seq<bytes>, acc: seq<bytes>)
    ensures Collect([line] + rest, acc) == Collect(rest, if Counts(line) then Insert(acc, Address(line)) else acc)
    ensures line == [] ==> !Counts(line)
    ensures Collect([], acc) == acc
  {
    hide Insert, Address;
    assert ([line] + rest)[1..] == rest;
  }

  // ---------------------------------------------------------------- serializeReceips

  /** The texts with a ';' between them. */
  function Joined(texts: seq<bytes>): bytes {
    if texts == [] then []
    else if |texts| == 1 then texts[0]
    else texts[0] + [SEMICOLON] + Joined(texts[1..])
  }

  function Serialized(texts: seq<bytes>): bytes {
    Joined(Decoded(Joined(texts)))
  }

  /** The loop that joins with ';' and breaks behind the last text. */
  method Join(texts: seq<bytes>) returns (receips: bytes)
    ensures receips == Joined(texts)
  {
    receips := [];
    var it := 0;
    assert texts[0..] == texts;
    while it < |texts|
      invariant it <= |texts|
      invariant it < |texts| || it == 0 ==> receips + Joined(texts[it..]) == Joined(texts)
      invariant it == |texts| > 0 ==> receips == Joined(texts)
    {
      JoinedStep(texts, it, receips);
      receips := receips + texts[it];
      if it + 1 == |texts| { break; }
      receips := receips + [SEMICOLON];
      it := it + 1;
    }
  }

  lemma JoinedStep(texts: seq<bytes>, it: nat, done: bytes)
    requires it < |texts|
    ensures it + 1 == |texts| ==> done + Joined(texts[it..]) == done + texts[it]
    ensures it + 1 < |texts| ==> done + Joined(texts[it..]) == done + texts[it] + [SEMICOLON] + Joined(texts[it + 1..])
  {
    assert texts[it..][0] == texts[it] && texts[it..][1..] == texts[it + 1..];
    var j := Joined(texts[it + 1..]);
    assert done + (texts[it] + [SEMICOLON] + j) == done + texts[it] + [SEMICOLON] + j;
  }

  method SerializeReceips(texts: seq<bytes>) returns (receips: bytes)
    ensures receips == Serialized(texts)
  {
    receips := Join(texts);
    var copy := DecodeReceips(receips);
    receips := Join(copy);
  }

  // ---------------------------------------------------------------- the key is canonical

  /** Text appended behind a ';' brings its own pieces, and at most an empty one besides. */
  lemma {:induction false} PiecesAppend(s: bytes, p: nat, b: bytes) returns (extra: seq<bytes>)
    requires p <= |s|
    ensures extra == [] || extra == [[]]
    ensures PiecesFrom(s + [SEMICOLON] + b, p, SEMICOLON) == PiecesFrom(s, p, SEMICOLON) + (extra + Pieces(b, SEMICOLON))
    decreases |s| - p
  {
    hide SepFrom, PiecesFrom;
    var t, k, rest := s + [SEMICOLON] + b, SepFrom(s, p, SEMICOLON), Pieces(b, SEMICOLON);
    SepAppend(s, p, b);
    JoinedParts(s, b, p, k);
    PiecesStep(s, p, SEMICOLON);
    PiecesStep(t, p, SEMICOLON);
    if k < |s| {
      extra := PiecesAppend(s, k + 1, b);
      AppendFirst(s[p..k], PiecesFrom(s, k + 1, SEMICOLON), extra + rest);
    } else {
      PiecesShift(s + [SEMICOLON], b, 0, SEMICOLON);
      PiecesStep(s, |s|, SEMICOLON);
      extra := if p == |s| then [[]] else [];
      LastPiece(s[p..], rest);
    }
  }

  lemma LastPiece(x: bytes, rest: seq<bytes>)
    ensures [x] + rest == [x] + [] + ([] + rest) == [] + ([x] + rest)
  {
  }

  lemma JoinedParts(s: bytes, b: bytes, p: nat, k: nat)
    requires p <= k <= |s|
    ensures (s + [SEMICOLON] + b)[p..k] == s[p..k] && |s + [SEMICOLON]| + 0 == |s| + 1 && s[p..|s|] == s[p..]
  {
  }

  lemma AppendFirst(x: bytes, a: seq<bytes>, b: seq<bytes>)
    ensures [x] + (a + b) == [x] + a + b
  {
  }

  lemma NothingDoesNotCount()
    ensures !Counts([])
  {
  }

  lemma {:induction false} SepAppend(s: bytes, p: nat, b: bytes)
    requires p <= |s|
    ensures SepFrom(s + [SEMICOLON] + b, p, SEMICOLON) == SepFrom(s, p, SEMICOLON)
    decreases |s| - p
  {
    assert p < |s| ==> (s + [SEMICOLON] + b)[p] == s[p];
    if p < |s| && s[p] != SEMICOLON { SepAppend(s, p + 1, b); }
  }

  /** The addresses in the joined text are those of the texts. */
  lemma {:induction false} AddressesOfJoined(texts: seq<bytes>)
    ensures AddressesIn(Joined(texts)) == AddressesOf(texts)
  {
    hide PiecesFrom, Counts, Address, Pieces;
    if texts == [] {
      NoPieces();
    } else if |texts| == 1 {
      assert texts[0] == Joined(texts);
    } else {
      AddressesOfJoined(texts[1..]);
      AddressesOfPair(texts[0], Joined(texts[1..]));
      AddressesOfCons(texts);
    }
  }

  lemma NoPieces()
    ensures Pieces([], SEMICOLON) == []
  {
  }

  lemma AddressesOfPair(a: bytes, b: bytes)
    ensures AddressesIn(a + [SEMICOLON] + b) == AddressesIn(a) + AddressesIn(b)
  {
    hide PiecesFrom, Counts, Address;
    var extra := PiecesAppend(a, 0, b);
    NothingDoesNotCount();
    var all := Pieces(a + [SEMICOLON] + b, SEMICOLON);
    forall x | Counts(x) ensures x in all <==> x in Pieces(a, SEMICOLON) || x in Pieces(b, SEMICOLON) {}
  }

  lemma AddressesOfCons(texts: seq<bytes>)
    requires texts != []
    ensures AddressesOf(texts) == AddressesIn(texts[0]) + AddressesOf(texts[1..])
  {
    hide PiecesFrom, Counts, Address, Pieces;
    forall x | x in AddressesOf(texts) ensures x in AddressesIn(texts[0]) + AddressesOf(texts[1..]) {
      var k, p :| 0 <= k < |texts| && p in Pieces(texts[k], SEMICOLON) && Counts(p) && Address(p) == x;
      if k > 0 { assert texts[1..][k - 1] == texts[k]; }
    }
    forall x | x in AddressesOf(texts[1..]) ensures x in AddressesOf(texts) {
      var k, p :| 0 <= k < |texts[1..]| && p in Pieces(texts[1..][k], SEMICOLON) && Counts(p) && Address(p) == x;
      assert texts[k + 1] == texts[1..][k];
    }
  }

  /** A list that decodeReceips can give. */
  ghost predicate Canonical(v: seq<bytes>) {
    StrictlySorted(v) && forall k :: 0 <= k < |v| ==> IsAddress(v[k])
  }

  lemma DecodedIsCanonical(s: bytes)
    ensures Canonical(Decoded(s))
  {
    hide StrictlySorted, IsAddress, Counts, Address, PiecesFrom;
    DecodedIsListing(s);
    var v := Decoded(s);
    forall k | 0 <= k < |v| ensures IsAddress(v[k]) {
      assert v[k] in v;
      var p :| p in Pieces(s, SEMICOLON) && Counts(p) && Address(p) == v[k];
      AddressIsAddress(p);
    }
  }

  lemma AddressesOfAddresses(v: seq<bytes>)
    requires forall k :: 0 <= k < |v| ==> IsAddress(v[k])
    ensures forall x :: x in AddressesOf(v) <==> x in v
  {
    hide IsAddress, Counts, Address, PiecesFrom;
    forall k | 0 <= k < |v| ensures Pieces(v[k], SEMICOLON) == [v[k]] && Counts(v[k]) && Address(v[k]) == v[k] {
      AddressIsItself(v[k]);
      PiecesOfLast(v[k], SEMICOLON);
    }
    forall x | x in v ensures x in AddressesOf(v) {
      var k :| 0 <= k < |v| && v[k] == x;
      assert x in Pieces(v[k], SEMICOLON);
    }
  }

  /** Decoding the joined text of a canonical list gives the list. */
  lemma {:induction false} DecodeJoined(v: seq<bytes>)
    requires Canonical(v)
    ensures Decoded(Joined(v)) == v
  {
    hide StrictlySorted, IsAddress;
    AddressesOfJoined(v);
    AddressesOfAddresses(v);
    DecodedIsListing(Joined(v));
    SortedUnique(Decoded(Joined(v)), v);
  }

  /** The key of a list lists exactly its addresses, in order. */
  lemma DecodeSerialized(texts: seq<bytes>)
    ensures StrictlySorted(Decoded(Serialized(texts)))
    ensures forall x :: x in Decoded(Serialized(texts)) <==> x in AddressesOf(texts)
  {
    hide StrictlySorted;
    DecodedIsCanonical(Joined(texts));
    DecodeJoined(Decoded(Joined(texts)));
    DecodedIsListing(Joined(texts));
    AddressesOfJoined(texts);
  }

  /** Two lists share a key exactly when they name the same addresses, so order, duplicates,
      case and stray characters do not matter. */
  lemma SameKey(a: seq<bytes>, b: seq<bytes>)
    ensures Serialized(a) == Serialized(b) <==> AddressesOf(a) == AddressesOf(b)
  {
    hide StrictlySorted, AddressesOf, Decoded;
    DecodeSerialized(a);
    DecodeSerialized(b);
    if AddressesOf(a) == AddressesOf(b) {
      DecodedIsListing(Joined(a));
      DecodedIsListing(Joined(b));
      AddressesOfJoined(a);
      AddressesOfJoined(b);
      SortedUnique(Decoded(Joined(a)), Decoded(Joined(b)));
    }
  }

  /** A key is its own key, as a text and as the list it decodes to. */
  lemma SerializeIsIdempotent(texts: seq<bytes>)
    ensures Serialized([Serialized(texts)]) == Serialized(texts)
    ensures Serialized(Decoded(Serialized(texts))) == Serialized(texts)
  {
    hide StrictlySorted, Decoded;
    var v := Decoded(Joined(texts));
    DecodedIsCanonical(Joined(texts));
    DecodeJoined(v);
  }

  // ---------------------------------------------------------------- byte by byte

  /** What decodeReceips makes of a piece, byte by byte: digits, small letters, '.', '@' and '_' stay,
      capitals come out 32 higher, and everything else is left out. */
  function BareAddress(s: bytes): bytes {
    if s == [] then []
    else
      var b := s[0];
      (if 65 <= b <= 90 then [b + 32]
       else if 48 <= b <= 57 || 97 <= b <= 122 || b == 46 || b == 64 || b == 95 then [b]
       else [])
      + BareAddress(s[1..])
  }

  lemma {:induction false} ByteByByte(piece: bytes)
    ensures Address(piece) == BareAddress(piece) && (Counts(piece) <==> 64 in piece)
  {
    hide Clean;
    CleanStep(piece);
    if piece != [] {
      ByteByByte(piece[1..]);
      LowerFirst(if IsKept(piece[0]) then [piece[0]] else [], Clean(piece[1..]));
    } else {
      assert Lower([]) == [];
    }
  }

  /** What the erasing loop leaves of a piece. */
  function Filtered(s: bytes): bytes {
    if s == [] then []
    else
      var b := s[0];
      (if 48 <= b <= 57 || 65 <= b <= 90 || 97 <= b <= 122 || b == 46 || b == 64 || b == 95 then [b] else [])
      + Filtered(s[1..])
  }

  lemma {:induction false} CleanIsFiltered(s: bytes)
    ensures Clean(s) == Filtered(s)
  {
    if s != [] { CleanIsFiltered(s[1..]); }
  }

  lemma {:induction false} CleanStep(s: bytes)
    ensures Clean(s) == if s == [] then [] else (if IsKept(s[0]) then [s[0]] else []) + Clean(s[1..])
  {
  }

  lemma LowerFirst(a: bytes, c: bytes)
    ensures Lower(a + c) == Lower(a) + Lower(c)
    ensures |a| == 1 ==> Lower(a) == [LowerByte(a[0])]
    ensures a == [] ==> Lower(a) == []
  {
  }

  /** The list consists of the pieces between semicolons that hold an '@', byte by byte. */
  lemma DecodedByteByByte(s: bytes)
    ensures forall x :: x in Decoded(s) <==> exists p :: p in Pieces(s, 59) && 64 in p && BareAddress(p) == x
  {
    hide PiecesFrom, Decoded, StrictlySorted, Address, Counts;
    DecodedIsListing(s);
    forall p ensures Address(p) == BareAddress(p) && (Counts(p) <==> 64 in p) { ByteByByte(p); }
    forall x ensures x in Decoded(s) <==> exists p :: p in Pieces(s, 59) && 64 in p && BareAddress(p) == x {
      if p :| p in Pieces(s, 59) && 64 in p && BareAddress(p) == x { assert Counts(p) && Address(p) == x; }
      if x in Decoded(s) {
        assert x in AddressesIn(s);
        var p :| p in Pieces(s, SEMICOLON) && Counts(p) && Address(p) == x;
        assert p in Pieces(s, 59) && 64 in p && BareAddress(p) == x;
      }
    }
  }

  /** A piece with an '@', alone in its text, is the only address. */
  lemma {:induction false} OnePiece(piece: bytes)
    requires 64 in piece && 59 !in piece
    ensures Decoded(piece) == [BareAddress(piece)]
  {
    hide PiecesFrom, Clean, Address, Counts;
    PiecesOfLast(piece, SEMICOLON);
    assert piece != [];
    ByteByByte(piece);
    var one := [piece];
    assert one[1..] == [];
    assert Collect(one, []) == Collect([], [Address(piece)]);
  }

  lemma {:induction false} CleanIsItself(s: bytes)
    requires forall k :: 0 <= k < |s| ==> 48 <= s[k] <= 57 || 97 <= s[k] <= 122 || s[k] in {46, 64, 95}
    ensures BareAddress(s) == s
  {
    if s != [] { CleanIsItself(s[1..]); }
  }

  /** A text of digits, small letters, dots, underscores and an '@' decodes to itself. */
  lemma CleanDecodes(s: bytes)
    requires forall k :: 0 <= k < |s| ==> 48 <= s[k] <= 57 || 97 <= s[k] <= 122 || s[k] in {46, 64, 95}
    requires 64 in s
    ensures Decoded(s) == [s]
  {
    hide BareAddress, Decoded;
    CleanIsItself(s);
    OnePiece(s);
  }
}
