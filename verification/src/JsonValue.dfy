/** The tagged value tree of the JSON library, its ordered maps and its order. */
module JsonValue {
  import opened Bytes

  const MIN_LARGEST_INT := -0x8000_0000_0000_0000
  const MAX_LARGEST_INT := 0x7FFF_FFFF_FFFF_FFFF
  const MAX_LARGEST_UINT := 0xFFFF_FFFF_FFFF_FFFF
  const MAX_INT := 0x7FFF_FFFF

  type LargestInt = i: int | MIN_LARGEST_INT <= i <= MAX_LARGEST_INT
  type LargestUInt = u: int | 0 <= u <= MAX_LARGEST_UINT

  /** A real keeps the text it was read from: floating point is not modelled.
      NullString is a string value whose char pointer is null. */
  datatype Value =
    | Null
    | Int(i: LargestInt)
    | UInt(u: LargestUInt)
    | Real(text: bytes)
    | NullString
    | Str(s: bytes)
    | Bool(b: bool)
    | Array(slots: seq<Slot>)
    | Object(members: seq<Member>)

  /** An array is a map from indexes to values; an index without a value is a hole. */
  datatype Slot = Hole | Item(item: Value)

  datatype Member = Member(name: bytes, item: Value)

  /** The number the C++ enumeration ValueType gives the value's type. */
  function TypeOf(v: Value): nat {
    match v
    case Null => 0
    case Int(_) => 1
    case UInt(_) => 2
    case Real(_) => 3
    case NullString => 4
    case Str(_) => 4
    case Bool(_) => 5
    case Array(_) => 6
    case Object(_) => 7
  }

  /** Maps are sorted by key, and an array's last slot holds a value
      (its size is the highest index plus one). */
  ghost predicate WellFormed(v: Value) {
    match v
    case Array(slots) =>
      && (slots != [] ==> slots[|slots| - 1].Item?)
      && forall k :: 0 <= k < |slots| && slots[k].Item? ==> WellFormed(slots[k].item)
    case Object(ms) =>
      && Sorted(ms)
      && forall k :: 0 <= k < |ms| ==> WellFormed(ms[k].item)
    case _ => true
  }

  // ---------------------------------------------------------------- keys

  /** memcmp over the first n bytes: negative, zero or positive. */
  function Memcmp(a: bytes, b: bytes, n: nat): (r: int)
    requires n <= |a| && n <= |b|
    ensures r == 0 <==> a[..n] == b[..n]
  {
    if n == 0 then 0
    else if a[0] != b[0] then a[0] - b[0]
    else
      assert a[..n] == [a[0]] + a[1..][..n - 1];
      assert b[..n] == [b[0]] + b[1..][..n - 1];
      Memcmp(a[1..], b[1..], n - 1)
  }

  function Min(m: nat, n: nat): nat {
    if m <= n then m else n
  }

  /** CZString::operator< on two string keys; stringValue compares the same way. */
  predicate KeyLess(a: bytes, b: bytes) {
    var comp := Memcmp(a, b, Min(|a|, |b|));
    if comp < 0 then true else if comp > 0 then false else |a| < |b|
  }

  lemma KeyTrichotomy(a: bytes, b: bytes)
    ensures !KeyLess(a, a)
    ensures KeyLess(a, b) ==> !KeyLess(b, a)
    ensures !KeyLess(a, b) && !KeyLess(b, a) ==> a == b
  {
    MemcmpAntisymmetric(a, b, Min(|a|, |b|));
    assert a[..|a|] == a && b[..|b|] == b;
  }

  lemma {:induction false} MemcmpAntisymmetric(a: bytes, b: bytes, n: nat)
    requires n <= |a| && n <= |b|
    ensures Memcmp(a, b, n) < 0 <==> Memcmp(b, a, n) > 0
    ensures Memcmp(a, b, n) == 0 <==> Memcmp(b, a, n) == 0
  {
    if n > 0 && a[0] == b[0] {
      MemcmpAntisymmetric(a[1..], b[1..], n - 1);
    }
  }

  lemma {:induction false} KeyLessUnfold(a: bytes, b: bytes)
    ensures KeyLess(a, b) <==>
      b != [] && (a == [] || a[0] < b[0] || (a[0] == b[0] && KeyLess(a[1..], b[1..])))
  {
  }

  /** a is less than b at n: both start with the same n bytes, and there a ends or has the lesser byte. */
  predicate LessAt(a: bytes, b: bytes, n: nat) {
    n <= |a| && n < |b| && a[..n] == b[..n] && (n < |a| ==> a[n] < b[n])
  }

  /** The first byte in which two keys differ decides; a key comes before those it is the start of. */
  lemma {:induction false} KeyLessMeans(a: bytes, b: bytes)
    ensures KeyLess(a, b) <==> exists n: nat :: LessAt(a, b, n)
  {
    hide KeyLess;
    KeyLessUnfold(a, b);
    if a == [] || b == [] || a[0] != b[0] {
      if KeyLess(a, b) { assert LessAt(a, b, 0); }
      forall n: nat | LessAt(a, b, n) ensures n == 0 {
        if n > 0 { assert false; }
      }
    } else {
      KeyLessMeans(a[1..], b[1..]);
      if KeyLess(a, b) {
        var m: nat :| LessAt(a[1..], b[1..], m);
        assert a[..m + 1] == [a[0]] + a[1..][..m] && b[..m + 1] == [b[0]] + b[1..][..m];
        assert LessAt(a, b, m + 1);
      }
      forall n: nat | LessAt(a, b, n) ensures KeyLess(a, b) {
        assert a[1..][..n - 1] == a[..n][1..] && b[1..][..n - 1] == b[..n][1..];
        assert LessAt(a[1..], b[1..], n - 1);
      }
    }
  }

  /** The numbers of the types, in the order of the enumeration ValueType. */
  lemma TypeNumbers()
    ensures TypeOf(Null) == 0 && TypeOf(NullString) == 4
    ensures forall i :: TypeOf(Int(i)) == 1
    ensures forall u :: TypeOf(UInt(u)) == 2
    ensures forall t :: TypeOf(Real(t)) == 3
    ensures forall s :: TypeOf(Str(s)) == 4
    ensures forall b :: TypeOf(Bool(b)) == 5
    ensures forall slots :: TypeOf(Array(slots)) == 6
    ensures forall ms :: TypeOf(Object(ms)) == 7
  {
  }

  lemma {:induction false} KeyLessTransitive(a: bytes, b: bytes, c: bytes)
    requires KeyLess(a, b) && KeyLess(b, c)
    ensures KeyLess(a, c)
  {
    KeyLessUnfold(a, b);
    KeyLessUnfold(b, c);
    KeyLessUnfold(a, c);
    if a != [] && a[0] == b[0] == c[0] {
      KeyLessTransitive(a[1..], b[1..], c[1..]);
    }
  }

  // ---------------------------------------------------------------- ordered maps

  ghost predicate Sorted(ms: seq<Member>) {
    forall j, k :: 0 <= j < k < |ms| ==> KeyLess(ms[j].name, ms[k].name)
  }

  /** Value::find: the member called `name`, if there is one. */
  function Find(ms: seq<Member>, name: bytes): (r: Slot)
    ensures r.Hole? <==> forall k :: 0 <= k < |ms| ==> ms[k].name != name
    ensures r.Item? ==> exists k :: 0 <= k < |ms| && ms[k] == Member(name, r.item)
  {
    if ms == [] then Hole
    else if ms[0].name == name then
      assert ms[0] == Member(name, ms[0].item);
      Item(ms[0].item)
    else Find(ms[1..], name)
  }

  predicate IsMember(ms: seq<Member>, name: bytes) {
    Find(ms, name).Item?
  }

  /** Value::resolveReference followed by a store through the reference: the
      member called `name` is created at its place in the order, or overwritten. */
  function Store(ms: seq<Member>, name: bytes, v: Value): seq<Member> {
    if ms == [] then [Member(name, v)]
    else if ms[0].name == name then [Member(name, v)] + ms[1..]
    else if KeyLess(name, ms[0].name) then [Member(name, v)] + ms
    else [ms[0]] + Store(ms[1..], name, v)
  }

  /** Value::removeMember. */
  function Remove(ms: seq<Member>, name: bytes): seq<Member> {
    if ms == [] then []
    else if ms[0].name == name then ms[1..]
    else [ms[0]] + Remove(ms[1..], name)
  }

  function Names(ms: seq<Member>): (ns: seq<bytes>)
    ensures |ns| == |ms| && forall k :: 0 <= k < |ms| ==> ns[k] == ms[k].name
  {
    seq(|ms|, k requires 0 <= k < |ms| => ms[k].name)
  }

  /** The map a member list stands for. */
  function ToMap(ms: seq<Member>): map<bytes, Value> {
    if ms == [] then map[] else ToMap(ms[1..])[ms[0].name := ms[0].item]
  }

  lemma {:induction false} FindIsLookup(ms: seq<Member>, name: bytes)
    ensures IsMember(ms, name) <==> name in ToMap(ms)
    ensures IsMember(ms, name) ==> Find(ms, name).item == ToMap(ms)[name]
  {
    if ms != [] { FindIsLookup(ms[1..], name); }
  }

  lemma {:induction false} KeysOfMap(ms: seq<Member>)
    ensures forall n :: n in ToMap(ms) <==> exists k :: 0 <= k < |ms| && ms[k].name == n
  {
    forall n ensures n in ToMap(ms) <==> exists k :: 0 <= k < |ms| && ms[k].name == n {
      FindIsLookup(ms, n);
    }
  }

  lemma {:induction false} SortedTail(ms: seq<Member>)
    requires ms != [] && Sorted(ms)
    ensures Sorted(ms[1..]) && forall k :: 0 <= k < |ms[1..]| ==> KeyLess(ms[0].name, ms[1..][k].name)
  {
  }

  lemma {:induction false} SortedCons(m: Member, ms: seq<Member>)
    requires Sorted(ms) && forall k :: 0 <= k < |ms| ==> KeyLess(m.name, ms[k].name)
    ensures Sorted([m] + ms)
  {
  }

  /** A store keeps the order; its members are old ones or the stored one. */
  lemma {:induction false} StoreSorted(ms: seq<Member>, name: bytes, v: Value)
    requires Sorted(ms)
    ensures Sorted(Store(ms, name, v))
    ensures forall m :: m in Store(ms, name, v) ==> m == Member(name, v) || m in ms
  {
    if ms == [] {
    } else if ms[0].name == name {
      SortedTail(ms);
      SortedCons(Member(name, v), ms[1..]);
    } else if KeyLess(name, ms[0].name) {
      forall k | 0 <= k < |ms| ensures KeyLess(name, ms[k].name) {
        if k > 0 { KeyLessTransitive(name, ms[0].name, ms[k].name); }
      }
      SortedCons(Member(name, v), ms);
    } else {
      SortedTail(ms);
      StoreSorted(ms[1..], name, v);
      StoreStaysAbove(ms[0], ms[1..], name, v);
      SortedCons(ms[0], Store(ms[1..], name, v));
    }
  }

  lemma {:induction false} StoreStaysAbove(m: Member, ms: seq<Member>, name: bytes, v: Value)
    requires m.name != name && !KeyLess(name, m.name)
    requires forall k :: 0 <= k < |ms| ==> KeyLess(m.name, ms[k].name)
    requires forall x :: x in Store(ms, name, v) ==> x == Member(name, v) || x in ms
    ensures forall k :: 0 <= k < |Store(ms, name, v)| ==> KeyLess(m.name, Store(ms, name, v)[k].name)
  {
    KeyTrichotomy(m.name, name);
    var rest := Store(ms, name, v);
    forall k | 0 <= k < |rest| ensures KeyLess(m.name, rest[k].name) {
      assert rest[k] in rest;
      if rest[k] != Member(name, v) {
        var j :| 0 <= j < |ms| && ms[j] == rest[k];
      }
    }
  }

  /** A store is the update of the map. */
  lemma {:induction false} StoreIsUpdate(ms: seq<Member>, name: bytes, v: Value)
    ensures ToMap(Store(ms, name, v)) == ToMap(ms)[name := v]
  {
    if ms != [] && ms[0].name != name && !KeyLess(name, ms[0].name) {
      StoreIsUpdate(ms[1..], name, v);
      assert Store(ms, name, v)[1..] == Store(ms[1..], name, v);
    } else if ms != [] && ms[0].name == name {
      assert Store(ms, name, v)[1..] == ms[1..];
    } else if ms != [] {
      assert Store(ms, name, v)[1..] == ms;
    }
  }

  /** A removal keeps the order and is the deletion from the map. */
  lemma {:induction false} RemoveSorted(ms: seq<Member>, name: bytes)
    requires Sorted(ms)
    ensures Sorted(Remove(ms, name))
    ensures forall m :: m in Remove(ms, name) ==> m in ms
  {
    if ms != [] {
      SortedTail(ms);
      if ms[0].name != name {
        RemoveSorted(ms[1..], name);
        var rest := Remove(ms[1..], name);
        forall k | 0 <= k < |rest| ensures KeyLess(ms[0].name, rest[k].name) {
          assert rest[k] in rest;
          var j :| 0 <= j < |ms[1..]| && ms[1..][j] == rest[k];
        }
        SortedCons(ms[0], rest);
      }
    }
  }

  lemma {:induction false} NotInTail(ms: seq<Member>)
    requires ms != [] && Sorted(ms)
    ensures ms[0].name !in ToMap(ms[1..])
  {
    KeysOfMap(ms[1..]);
    KeyTrichotomy(ms[0].name, ms[0].name);
  }

  lemma {:induction false} RemoveIsDelete(ms: seq<Member>, name: bytes)
    requires Sorted(ms)
    ensures ToMap(Remove(ms, name)) == ToMap(ms) - {name}
  {
    if ms != [] {
      SortedTail(ms);
      NotInTail(ms);
      hide Sorted;
      if ms[0].name != name {
        RemoveIsDelete(ms[1..], name);
        assert Remove(ms, name)[1..] == Remove(ms[1..], name);
      }
    }
  }

  /** Storing a key above all others appends it. */
  lemma {:induction false} StoreLast(ms: seq<Member>, name: bytes, v: Value)
    requires Sorted(ms + [Member(name, v)])
    ensures Store(ms, name, v) == ms + [Member(name, v)]
  {
    if ms != [] {
      var all := ms + [Member(name, v)];
      assert KeyLess(all[0].name, all[|ms|].name);
      KeyTrichotomy(ms[0].name, name);
      assert all[1..] == ms[1..] + [Member(name, v)];
      SortedTail(all);
      StoreLast(ms[1..], name, v);
    }
  }

  // ---------------------------------------------------------------- sizes

  /** Value::size. */
  function Size(v: Value): nat {
    match v
    case Array(slots) => |slots|
    case Object(ms) => |ms|
    case _ => 0
  }

  /** Value::operator[](ArrayIndex) const: a missing index reads as null. */
  function ItemAt(slots: seq<Slot>, k: nat): Value {
    if k < |slots| && slots[k].Item? then slots[k].item else Null
  }

  /** What a slot reads as. */
  function SlotValue(slot: Slot): Value {
    match slot
    case Hole => Null
    case Item(v) => v
  }

  /** The number of nodes below a value: the measure of every recursion over trees. */
  function Weight(v: Value): nat {
    match v
    case Array(slots) => 1 + WeightOfSlots(slots)
    case Object(ms) => 1 + WeightOfMembers(ms)
    case _ => 0
  }

  function WeightOfSlots(slots: seq<Slot>): nat {
    if slots == [] then 0
    else 1 + WeightOfSlot(slots[0]) + WeightOfSlots(slots[1..])
  }

  function WeightOfSlot(slot: Slot): (w: nat)
    ensures w == if slot.Item? then Weight(slot.item) else 0
  {
    match slot
    case Hole => 0
    case Item(v) => Weight(v)
  }

  function WeightOfMembers(ms: seq<Member>): nat {
    if ms == [] then 0 else 1 + Weight(ms[0].item) + WeightOfMembers(ms[1..])
  }

  lemma {:induction false} SlotWeighsLess(slots: seq<Slot>, k: nat)
    requires k < |slots|
    ensures Weight(SlotValue(slots[k])) < WeightOfSlots(slots)
    ensures WeightOfSlots(slots[k..]) <= WeightOfSlots(slots)
  {
    assert slots[0..] == slots;
    if k > 0 {
      SlotWeighsLess(slots[1..], k - 1);
      assert slots[1..][k - 1..] == slots[k..];
    }
  }

  lemma {:induction false} MemberWeighsLess(ms: seq<Member>, k: nat)
    requires k < |ms|
    ensures Weight(ms[k].item) < WeightOfMembers(ms)
    ensures WeightOfMembers(ms[k..]) <= WeightOfMembers(ms)
  {
    assert ms[0..] == ms;
    if k > 0 {
      MemberWeighsLess(ms[1..], k - 1);
      assert ms[1..][k - 1..] == ms[k..];
    }
  }
}
