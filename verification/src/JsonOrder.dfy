/** Value::operator< and Value::operator==: a strict total order and its equality. */
module JsonOrder {
  import opened Bytes
  import opened JsonValue

  ghost predicate RealFree(v: Value) {
    match v
    case Real(_) => false
    case Array(slots) => forall k :: 0 <= k < |slots| && slots[k].Item? ==> RealFree(slots[k].item)
    case Object(ms) => forall k :: 0 <= k < |ms| ==> RealFree(ms[k].item)
    case _ => true
  }

  /** The conversion of a 64-bit size difference to a 32-bit int. */
  function ToInt32(d: int): (r: int)
    ensures -0x8000_0000 <= r < 0x8000_0000
    ensures -0x8000_0000 <= d < 0x8000_0000 ==> r == d
  {
    (d + 0x8000_0000) % 0x1_0000_0000 - 0x8000_0000
  }

  /** The number of entries of an array's map. */
  function CountItems(slots: seq<Slot>): nat {
    if slots == [] then 0
    else (if slots[0].Item? then 1 else 0) + CountItems(slots[1..])
  }

  /** Value::operator<. */
  predicate Less(a: Value, b: Value)
    requires RealFree(a) && RealFree(b)
    decreases Weight(a) + Weight(b)
  {
    if TypeOf(a) != TypeOf(b) then TypeOf(a) < TypeOf(b)
    else
      match a
      case Null => false
      case Int(i) => i < b.i
      case UInt(u) => u < b.u
      case NullString => b.Str?
      case Str(s) => b.Str? && KeyLess(s, b.s)
      case Bool(x) => !x && b.b
      case Array(slots) =>
        var delta := ToInt32(CountItems(slots) - CountItems(b.slots));
        if delta != 0 then delta < 0 else LessSlots(slots, b.slots)
      case Object(ms) =>
        var delta := ToInt32(|ms| - |b.members|);
        if delta != 0 then delta < 0 else LessMembers(ms, b.members)
  }

  /** std::map::operator< on two index maps: lexicographic over (index, value)
      pairs. Both lists start at the same index, so where only one has a hole the
      other one holds the smaller key. */
  predicate LessSlots(xs: seq<Slot>, ys: seq<Slot>)
    requires RealFree(Array(xs)) && RealFree(Array(ys))
    decreases WeightOfSlots(xs) + WeightOfSlots(ys)
  {
    if CountItems(ys) == 0 then false
    else if CountItems(xs) == 0 then true
    else if xs[0].Hole? && ys[0].Hole? then LessSlots(xs[1..], ys[1..])
    else if xs[0].Hole? || ys[0].Hole? then xs[0].Item?
    else if Less(xs[0].item, ys[0].item) then true
    else if Less(ys[0].item, xs[0].item) then false
    else LessSlots(xs[1..], ys[1..])
  }

  /** std::map::operator< on two member maps: lexicographic, and a pair is less
      when its key is, or when neither key is less and its value is. */
  predicate LessMembers(xs: seq<Member>, ys: seq<Member>)
    requires RealFree(Object(xs)) && RealFree(Object(ys))
    decreases WeightOfMembers(xs) + WeightOfMembers(ys)
  {
    if ys == [] then false
    else if xs == [] then true
    else if KeyLess(xs[0].name, ys[0].name)
         || (!KeyLess(ys[0].name, xs[0].name) && Less(xs[0].item, ys[0].item)) then true
    else if KeyLess(ys[0].name, xs[0].name)
         || (!KeyLess(xs[0].name, ys[0].name) && Less(ys[0].item, xs[0].item)) then false
    else LessMembers(xs[1..], ys[1..])
  }

  /** Value::operator==. */
  predicate Equal(a: Value, b: Value)
    requires RealFree(a) && RealFree(b)
    decreases a
  {
    TypeOf(a) == TypeOf(b) &&
    match a
    case Null => true
    case Int(i) => i == b.i
    case UInt(u) => u == b.u
    case NullString => b.NullString?
    case Str(s) => b.Str? && |s| == |b.s| && Memcmp(s, b.s, |s|) == 0
    case Bool(x) => x == b.b
    case Array(slots) => CountItems(slots) == CountItems(b.slots) && EqualSlots(slots, b.slots)
    case Object(ms) => |ms| == |b.members| && EqualMembers(ms, b.members)
  }

  /** std::equal over the (index, value) pairs of two maps of the same size. */
  predicate EqualSlots(xs: seq<Slot>, ys: seq<Slot>)
    requires RealFree(Array(xs)) && RealFree(Array(ys))
    decreases xs
  {
    if CountItems(xs) == 0 || CountItems(ys) == 0 then CountItems(xs) == CountItems(ys)
    else if xs[0].Hole? && ys[0].Hole? then EqualSlots(xs[1..], ys[1..])
    else xs[0].Item? && ys[0].Item? && Equal(xs[0].item, ys[0].item) && EqualSlots(xs[1..], ys[1..])
  }

  predicate EqualMembers(xs: seq<Member>, ys: seq<Member>)
    requires |xs| == |ys| && RealFree(Object(xs)) && RealFree(Object(ys))
    decreases xs
  {
    if xs == [] then true
    else
      && |xs[0].name| == |ys[0].name| && Memcmp(xs[0].name, ys[0].name, |xs[0].name|) == 0
      && Equal(xs[0].item, ys[0].item)
      && EqualMembers(xs[1..], ys[1..])
  }

  // ---------------------------------------------------------------- the order

  /** Every container has fewer than 2^31 entries, so that int(size - size) is exact. */
  ghost predicate Small(v: Value) {
    match v
    case Array(slots) =>
      && CountItems(slots) < 0x8000_0000
      && forall k :: 0 <= k < |slots| && slots[k].Item? ==> Small(slots[k].item)
    case Object(ms) =>
      && |ms| < 0x8000_0000
      && forall k :: 0 <= k < |ms| ==> Small(ms[k].item)
    case _ => true
  }

  /** The values the order is about. Children are in the domain too. */
  ghost predicate Domain(v: Value) {
    RealFree(v) && WellFormed(v) && Small(v)
  }

  /** The index maps compared by LessSlots, without the bound on their size. */
  ghost predicate SlotsDomain(xs: seq<Slot>) {
    && (xs != [] ==> xs[|xs| - 1].Item?)
    && forall k :: 0 <= k < |xs| && xs[k].Item? ==> Domain(xs[k].item)
  }

  ghost predicate MembersDomain(ms: seq<Member>) {
    forall k :: 0 <= k < |ms| ==> Domain(ms[k].item)
  }

  lemma {:induction false} NoItemsMeansEmpty(xs: seq<Slot>)
    requires xs != [] ==> xs[|xs| - 1].Item?
    ensures CountItems(xs) == 0 <==> xs == []
  {
    if xs != [] && xs[0].Hole? { NoItemsMeansEmpty(xs[1..]); }
  }

  /** What equality is about: the sizes of containers do not matter for it. */
  ghost predicate Tree(v: Value) {
    RealFree(v) && WellFormed(v)
  }

  ghost predicate SlotTrees(xs: seq<Slot>) {
    && (xs != [] ==> xs[|xs| - 1].Item?)
    && forall k :: 0 <= k < |xs| && xs[k].Item? ==> Tree(xs[k].item)
  }

  ghost predicate MemberTrees(ms: seq<Member>) {
    forall k :: 0 <= k < |ms| ==> Tree(ms[k].item)
  }

  /** operator== is equality of the trees. */
  lemma {:induction false} EqualIsIdentity(a: Value, b: Value)
    requires Tree(a) && Tree(b)
    ensures Equal(a, b) <==> a == b
    decreases Weight(a)
  {
    if TypeOf(a) == TypeOf(b) {
      match a
      case Str(s) =>
        if b.Str? && |s| == |b.s| { assert s[..|s|] == s && b.s[..|s|] == b.s; }
      case Array(slots) => EqualSlotsIsIdentity(slots, b.slots);
      case Object(ms) =>
        if |ms| == |b.members| { EqualMembersIsIdentity(ms, b.members); }
      case _ =>
    }
  }

  lemma {:induction false} EqualSlotsIsIdentity(xs: seq<Slot>, ys: seq<Slot>)
    requires SlotTrees(xs) && SlotTrees(ys)
    ensures EqualSlots(xs, ys) <==> xs == ys
    decreases WeightOfSlots(xs)
  {
    NoItemsMeansEmpty(xs);
    NoItemsMeansEmpty(ys);
    if xs != [] && ys != [] {
      EqualSlotsIsIdentity(xs[1..], ys[1..]);
      if xs[0].Item? && ys[0].Item? { EqualIsIdentity(xs[0].item, ys[0].item); }
      assert xs == [xs[0]] + xs[1..] && ys == [ys[0]] + ys[1..];
    }
  }

  lemma {:induction false} EqualMembersIsIdentity(xs: seq<Member>, ys: seq<Member>)
    requires |xs| == |ys| && MemberTrees(xs) && MemberTrees(ys)
    ensures EqualMembers(xs, ys) <==> xs == ys
    decreases WeightOfMembers(xs)
  {
    if xs != [] {
      var x, y := xs[0].name, ys[0].name;
      EqualMembersIsIdentity(xs[1..], ys[1..]);
      EqualIsIdentity(xs[0].item, ys[0].item);
      if |x| == |y| { assert x[..|x|] == x && y[..|x|] == y; }
      assert xs == [xs[0]] + xs[1..] && ys == [ys[0]] + ys[1..];
    }
  }

  /** Trichotomy: of a < b, b < a and a == b exactly one holds. */
  lemma {:induction false} Trichotomy(a: Value, b: Value)
    requires Domain(a) && Domain(b)
    ensures Less(a, b) ==> !Less(b, a) && a != b
    ensures !Less(a, b) && !Less(b, a) <==> a == b
    decreases Weight(a)
  {
    if TypeOf(a) == TypeOf(b) {
      match a
      case Str(s) => if b.Str? { KeyTrichotomy(s, b.s); KeyTrichotomy(b.s, s); }
      case Array(slots) => SlotsTrichotomy(slots, b.slots);
      case Object(ms) => MembersTrichotomy(ms, b.members);
      case _ =>
    }
  }

  lemma {:induction false} SlotsTrichotomy(xs: seq<Slot>, ys: seq<Slot>)
    requires SlotsDomain(xs) && SlotsDomain(ys)
    ensures LessSlots(xs, ys) ==> !LessSlots(ys, xs) && xs != ys
    ensures !LessSlots(xs, ys) && !LessSlots(ys, xs) <==> xs == ys
    decreases WeightOfSlots(xs)
  {
    NoItemsMeansEmpty(xs);
    NoItemsMeansEmpty(ys);
    if xs != [] && ys != [] {
      SlotsTrichotomy(xs[1..], ys[1..]);
      if xs[0].Item? && ys[0].Item? { Trichotomy(xs[0].item, ys[0].item); }
      assert xs == [xs[0]] + xs[1..] && ys == [ys[0]] + ys[1..];
    }
  }

  lemma {:induction false} MembersTrichotomy(xs: seq<Member>, ys: seq<Member>)
    requires MembersDomain(xs) && MembersDomain(ys)
    ensures LessMembers(xs, ys) ==> !LessMembers(ys, xs) && xs != ys
    ensures !LessMembers(xs, ys) && !LessMembers(ys, xs) <==> xs == ys
    decreases WeightOfMembers(xs)
  {
    if xs != [] && ys != [] {
      MembersTrichotomy(xs[1..], ys[1..]);
      Trichotomy(xs[0].item, ys[0].item);
      KeyTrichotomy(xs[0].name, ys[0].name);
      KeyTrichotomy(ys[0].name, xs[0].name);
      assert xs == [xs[0]] + xs[1..] && ys == [ys[0]] + ys[1..];
    }
  }

  lemma {:induction false} Transitive(a: Value, b: Value, c: Value)
    requires Domain(a) && Domain(b) && Domain(c)
    requires Less(a, b) && Less(b, c)
    ensures Less(a, c)
    decreases Weight(a), 0
  {
    if TypeOf(a) == TypeOf(b) == TypeOf(c) {
      match a
      case Str(s) => if c.Str? { KeyLessTransitive(s, b.s, c.s); }
      case Array(slots) =>
        if CountItems(slots) == CountItems(b.slots) == CountItems(c.slots) {
          SlotsTransitive(slots, b.slots, c.slots);
        }
      case Object(ms) =>
        if |ms| == |b.members| == |c.members| { MembersTransitive(ms, b.members, c.members); }
      case _ =>
    }
  }

  lemma {:induction false} SlotsTransitive(xs: seq<Slot>, ys: seq<Slot>, zs: seq<Slot>)
    requires SlotsDomain(xs) && SlotsDomain(ys) && SlotsDomain(zs)
    requires LessSlots(xs, ys) && LessSlots(ys, zs)
    ensures LessSlots(xs, zs)
    decreases WeightOfSlots(xs), 2
  {
    NoItemsMeansEmpty(xs);
    NoItemsMeansEmpty(ys);
    NoItemsMeansEmpty(zs);
    if xs != [] && ys != [] && zs != [] {
      if LessSlots(xs[1..], ys[1..]) && LessSlots(ys[1..], zs[1..]) {
        SlotsTransitive(xs[1..], ys[1..], zs[1..]);
      }
      if xs[0].Item? && ys[0].Item? && zs[0].Item? {
        ItemsTransitive(xs[0].item, ys[0].item, zs[0].item);
      }
    }
  }

  /** What transitivity needs to know about the heads of three lists. */
  lemma {:induction false} ItemsTransitive(a: Value, b: Value, c: Value)
    requires Domain(a) && Domain(b) && Domain(c)
    ensures Less(a, b) && Less(b, c) ==> Less(a, c)
    ensures !Less(a, b) && !Less(b, a) <==> a == b
    ensures !Less(b, c) && !Less(c, b) <==> b == c
    ensures !Less(a, c) && !Less(c, a) <==> a == c
    ensures !(Less(a, b) && Less(b, a)) && !(Less(b, c) && Less(c, b)) && !(Less(a, c) && Less(c, a))
    decreases Weight(a), 1
  {
    Trichotomy(a, b);
    Trichotomy(b, c);
    Trichotomy(a, c);
    if Less(a, b) && Less(b, c) { Transitive(a, b, c); }
  }

  lemma {:induction false} MembersTransitive(xs: seq<Member>, ys: seq<Member>, zs: seq<Member>)
    requires MembersDomain(xs) && MembersDomain(ys) && MembersDomain(zs)
    requires LessMembers(xs, ys) && LessMembers(ys, zs)
    ensures LessMembers(xs, zs)
    decreases WeightOfMembers(xs), 2
  {
    if xs != [] && ys != [] && zs != [] {
      var x, y, z := xs[0], ys[0], zs[0];
      if LessMembers(xs[1..], ys[1..]) && LessMembers(ys[1..], zs[1..]) {
        MembersTransitive(xs[1..], ys[1..], zs[1..]);
      }
      ItemsTransitive(x.item, y.item, z.item);
      NamesTransitive(x.name, y.name, z.name);
    }
  }

  lemma NamesTransitive(a: bytes, b: bytes, c: bytes)
    ensures KeyLess(a, b) && KeyLess(b, c) ==> KeyLess(a, c)
    ensures !KeyLess(a, b) && !KeyLess(b, a) <==> a == b
    ensures !KeyLess(b, c) && !KeyLess(c, b) <==> b == c
    ensures !KeyLess(a, c) && !KeyLess(c, a) <==> a == c
    ensures !(KeyLess(a, b) && KeyLess(b, a)) && !(KeyLess(b, c) && KeyLess(c, b)) && !(KeyLess(a, c) && KeyLess(c, a))
  {
    KeyTrichotomy(a, b);
    KeyTrichotomy(b, c);
    KeyTrichotomy(a, c);
    if KeyLess(a, b) && KeyLess(b, c) { KeyLessTransitive(a, b, c); }
  }

  /** operator< is a strict total order whose "neither less" is operator==. */
  lemma {:induction false} StrictTotalOrder(a: Value, b: Value, c: Value)
    requires Domain(a) && Domain(b) && Domain(c)
    ensures !Less(a, a)
    ensures Less(a, b) && Less(b, c) ==> Less(a, c)
    ensures !(Less(a, b) && Less(b, a))
    ensures !Less(a, b) && !Less(b, a) <==> Equal(a, b)
    ensures Equal(a, b) <==> a == b
  {
    Trichotomy(a, a);
    ItemsTransitive(a, b, c);
    EqualIsIdentity(a, b);
  }

  /** Value::compare. */
  function Compare(a: Value, b: Value): (r: int)
    requires RealFree(a) && RealFree(b)
  {
    if Less(a, b) then -1 else if Less(b, a) then 1 else 0
  }

  lemma {:induction false} CompareIsConsistent(a: Value, b: Value)
    requires Domain(a) && Domain(b)
    ensures Compare(a, b) == -Compare(b, a)
    ensures Compare(a, b) == 0 <==> Equal(a, b)
  {
    Trichotomy(a, b);
    EqualIsIdentity(a, b);
  }

  lemma DifferenceWraps(d: int)
    ensures ToInt32(d) < 0 && ToInt32(-d) < 0 <==> d % 0x1_0000_0000 == 0x8000_0000
    ensures ToInt32(d) == 0 <==> ToInt32(-d) == 0
  {
  }

  /** The bound on sizes is needed: two objects are each less than the other exactly when their
      sizes differ by 2^31 modulo 2^32, because the difference then wraps to -2^31 both ways. */
  lemma ObjectsUnorderedExactly(xs: seq<Member>, ys: seq<Member>)
    requires MembersDomain(xs) && MembersDomain(ys)
    ensures RealFree(Object(xs)) && RealFree(Object(ys))
    ensures Less(Object(xs), Object(ys)) && Less(Object(ys), Object(xs)) <==>
      (|xs| - |ys|) % 0x1_0000_0000 == 0x8000_0000
  {
    hide LessMembers;
    DifferenceWraps(|xs| - |ys|);
    MembersTrichotomy(xs, ys);
  }

  /** The same for arrays, by the number of their items. */
  lemma {:induction false} ArraysUnorderedExactly(xs: seq<Slot>, ys: seq<Slot>)
    requires SlotsDomain(xs) && SlotsDomain(ys)
    ensures RealFree(Array(xs)) && RealFree(Array(ys))
    ensures Less(Array(xs), Array(ys)) && Less(Array(ys), Array(xs)) <==>
      (CountItems(xs) - CountItems(ys)) % 0x1_0000_0000 == 0x8000_0000
  {
    hide LessSlots, CountItems;
    DifferenceWraps(CountItems(xs) - CountItems(ys));
    SlotsTrichotomy(xs, ys);
  }

  function Nulls(n: nat): (xs: seq<Slot>)
    ensures |xs| == n && forall k :: 0 <= k < n ==> xs[k] == Item(Null)
  {
    seq(n, _ => Item(Null))
  }

  lemma {:induction false} CountAll(xs: seq<Slot>)
    requires forall k :: 0 <= k < |xs| ==> xs[k].Item?
    ensures CountItems(xs) == |xs|
  {
    if xs != [] { CountAll(xs[1..]); }
  }

  /** Two such arrays: 2^31 nulls, and none. */
  lemma HugeArrayIsUnordered()
    ensures RealFree(Array(Nulls(0x8000_0000))) && RealFree(Array([]))
    ensures Less(Array(Nulls(0x8000_0000)), Array([])) && Less(Array([]), Array(Nulls(0x8000_0000)))
  {
    hide CountItems, Less;
    CountAll(Nulls(0x8000_0000));
    CountAll([]);
    ArraysUnorderedExactly(Nulls(0x8000_0000), []);
  }

  // ---------------------------------------------------------------- where transitivity fails

  const LOWEST := -0x8000_0000

  /** Two wrapped differences that are not positive, and the wrapped difference of the ends: it is
      their sum, unless that is too low for an int. */
  lemma WrappedSum(x: int, y: int, z: int)
    requires ToInt32(x - y) <= 0 && ToInt32(y - z) <= 0
    ensures var d, e := ToInt32(x - y), ToInt32(y - z);
      ToInt32(x - z) == if d + e >= LOWEST then d + e else d + e + 0x1_0000_0000
  {
  }

  /** For arrays of any size with a < b and b < c: a < c holds exactly when the sum of the two
      wrapped size differences is an int. If both are the lowest int their sum wraps to 0, and
      then the items decide. */
  lemma {:induction false} ArraysTransitiveExactly(xs: seq<Slot>, ys: seq<Slot>, zs: seq<Slot>)
    requires SlotsDomain(xs) && SlotsDomain(ys) && SlotsDomain(zs)
    requires Less(Array(xs), Array(ys)) && Less(Array(ys), Array(zs))
    ensures var d := ToInt32(CountItems(xs) - CountItems(ys));
      var e := ToInt32(CountItems(ys) - CountItems(zs));
      Less(Array(xs), Array(zs)) <==> if d == e == LOWEST then LessSlots(xs, zs) else d + e >= LOWEST
  {
    hide CountItems, LessSlots, ToInt32;
    WrappedSum(CountItems(xs), CountItems(ys), CountItems(zs));
    ToInt32Range(CountItems(xs) - CountItems(ys));
    if LessSlots(xs, ys) && LessSlots(ys, zs) { SlotsTransitive(xs, ys, zs); }
  }

  lemma ToInt32Range(d: int)
    ensures LOWEST <= ToInt32(d) <= 0x7FFF_FFFF
  {
  }

  /** The same for objects, by the number of their members. */
  lemma {:induction false} ObjectsTransitiveExactly(xs: seq<Member>, ys: seq<Member>, zs: seq<Member>)
    requires MembersDomain(xs) && MembersDomain(ys) && MembersDomain(zs)
    requires Less(Object(xs), Object(ys)) && Less(Object(ys), Object(zs))
    ensures var d, e := ToInt32(|xs| - |ys|), ToInt32(|ys| - |zs|);
      Less(Object(xs), Object(zs)) <==> if d == e == LOWEST then LessMembers(xs, zs) else d + e >= LOWEST
  {
    hide LessMembers, ToInt32;
    WrappedSum(|xs|, |ys|, |zs|);
    ToInt32Range(|xs| - |ys|);
    if LessMembers(xs, ys) && LessMembers(ys, zs) { MembersTransitive(xs, ys, zs); }
  }

  /** Three arrays that go round in a circle, though no two of their sizes differ by 2^31. */
  lemma {:induction false} ArraysInACircle()
    ensures var a, b, c := Array(Nulls(0)), Array(Nulls(1610612736)), Array(Nulls(3221225472));
      RealFree(a) && RealFree(b) && RealFree(c) && Less(a, b) && Less(b, c) && Less(c, a)
  {
    hide CountItems, LessSlots, Nulls;
    CountAll(Nulls(0));
    CountAll(Nulls(1610612736));
    CountAll(Nulls(3221225472));
  }

  // ---------------------------------------------------------------- which of two values is less

  /** Values of different types: null, negative and small integers, large integers, reals, strings,
      booleans, arrays, objects. Integers go by their number, false is less than true, and strings go
      by their bytes. */
  lemma {:induction false} ScalarsInOrder(a: Value, b: Value)
    requires RealFree(a) && RealFree(b)
    ensures TypeOf(a) != TypeOf(b) ==> (Less(a, b) <==> TypeOf(a) < TypeOf(b))
    ensures a.Int? && b.Int? ==> (Less(a, b) <==> a.i < b.i)
    ensures a.UInt? && b.UInt? ==> (Less(a, b) <==> a.u < b.u)
    ensures a.Bool? && b.Bool? ==> (Less(a, b) <==> !a.b && b.b)
    ensures a.Str? && b.Str? ==> (Less(a, b) <==> KeyLess(a.s, b.s))
    ensures a.NullString? && b.Str? ==> Less(a, b) && !Less(b, a)
  {
    hide KeyLess, LessSlots, LessMembers;
  }

  /** The shorter container is the lesser one. */
  lemma {:induction false} ShorterIsLess(a: Value, b: Value)
    requires RealFree(a) && RealFree(b)
    ensures a.Array? && b.Array? && 0 < CountItems(b.slots) - CountItems(a.slots) < 0x8000_0000 ==>
      Less(a, b) && !Less(b, a)
    ensures a.Object? && b.Object? && 0 < |b.members| - |a.members| < 0x8000_0000 ==> Less(a, b) && !Less(b, a)
  {
    hide LessSlots, LessMembers, CountItems;
  }

  lemma {:induction false} CountDense(xs: seq<Slot>)
    requires forall k :: 0 <= k < |xs| ==> xs[k].Item?
    ensures CountItems(xs) == |xs|
  {
    if xs != [] { CountDense(xs[1..]); }
  }

  lemma {:induction false} LessAtSlot(xs: seq<Slot>, ys: seq<Slot>, k: nat)
    requires RealFree(Array(xs)) && RealFree(Array(ys)) && k < |xs| == |ys| && xs[..k] == ys[..k]
    requires forall j :: 0 <= j < |xs| ==> xs[j].Item? && ys[j].Item?
    requires forall j :: 0 <= j < k ==> !Less(xs[j].item, xs[j].item)
    requires Less(xs[k].item, ys[k].item)
    ensures LessSlots(xs, ys)
    decreases k
  {
    hide Less;
    CountDense(xs);
    CountDense(ys);
    if k > 0 {
      assert xs[0] == xs[..k][0] == ys[..k][0] == ys[0];
      assert xs[1..][..k - 1] == xs[..k][1..] && ys[1..][..k - 1] == ys[..k][1..];
      LessAtSlot(xs[1..], ys[1..], k - 1);
    }
  }

  /** Of two arrays of the same length without holes the first items that differ decide. */
  lemma {:induction false} FirstItemDecides(xs: seq<Slot>, ys: seq<Slot>, k: nat)
    requires RealFree(Array(xs)) && RealFree(Array(ys)) && k < |xs| == |ys| && xs[..k] == ys[..k]
    requires forall j :: 0 <= j < |xs| ==> xs[j].Item? && ys[j].Item?
    requires forall j :: 0 <= j < k ==> Domain(xs[j].item)
    requires Less(xs[k].item, ys[k].item)
    ensures Less(Array(xs), Array(ys))
  {
    hide LessSlots, Domain;
    forall j | 0 <= j < k ensures !Less(xs[j].item, xs[j].item) { Trichotomy(xs[j].item, xs[j].item); }
    LessAtSlot(xs, ys, k);
    CountDense(xs);
    CountDense(ys);
    SameSize(Array(xs), Array(ys));
  }

  lemma {:induction false} SameSize(a: Value, b: Value)
    requires RealFree(a) && RealFree(b)
    ensures a.Array? && b.Array? && CountItems(a.slots) == CountItems(b.slots) ==> (Less(a, b) <==> LessSlots(a.slots, b.slots))
    ensures a.Object? && b.Object? && |a.members| == |b.members| ==> (Less(a, b) <==> LessMembers(a.members, b.members))
  {
    hide LessSlots, LessMembers, CountItems;
  }

  lemma {:induction false} LessAtMember(xs: seq<Member>, ys: seq<Member>, k: nat)
    requires RealFree(Object(xs)) && RealFree(Object(ys)) && k < |xs| == |ys| && xs[..k] == ys[..k]
    requires forall j :: 0 <= j < k ==> !Less(xs[j].item, xs[j].item) && !KeyLess(xs[j].name, xs[j].name)
    requires KeyLess(xs[k].name, ys[k].name) || (xs[k].name == ys[k].name && Less(xs[k].item, ys[k].item))
    requires !KeyLess(xs[k].name, xs[k].name)
    ensures LessMembers(xs, ys)
    decreases k
  {
    hide Less, KeyLess;
    if k > 0 {
      assert xs[0] == xs[..k][0] == ys[..k][0] == ys[0];
      assert xs[1..][..k - 1] == xs[..k][1..] && ys[1..][..k - 1] == ys[..k][1..];
      LessAtMember(xs[1..], ys[1..], k - 1);
    }
  }

  /** Of two objects of the same size the first members that differ decide, by name and then by value. */
  lemma {:induction false} FirstMemberDecides(xs: seq<Member>, ys: seq<Member>, k: nat)
    requires RealFree(Object(xs)) && RealFree(Object(ys)) && k < |xs| == |ys| && xs[..k] == ys[..k]
    requires forall j :: 0 <= j < k ==> Domain(xs[j].item)
    requires KeyLess(xs[k].name, ys[k].name) || (xs[k].name == ys[k].name && Less(xs[k].item, ys[k].item))
    ensures Less(Object(xs), Object(ys))
  {
    hide LessMembers, Domain, KeyLess, Less;
    forall j | 0 <= j < k ensures !Less(xs[j].item, xs[j].item) { Trichotomy(xs[j].item, xs[j].item); }
    forall j | 0 <= j <= k ensures !KeyLess(xs[j].name, xs[j].name) { KeyTrichotomy(xs[j].name, xs[j].name); }
    LessAtMember(xs, ys, k);
    SameSize(Object(xs), Object(ys));
  }
}
