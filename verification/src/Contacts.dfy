/** The contact store of BitMail: a map from contact to attributes that is kept as JSON text. */
module Contacts {
  import opened Answers
  import opened Bytes
  import opened JsonValue
  import opened JsonLexer
  import opened JsonText
  import opened JsonParse
  import opened JsonRoundTrip
  import opened JsonReadBack
  import opened JsonReader
  import opened JsonWriter
  import opened JsonCodec
  import opened JsonSettled
  import opened Sections

  type Attributes = map<bytes, bytes>
  type Book = map<bytes, Attributes>

  const EMPTY_OBJECT: bytes := [LBRACE, RBRACE]

  // ---------------------------------------------------------------- texts and values

  /** Json::Reader().parse(text, value) with a fresh value. */
  function Load(text: bytes, isDouble: bytes -> bool): Result {
    Parse(Input(text, true, false, isDouble), Null)
  }

  /** Value::toStyledString. */
  function Save(v: Value): bytes {
    Styled(v, 0) + [LF]
  }

  /** v with `item` stored under the part of `key` before its first NUL. */
  function Put(v: Value, key: bytes, item: Value): Value {
    Object(Store(Members(v), UptoNul(key), item))
  }

  /** A value with at most d levels that the text of StyledWriter carries without a change. */
  ghost predicate Carried(v: Value, d: int) {
    WellFormed(v) && Printable(v) && NamesNulFree(v) && Retagged(v) == v && Depth(v) <= d
  }

  /** The text does not parse, or it gives a value that survives printing, with a level to
      spare for the object Export puts it into. */
  ghost predicate ValidText(text: bytes, isDouble: bytes -> bool) {
    var r := Load(text, isDouble);
    r.status == Bad || (r.status == Good && Carried(r.v, STACK_LIMIT - 1))
  }

  /** The text written for a value, read back. */
  lemma {:induction false} SavedText(v: Value, isDouble: bytes -> bool)
    requires WellFormed(v) && Printable(v) && Depth(v) <= STACK_LIMIT - 1
    ensures var r := Load(Save(v), isDouble);
      r.status == Good && r.v == Norm(v, UptoNul) && Carried(r.v, STACK_LIMIT - 1)
  {
    hide Parse, Norm, Styled, Depth, Settled, Printable, WellFormed, NamesNulFree, Retagged;
    var inp := Input(Save(v), true, false, isDouble);
    StyledRoundTrip(inp, Null, v);
    ParseSettles(inp, Null);
    NormSettles(v, UptoNul, STACK_LIMIT - 1);
    SettledFacts(Norm(v, UptoNul), STACK_LIMIT - 1);
    NormIsNulFree(v);
  }

  lemma {:induction false} CarriedIsNormal(v: Value, d: int)
    requires Carried(v, d)
    ensures Norm(v, UptoNul) == v
  {
    hide WellFormed, Printable, NamesNulFree, Retagged, Norm, Depth;
    UptoNulIsFaithful();
    NormIsRetagged(v, UptoNul);
  }

  lemma CarriedMembers(v: Value, d: int)
    requires Carried(v, d) && v.Object?
    ensures Kept(v.members) && PrintableMembers(v.members) && MembersDepth(v.members) <= d - 1
  {
  }

  lemma {:induction false} MembersCarried(ms: seq<Member>, d: int)
    requires Kept(ms) && PrintableMembers(ms) && MembersDepth(ms) <= d - 1
    ensures Carried(Object(ms), d)
  {
  }

  lemma NoMembers()
    ensures Kept([]) && PrintableMembers([]) && MembersDepth([]) == 0
    ensures Norm(Object([]), UptoNul) == Object([])
  {
  }

  /** A member of a carried object is carried. */
  lemma {:induction false} FindCarried(ms: seq<Member>, key: bytes, d: int)
    requires Kept(ms) && PrintableMembers(ms) && MembersDepth(ms) <= d && IsMember(ms, key)
    ensures Carried(Find(ms, key).item, d)
  {
    hide Depth, WellFormed, Printable, NamesNulFree, Retagged, NulFree, Sorted;
    if ms[0].name == key {
      assert RetaggedMembers(ms)[0].item == Retagged(ms[0].item);
    } else {
      KeptTail(ms);
      FindCarried(ms[1..], key, d);
    }
  }

  /** Storing `item` under `key`, saving the text and loading it again: the normal form of the
      item is found under the part of the key before its first NUL, and nothing else changes. */
  lemma {:induction false} StoredText(v: Value, key: bytes, item: Value, isDouble: bytes -> bool)
    requires Carried(v, STACK_LIMIT - 1) && MapLike(v)
    requires WellFormed(item) && Printable(item) && Depth(item) <= STACK_LIMIT - 2
    ensures var w := Object(Store(Members(v), key, item));
      && WellFormed(w) && Printable(w)
      && Load(Save(w), isDouble).status == Good
      && Load(Save(w), isDouble).v == Put(v, key, Norm(item, UptoNul))
      && ValidText(Save(w), isDouble)
  {
    hide Load, Save, Norm, Store, Kept, Carried, WellFormed, Sorted;
    var ms := Members(v);
    NoMembers();
    if v.Object? { CarriedMembers(v, STACK_LIMIT - 1); }
    StoredObject(ms, key, item, STACK_LIMIT - 2);
    SavedText(Object(Store(ms, key, item)), isDouble);
  }

  lemma {:induction false} StoredObject(ms: seq<Member>, key: bytes, item: Value, d: nat)
    requires Kept(ms) && PrintableMembers(ms) && MembersDepth(ms) <= d
    requires WellFormed(item) && Printable(item) && Depth(item) <= d
    ensures var w := Object(Store(ms, key, item));
      WellFormed(w) && Printable(w) && Depth(w) <= d + 1
      && Norm(w, UptoNul) == Object(Store(ms, UptoNul(key), Norm(item, UptoNul)))
  {
    hide Store, NormMembers, Norm;
    StoreWellFormed(ms, key, item);
    hide WellFormed, Sorted;
    StorePrintable(ms, key, item);
    StoreDepth(ms, key, item);
    assert [] + ms == ms;
    NormOfStore([], ms, key, item);
    NormOfObject(Store(ms, key, item));
  }

  lemma {:induction false} NormOfObject(ms: seq<Member>)
    ensures Norm(Object(ms), UptoNul) == Object(NormMembers([], ms, UptoNul))
  {
    hide NormMembers;
  }

  /** The text of a member of a member, empty when one of them is missing. */
  function AttributeAt(v: Value, key: bytes, a: bytes, outside: Outside): Answer<bytes> {
    if !MapLike(v) then Throws
    else if !IsMember(Members(v), key) then Gives([])
    else
      var contact := Find(Members(v), key).item;
      if !MapLike(contact) then Throws
      else if !IsMember(Members(contact), a) then Gives([])
      else TextOf(Find(Members(contact), a).item, outside)
  }

  // ---------------------------------------------------------------- the book a value stands for

  /** An object whose members are all strings. */
  ghost predicate IsContact(v: Value) {
    v.Object? && forall a :: a in ToMap(v.members) ==> ToMap(v.members)[a].Str?
  }

  ghost function AttributesOf(v: Value): Attributes
    requires IsContact(v)
  {
    map a | a in ToMap(v.members) :: ToMap(v.members)[a].s
  }

  /** An object of objects of strings, or null, which reads as an empty object. */
  ghost predicate IsBook(v: Value) {
    MapLike(v) && forall k :: k in ToMap(Members(v)) ==> IsContact(ToMap(Members(v))[k])
  }

  ghost function BookOf(v: Value): Book
    requires IsBook(v)
  {
    map k | k in ToMap(Members(v)) :: AttributesOf(ToMap(Members(v))[k])
  }

  lemma EmptyContact()
    ensures IsContact(Object([])) && AttributesOf(Object([])) == map[]
  {
  }

  lemma BookIsMapLike(v: Value)
    ensures IsBook(v) ==> MapLike(v)
  {
  }

  lemma {:induction false} BookFind(v: Value, key: bytes)
    requires IsBook(v)
    ensures IsMember(Members(v), key) <==> key in BookOf(v)
    ensures key in BookOf(v) ==>
      IsContact(Find(Members(v), key).item) && AttributesOf(Find(Members(v), key).item) == BookOf(v)[key]
  {
    hide Find;
    FindIsLookup(Members(v), key);
  }

  lemma {:induction false} AttributeFind(v: Value, a: bytes)
    requires IsContact(v)
    ensures IsMember(v.members, a) <==> a in AttributesOf(v)
    ensures a in AttributesOf(v) ==> Find(v.members, a) == Item(Str(AttributesOf(v)[a]))
  {
    hide Find;
    FindIsLookup(v.members, a);
  }

  lemma {:induction false} BookPut(v: Value, key: bytes, contact: Value)
    requires IsBook(v) && IsContact(contact)
    ensures IsBook(Put(v, key, contact))
    ensures BookOf(Put(v, key, contact)) == BookOf(v)[UptoNul(key) := AttributesOf(contact)]
  {
    hide Store, ToMap, UptoNul;
    StoreIsUpdate(Members(v), UptoNul(key), contact);
  }

  lemma {:induction false} AttributePut(v: Value, a: bytes, s: bytes)
    requires IsContact(v)
    ensures IsContact(Put(v, a, Str(s))) && AttributesOf(Put(v, a, Str(s))) == AttributesOf(v)[UptoNul(a) := s]
  {
    hide Store, ToMap, UptoNul;
    StoreIsUpdate(v.members, UptoNul(a), Str(s));
  }

  lemma {:induction false} BookRemove(v: Value, key: bytes)
    requires IsBook(v) && Sorted(Members(v))
    ensures IsBook(Object(Remove(Members(v), key)))
    ensures BookOf(Object(Remove(Members(v), key))) == BookOf(v) - {key}
  {
    hide Remove, ToMap;
    RemoveIsDelete(Members(v), key);
  }

  /** What addContact writes. */
  lemma {:induction false} AddedText(v: Value, key: bytes, isDouble: bytes -> bool)
    requires Carried(v, STACK_LIMIT - 1) && MapLike(v)
    ensures var w := Object(Store(Members(v), key, Object([])));
      && WellFormed(w) && Printable(w) && ValidText(Save(w), isDouble)
      && Load(Save(w), isDouble).status == Good && Load(Save(w), isDouble).v == Put(v, key, Object([]))
    ensures IsBook(v) ==>
      (IsBook(Put(v, key, Object([]))) && BookOf(Put(v, key, Object([]))) == BookOf(v)[UptoNul(key) := map[]])
  {
    hide Load, Carried, Save, Store, IsBook, BookOf, IsContact, AttributesOf, ValidText;
    EmptyContact();
    NoMembers();
    StoredText(v, key, Object([]), isDouble);
    if IsBook(v) { BookPut(v, key, Object([])); }
  }

  /** What contattrib writes: the contact as it was fetched under `key`, or an empty one, with
      the attribute set, is stored under the part of the key before its first NUL. */
  lemma {:induction false} AttributeText(v: Value, key: bytes, a: bytes, s: bytes, isDouble: bytes -> bool)
    requires Carried(v, STACK_LIMIT - 1) && MapLike(v) && MapLike(Fetched(v, key))
    ensures var contact := Object(Store(Members(Fetched(v, key)), a, Str(s)));
      var w := Object(Store(Members(v), key, contact));
      && WellFormed(w) && Printable(w) && ValidText(Save(w), isDouble)
      && Load(Save(w), isDouble).status == Good
      && Load(Save(w), isDouble).v == Put(v, key, Put(Fetched(v, key), a, Str(s)))
  {
    hide Load, Carried, Save, Store, ValidText, Kept, Norm, WellFormed, Sorted;
    NoMembers();
    var base := Fetched(v, key);
    if v.Object? {
      CarriedMembers(v, STACK_LIMIT - 1);
      FetchedIsCarried(v, key);
      if base.Object? { CarriedMembers(base, STACK_LIMIT - 2); }
    }
    ScalarIsNormal(s);
    StoredObject(Members(base), a, Str(s), STACK_LIMIT - 3);
    StoredText(v, key, Object(Store(Members(base), a, Str(s))), isDouble);
  }

  lemma ScalarIsNormal(s: bytes)
    ensures WellFormed(Str(s)) && Printable(Str(s)) && Depth(Str(s)) == 1 && Norm(Str(s), UptoNul) == Str(s)
  {
  }

  /** contacts[emails] if there is such a contact, and an empty one otherwise. */
  function Fetched(v: Value, key: bytes): Value {
    if IsMember(Members(v), key) then Find(Members(v), key).item else Object([])
  }

  lemma FetchedIsCarried(v: Value, key: bytes)
    requires Carried(v, STACK_LIMIT - 1) && v.Object?
    ensures Carried(Fetched(v, key), STACK_LIMIT - 2)
  {
    hide Carried, Kept, Find;
    CarriedMembers(v, STACK_LIMIT - 1);
    NoMembers();
    MembersCarried([], STACK_LIMIT - 2);
    if IsMember(Members(v), key) { FindCarried(v.members, key, STACK_LIMIT - 2); }
  }

  /** Setting one attribute of a book. */
  ghost function WithAttribute(book: Book, key: bytes, a: bytes, s: bytes): Book {
    var base: Attributes := if key in book then book[key] else map[];
    book[UptoNul(key) := base[UptoNul(a) := s]]
  }

  lemma AttributeOfBook(v: Value, key: bytes, a: bytes, s: bytes)
    requires IsBook(v)
    ensures MapLike(Fetched(v, key))
    ensures var w := Put(v, key, Put(Fetched(v, key), a, Str(s)));
      IsBook(w) && BookOf(w) == WithAttribute(BookOf(v), key, a, s)
  {
    hide IsBook, BookOf, AttributesOf, Store, Find, ToMap;
    EmptyContact();
    BookFind(v, key);
    AttributePut(Fetched(v, key), a, s);
    BookPut(v, key, Put(Fetched(v, key), a, Str(s)));
  }

  lemma {:induction false} RemovedText(v: Value, key: bytes, isDouble: bytes -> bool)
    requires Carried(v, STACK_LIMIT - 1) && v.Object?
    ensures var w := Object(Remove(v.members, key));
      && WellFormed(w) && Printable(w)
      && Load(Save(w), isDouble).status == Good && Load(Save(w), isDouble).v == w
      && ValidText(Save(w), isDouble)
  {
    hide Load, Save, Norm, Remove, Carried, Kept;
    CarriedMembers(v, STACK_LIMIT - 1);
    RemoveKept(v.members, key, STACK_LIMIT - 2);
    MembersCarried(Remove(v.members, key), STACK_LIMIT - 1);
    CarriedText(Object(Remove(v.members, key)), isDouble);
  }

  lemma {:induction false} CarriedText(v: Value, isDouble: bytes -> bool)
    requires Carried(v, STACK_LIMIT - 1)
    ensures WellFormed(v) && Printable(v)
    ensures Load(Save(v), isDouble).status == Good && Load(Save(v), isDouble).v == v
    ensures ValidText(Save(v), isDouble)
  {
    hide Load, Save, Norm, WellFormed, Printable, NamesNulFree, Retagged, Depth;
    CarriedIsNormal(v, STACK_LIMIT - 1);
    SavedText(v, isDouble);
  }

  lemma {:induction false} RemoveKept(ms: seq<Member>, key: bytes, d: int)
    requires Kept(ms) && PrintableMembers(ms) && MembersDepth(ms) <= d
    ensures var r := Remove(ms, key);
      Kept(r) && PrintableMembers(r) && MembersDepth(r) <= d
  {
    hide Depth, WellFormed, Printable, NamesNulFree, Retagged, NulFree, Sorted;
    if ms != [] {
      KeptTail(ms);
      RemoveKept(ms[1..], key, d);
      if ms[0].name != key {
        var rest := Remove(ms[1..], key);
        assert ([ms[0]] + rest)[1..] == rest;
        RemoveSorted(ms, key);
      }
    }
  }

  lemma EmptyTextFails(isDouble: bytes -> bool)
    ensures Load([], isDouble).status == Bad
  {
    assert SkipComments([], 0) == ReadToken([], 0) == Token(EndOfStream, 0, 0);
  }

  lemma EmptyObjectLoads(isDouble: bytes -> bool)
    ensures Load(EMPTY_OBJECT, isDouble).status == Good && Load(EMPTY_OBJECT, isDouble).v == Object([])
  {
    hide Parse, Reads, After, ReadToken;
    var v := Object([]);
    assert Flat(v) == EMPTY_OBJECT;
    assert EMPTY_OBJECT[0..2] == EMPTY_OBJECT;
    SpellsEmpty(EMPTY_OBJECT, 0, v, Whole);
    ParseSpelled(Input(EMPTY_OBJECT, true, false, isDouble), Null, v, Whole);
  }

  // ---------------------------------------------------------------- the store

  /** Class BitMail as far as its contacts and its export go. */
  class BitMail {
    const isDouble: bytes -> bool
    const outside: Outside
    var contacts: bytes
    var settings: Settings

    constructor (isDouble: bytes -> bool, outside: Outside)
      ensures this.isDouble == isDouble && this.outside == outside && contacts == [] && Valid() && !Loaded()
    {
      this.isDouble, this.outside := isDouble, outside;
      contacts := [];
      settings := Settings(Profile([], [], []), Network([], [], [], [], []), Block(false, false, false));
      EmptyTextFails(isDouble);
    }

    ghost predicate Valid()
      reads this
    {
      ValidText(contacts, isDouble) && IsConfigured(settings.net)
    }

    /** The contacts parse. */
    ghost predicate Loaded()
      reads this
    {
      Load(contacts, isDouble).status == Good
    }

    /** What they parse to. */
    ghost function Stored(): Value
      reads this
    {
      Load(contacts, isDouble).v
    }

    ghost predicate HasBook()
      reads this
    {
      Loaded() && IsBook(Stored())
    }

    ghost function Book(): Book
      reads this
      requires HasBook()
    {
      BookOf(Stored())
    }

    /** reader.parse(contacts_, contacts) */
    method ParseContacts(reader: Reader) returns (ok: bool, v: Value)
      requires Valid() && reader.allowComments && !reader.strictRoot && reader.isDouble == isDouble
      modifies reader
      ensures ok == Loaded() && (ok ==> v == Stored() && Carried(v, STACK_LIMIT - 1))
    {
      hide Parse, Carried;
      var status;
      status, v := reader.Parse(contacts, Null);
      ok := status == Good;
    }

    /** contacts_ = value.toStyledString() */
    method SaveContacts(v: Value)
      requires WellFormed(v) && Printable(v)
      modifies `contacts
      ensures contacts == Save(v)
    {
      contacts := ToStyledString(v);
    }

    /** The names of the contacts, in order. */
    method ContactNames() returns (r: Answer<seq<bytes>>)
      requires Valid()
      ensures r == if !Loaded() then Gives([]) else if MapLike(Stored()) then Gives(Names(Members(Stored()))) else Throws
      ensures HasBook() ==>
        (r.Gives? && (forall n :: n in r.value <==> n in Book())
         && (forall j, k :: 0 <= j < k < |r.value| ==> KeyLess(r.value[j], r.value[k])))
    {
      hide Load, Carried, KeyLess;
      var reader := new Reader(true, false, isDouble);
      var ok, v := ParseContacts(reader);
      if !ok { return Gives([]); }
      BookIsMapLike(v);
      if !MapLike(v) { return Throws; }
      NamesOfBook(v);
      return Gives(Names(Members(v)));
    }

    lemma NamesOfBook(v: Value)
      requires MapLike(v) && Carried(v, STACK_LIMIT - 1)
      ensures Sorted(Members(v))
      ensures IsBook(v) ==> forall n :: n in Names(Members(v)) <==> n in BookOf(v)
    {
      hide KeyLess, Printable, NamesNulFree, Retagged, Depth;
      KeysOfMap(Members(v));
      if IsBook(v) {
        forall n ensures n in Names(Members(v)) <==> n in BookOf(v) {
          if n in Names(Members(v)) { var k :| 0 <= k < |Members(v)| && Names(Members(v))[k] == n; }
          if n in BookOf(v) {
            var k :| 0 <= k < |Members(v)| && Members(v)[k].name == n;
            assert Names(Members(v))[k] == n;
          }
        }
      }
    }

    method AddContact(emails: bytes) returns (r: Answer<bool>)
      requires Valid()
      modifies `contacts
      ensures Valid()
      ensures emails == [] || !old(Loaded()) ==> r == Gives(false) && contacts == old(contacts)
      ensures emails != [] && old(Loaded()) && !MapLike(old(Stored())) ==> r == Throws && contacts == old(contacts)
      ensures emails != [] && old(Loaded()) && MapLike(old(Stored())) ==>
        (r == Gives(true)
         && if IsMember(Members(old(Stored())), emails) then contacts == old(contacts)
            else Loaded() && Stored() == Put(old(Stored()), emails, Object([])))
      ensures emails != [] && old(HasBook()) ==>
        (HasBook()
         && Book() == if emails in old(Book()) then old(Book()) else old(Book())[UptoNul(emails) := map[]])
    {
      hide Load, Carried, Save, Store, IsBook, BookOf, IsContact, AttributesOf, ValidText, WellFormed, Printable;
      if emails == [] { return Gives(false); }
      var reader := new Reader(true, false, isDouble);
      var ok, v := ParseContacts(reader);
      if !ok { return Gives(false); }
      BookIsMapLike(v);
      if !MapLike(v) { return Throws; }
      if IsBook(v) { BookFind(v, emails); }
      if IsMember(Members(v), emails) { return Gives(true); }
      var contact := EmptyContactValue(reader);
      AddedText(v, emails, isDouble);
      SaveContacts(Object(Store(Members(v), emails, contact)));
      return Gives(true);
    }

    /** Json::Value contact; reader.parse("{}", contact); */
    method EmptyContactValue(reader: Reader) returns (contact: Value)
      requires reader.allowComments && !reader.strictRoot && reader.isDouble == isDouble
      modifies reader
      ensures contact == Object([]) && WellFormed(contact) && Printable(contact) && Depth(contact) == 1
    {
      hide Parse;
      EmptyObjectLoads(isDouble);
      var status;
      status, contact := reader.Parse(EMPTY_OBJECT, Null);
    }

    method HasContact(emails: bytes) returns (r: Answer<bool>)
      requires Valid()
      ensures r == if !Loaded() then Gives(false)
        else if MapLike(Stored()) then Gives(IsMember(Members(Stored()), emails)) else Throws
      ensures HasBook() ==> r == Gives(emails in Book())
    {
      hide Load, Carried, IsBook, BookOf;
      var reader := new Reader(true, false, isDouble);
      var ok, v := ParseContacts(reader);
      if !ok { return Gives(false); }
      BookIsMapLike(v);
      if !MapLike(v) { return Throws; }
      if IsBook(v) { BookFind(v, emails); }
      return Gives(IsMember(Members(v), emails));
    }

    /** A contact whose value is null cannot be removed; a book has none. */
    method RemoveContact(emails: bytes) returns (r: Answer<bool>)
      requires Valid()
      modifies `contacts
      ensures Valid()
      ensures !old(Loaded()) ==> r == Gives(false) && contacts == old(contacts)
      ensures old(Loaded()) && !MapLike(old(Stored())) ==> r == Throws && contacts == old(contacts)
      ensures old(Loaded()) && MapLike(old(Stored())) ==>
        (var found := Find(Members(old(Stored())), emails);
         if found.Hole? then r == Gives(true) && contacts == old(contacts)
         else if found.item.Null? then r == Gives(false) && contacts == old(contacts)
         else r == Gives(true) && Loaded() && Stored() == Object(Remove(Members(old(Stored())), emails)))
      ensures old(HasBook()) ==> r == Gives(true) && HasBook() && Book() == old(Book()) - {emails}
    {
      hide Load, Carried, Save, Remove, IsBook, BookOf, IsContact, AttributesOf, ValidText, WellFormed, Printable, Sorted, Find;
      var reader := new Reader(true, false, isDouble);
      var ok, v := ParseContacts(reader);
      if !ok { return Gives(false); }
      BookIsMapLike(v);
      if !MapLike(v) { return Throws; }
      if IsBook(v) { BookFind(v, emails); }
      if !IsMember(Members(v), emails) { return Gives(true); }
      NameIsNulFree(v, emails);
      var removed := SlotValue(Find(Members(v), UptoNul(emails)));
      var rest := Object(Remove(Members(v), UptoNul(emails)));
      if removed.Null? {
        if IsBook(v) { NullIsNoContact(removed); }
        return Gives(false);
      }
      RemovedText(v, emails, isDouble);
      if IsBook(v) { BookRemove(v, emails); }
      SaveContacts(rest);
      return Gives(true);
    }

    lemma NullIsNoContact(v: Value)
      requires v.Null?
      ensures !IsContact(v)
    {
    }

    lemma {:induction false} NameIsNulFree(v: Value, key: bytes)
      requires Carried(v, STACK_LIMIT - 1) && v.Object? && IsMember(v.members, key)
      ensures UptoNul(key) == key && Sorted(v.members)
    {
      hide WellFormed, Printable, NamesNulFree, Retagged, Depth, Sorted, Kept, Find;
      CarriedMembers(v, STACK_LIMIT - 1);
      FoundNameIsNulFree(v.members, key);
    }

    lemma {:induction false} FoundNameIsNulFree(ms: seq<Member>, key: bytes)
      requires Kept(ms) && IsMember(ms, key)
      ensures UptoNul(key) == key && Sorted(ms)
    {
      hide WellFormed, NamesNulFree, Retagged, NulFree, Sorted;
      UptoNulOfNulFree(key);
      if ms[0].name != key {
        KeptTail(ms);
        FoundNameIsNulFree(ms[1..], key);
      }
    }

    /** Value::asString */
    method AsString(v: Value) returns (r: Answer<bytes>)
      ensures r == TextOf(v, outside)
    {
      if v.Str? { return Gives(v.s); }
      if v.Null? || v.NullString? { return Gives([]); }
      if v.Bool? { return Gives(if v.b then TRUE_TEXT else FALSE_TEXT); }
      if v.Int? { var text := ValueToString(v.i); return Gives(text); }
      if v.UInt? { var text := ValueToString(v.u); return Gives(text); }
      if v.Real? { return Gives(outside.showDouble(v.text)); }
      return Throws;
    }

    /** contattrib(emails, att_name) */
    method GetAttribute(emails: bytes, attName: bytes) returns (r: Answer<bytes>)
      requires Valid()
      ensures r == if emails == [] || attName == [] || !Loaded() then Gives([])
                   else AttributeAt(Stored(), emails, attName, outside)
      ensures HasBook() && emails != [] && attName != [] ==>
        r == Gives(if emails in Book() && attName in Book()[emails] then Book()[emails][attName] else [])
    {
      hide Load, Carried, IsBook, BookOf, IsContact, AttributesOf, Find;
      if emails == [] || attName == [] { return Gives([]); }
      var reader := new Reader(true, false, isDouble);
      var ok, v := ParseContacts(reader);
      if !ok { return Gives([]); }
      BookIsMapLike(v);
      if !MapLike(v) { return Throws; }
      if IsBook(v) { BookFind(v, emails); }
      if !IsMember(Members(v), emails) { return Gives([]); }
      var contact := SlotValue(Find(Members(v), emails));
      if IsBook(v) { ContactIsObject(contact); AttributeFind(contact, attName); }
      if !MapLike(contact) { return Throws; }
      if !IsMember(Members(contact), attName) { return Gives([]); }
      var att := SlotValue(Find(Members(contact), attName));
      r := AsString(att);
    }

    lemma ContactIsObject(v: Value)
      requires IsContact(v)
      ensures v.Object?
    {
    }

    /** contattrib(emails, att_name, att_value) */
    method SetAttribute(emails: bytes, attName: bytes, attValue: bytes) returns (r: Answer<bool>)
      requires Valid()
      modifies `contacts
      ensures Valid()
      ensures emails == [] || attName == [] || !old(Loaded()) ==> r == Gives(false) && contacts == old(contacts)
      ensures emails != [] && attName != [] && old(Loaded()) ==>
        if MapLike(old(Stored())) && MapLike(Fetched(old(Stored()), emails)) then
          r == Gives(true) && Loaded()
          && Stored() == Put(old(Stored()), emails, Put(Fetched(old(Stored()), emails), attName, Str(attValue)))
        else r == Throws && contacts == old(contacts)
      ensures emails != [] && attName != [] && old(HasBook()) ==>
        HasBook() && Book() == WithAttribute(old(Book()), emails, attName, attValue)
    {
      hide Load, Carried, Save, Store, IsBook, BookOf, WithAttribute, ValidText, WellFormed, Printable, Find;
      if emails == [] || attName == [] { return Gives(false); }
      var reader := new Reader(true, false, isDouble);
      var ok, v := ParseContacts(reader);
      if !ok { return Gives(false); }
      BookIsMapLike(v);
      if !MapLike(v) { return Throws; }
      var contact;
      if IsMember(Members(v), emails) {
        contact := SlotValue(Find(Members(v), emails));
      } else {
        contact := EmptyContactValue(reader);
      }
      assert contact == Fetched(v, emails);
      if IsBook(v) { AttributeOfBook(v, emails, attName, attValue); }
      if !MapLike(contact) { return Throws; }
      AttributeText(v, emails, attName, attValue, isDouble);
      contact := Object(Store(Members(contact), attName, Str(attValue)));
      SaveContacts(Object(Store(Members(v), emails, contact)));
      return Gives(true);
    }

    /** CMailClient::config */
    method Config(txUrl: bytes, rxUrl: bytes, login: bytes, password: bytes, proxy: bytes)
      modifies `settings
      ensures settings == old(settings).(net := Configured(txUrl, rxUrl, login, password, proxy))
      ensures IsConfigured(settings.net)
    {
      ConfiguredIsConfigured(txUrl, rxUrl, login, password, proxy);
      var tx := txUrl;
      if tx != [] && tx[|tx| - 1] != SLASH { tx := tx + [SLASH]; }
      var rx := rxUrl;
      if rx != [] && rx[|rx| - 1] != SLASH { rx := rx + [SLASH]; }
      settings := settings.(net := Network(tx, rx, login, password, proxy));
    }

    /** Export; `cipher` is what the profile makes of the password when it encrypts it. */
    method Export(cipher: bytes) returns (text: bytes)
      requires Valid()
      ensures text == Save(ExportRoot(settings, cipher, if Loaded() then Stored() else Object([])))
      ensures Load(text, isDouble).status == Good
      ensures IsExport(Load(text, isDouble).v, settings, cipher, if Loaded() then Stored() else Object([]))
    {
      hide IsExport, Norm, Load, Carried, Styled, Store, Simple, WellFormed, Printable, NamesNulFree, Depth, Find;
      var reader := new Reader(true, false, isDouble);
      var profile := Object(Store([], CERT, Str(settings.profile.cert)));
      profile := Object(Store(profile.members, KEY, Str(settings.profile.key)));
      var joRoot := Object(Store([], PROFILE, profile));
      var network := Object(Store([], TX_URL, Str(settings.net.txUrl)));
      network := Object(Store(network.members, RX_URL, Str(settings.net.rxUrl)));
      network := Object(Store(network.members, LOGIN, Str(settings.net.login)));
      network := Object(Store(network.members, PASSWORD, Str(cipher)));
      network := Object(Store(network.members, PROXY, Str(settings.net.proxy)));
      joRoot := Object(Store(joRoot.members, NETWORK, network));
      var block := Object(Store([], NO_SIG, Bool(settings.block.noSig)));
      block := Object(Store(block.members, NO_ENVELOP, Bool(settings.block.noEnvelop)));
      block := Object(Store(block.members, NO_FRIEND, Bool(settings.block.noFriend)));
      joRoot := Object(Store(joRoot.members, BLOCK, block));
      var ok, v := ParseContacts(reader);
      if !ok {
        v := Object([]);
        NoMembers();
        MembersCarried([], STACK_LIMIT - 1);
      }
      joRoot := Object(Store(joRoot.members, CONTACTS, v));
      ExportPrints(settings, cipher, v);
      ExportLoads(settings, cipher, v, isDouble);
      ExportByName(settings, cipher, v);
      text := ToStyledString(joRoot);
    }

    lemma ExportPrints(s: Settings, cipher: bytes, v: Value)
      requires Carried(v, STACK_LIMIT - 1)
      ensures WellFormed(ExportRoot(s, cipher, v)) && Printable(ExportRoot(s, cipher, v))
    {
      hide ExportRoot, WellFormed, Printable, NamesNulFree, Depth, Retagged, HoldsExport;
      ExportedRoot(s, cipher, v, STACK_LIMIT - 1);
    }

    /** The section "Profile" of Import. */
    method TakeProfile(passphrase: bytes, profile: Value) returns (threw: bool)
      modifies `settings
      ensures Imported(settings, threw) == ImportProfile(profile, passphrase, old(settings), outside)
      ensures settings.net == old(settings).net
    {
      hide Find;
      if !MapLike(profile) { return true; }
      if Has(profile, CERT) && Has(profile, KEY) {
        var cert := AsString(Get(profile, CERT));
        if cert.Throws? { return true; }
        if outside.isCert(cert.value) {
          settings := settings.(profile := settings.profile.(cert := cert.value));
        }
        var key := AsString(Get(profile, KEY));
        if key.Throws? { return true; }
        if outside.isKey(key.value, passphrase) {
          settings := settings.(profile := settings.profile.(key := key.value, passphrase := passphrase));
        }
      }
      return false;
    }

    /** The section "network" of Import. */
    method TakeNetwork(network: Value) returns (threw: bool)
      requires IsConfigured(settings.net)
      modifies `settings
      ensures Imported(settings, threw) == ImportNetwork(network, old(settings), outside) && IsConfigured(settings.net)
    {
      hide Find;
      if !MapLike(network) { return true; }
      if Has(network, TX_URL) && Has(network, RX_URL) && Has(network, LOGIN) && Has(network, PASSWORD)
         && Has(network, PROXY)
      {
        var cipher := AsString(Get(network, PASSWORD));
        if cipher.Throws? { return true; }
        var password := outside.decrypt(settings.profile, cipher.value);
        var txUrl := AsString(Get(network, TX_URL));
        if txUrl.Throws? { return true; }
        var rxUrl := AsString(Get(network, RX_URL));
        if rxUrl.Throws? { return true; }
        var login := AsString(Get(network, LOGIN));
        if login.Throws? { return true; }
        var proxy := AsString(Get(network, PROXY));
        if proxy.Throws? { return true; }
        Config(txUrl.value, rxUrl.value, login.value, password, proxy.value);
      }
      return false;
    }

    /** The section "block" of Import. */
    method TakeBlock(block: Value) returns (threw: bool)
      modifies `settings
      ensures Imported(settings, threw) == ImportBlock(block, old(settings), outside) && settings.net == old(settings).net
    {
      hide MapLike, ImportFlag;
      if !MapLike(block) { return true; }
      var noSig := TakeFlag(block, NO_SIG, settings.block.noSig);
      if noSig.Throws? { return true; }
      settings := settings.(block := settings.block.(noSig := noSig.value));
      var noEnvelop := TakeFlag(block, NO_ENVELOP, settings.block.noEnvelop);
      if noEnvelop.Throws? { return true; }
      settings := settings.(block := settings.block.(noEnvelop := noEnvelop.value));
      var noFriend := TakeFlag(block, NO_FRIEND, settings.block.noFriend);
      if noFriend.Throws? { return true; }
      settings := settings.(block := settings.block.(noFriend := noFriend.value));
      return false;
    }

    /** block[name].asBool() if there is such a member. */
    method TakeFlag(block: Value, name: bytes, flag: bool) returns (r: Answer<bool>)
      requires MapLike(block)
      ensures r == ImportFlag(block, name, flag, outside)
    {
      hide Find;
      if !Has(block, name) { return Gives(flag); }
      r := AsBool(Get(block, name));
    }

    /** Value::asBool */
    method AsBool(v: Value) returns (r: Answer<bool>)
      ensures r == FlagOf(v, outside)
    {
      if v.Bool? { return Gives(v.b); }
      if v.Null? { return Gives(false); }
      if v.Int? { return Gives(v.i != 0); }
      if v.UInt? { return Gives(v.u != 0); }
      if v.Real? { return Gives(!outside.isZero(v.text)); }
      return Throws;
    }

    /** Import. Contacts with reals are excluded, as their printing is not modelled. */
    method Import(passphrase: bytes, json: bytes) returns (r: Answer<bool>)
      requires Valid() && PrintableContacts(Load(json, isDouble))
      modifies this
      ensures Valid()
      ensures Load(json, isDouble).status == Bad ==>
        r == Gives(false) && contacts == old(contacts) && settings == old(settings)
      ensures Load(json, isDouble).status == Threw ==>
        r == Throws && contacts == old(contacts) && settings == old(settings)
      ensures Load(json, isDouble).status == Good ==>
        (var joRoot := Load(json, isDouble).v;
         var all := ImportSections(joRoot, passphrase, old(settings), outside);
         settings == all.s &&
         if all.threw then r == Throws && contacts == old(contacts)
         else if !Has(joRoot, CONTACTS) then r == Gives(true) && contacts == old(contacts)
         else r == Gives(true) && Loaded() && Stored() == Norm(Get(joRoot, CONTACTS), UptoNul))
    {
      hide Parse, Carried, Save, ValidText, WellFormed, Printable, Find, Norm, ImportProfile, ImportNetwork, ImportBlock,
           Slashed;
      var reader := new Reader(true, false, isDouble);
      var status, joRoot := reader.Parse(json, Null);
      if status == Threw { return Throws; }
      if status == Bad { return Gives(false); }
      if !MapLike(joRoot) { return Throws; }
      if Has(joRoot, PROFILE) {
        var threw := TakeProfile(passphrase, Get(joRoot, PROFILE));
        if threw { return Throws; }
      }
      if Has(joRoot, NETWORK) {
        var threw := TakeNetwork(Get(joRoot, NETWORK));
        if threw { return Throws; }
      }
      if Has(joRoot, BLOCK) {
        var threw := TakeBlock(Get(joRoot, BLOCK));
        if threw { return Throws; }
      }
      if Has(joRoot, CONTACTS) {
        ImportedText(json, isDouble);
        SaveContacts(Get(joRoot, CONTACTS));
      }
      return Gives(true);
    }
  }

  // ---------------------------------------------------------------- export, then import

  ghost predicate PrintableContacts(joRoot: Result) {
    joRoot.status == Good && Has(joRoot.v, CONTACTS) ==> Printable(Get(joRoot.v, CONTACTS))
  }

  lemma {:induction false} FindSettled(ms: seq<Member>, key: bytes, d: int)
    requires SettledMembers(ms, d) && IsMember(ms, key) && forall k :: 0 <= k < |ms| ==> WellFormed(ms[k].item)
    ensures Settled(Find(ms, key).item, d) && WellFormed(Find(ms, key).item)
  {
    hide Settled, WellFormed;
    if ms[0].name != key { FindSettled(ms[1..], key, d); }
  }

  /** What Import writes loads again, whatever text was imported. */
  lemma ImportedText(json: bytes, isDouble: bytes -> bool)
    requires PrintableContacts(Load(json, isDouble)) && Load(json, isDouble).status == Good
    requires Has(Load(json, isDouble).v, CONTACTS)
    ensures var item := Get(Load(json, isDouble).v, CONTACTS);
      && WellFormed(item) && Printable(item) && ValidText(Save(item), isDouble)
      && Load(Save(item), isDouble).status == Good && Load(Save(item), isDouble).v == Norm(item, UptoNul)
  {
    hide Parse, Find, Save, Norm, Depth, Printable, Carried;
    var v := Load(json, isDouble).v;
    ParseSettles(Input(json, true, false, isDouble), Null);
    FindSettled(v.members, CONTACTS, STACK_LIMIT - 1);
    var item := Find(v.members, CONTACTS).item;
    SettledFacts(item, STACK_LIMIT - 1);
    SavedText(item, isDouble);
  }

  /** The text of Export loads, and holds what was exported. */
  lemma {:induction false} ExportedText(s: Settings, cipher: bytes, contacts: Value, isDouble: bytes -> bool)
    requires Carried(contacts, STACK_LIMIT - 1)
    ensures var r := Load(Save(ExportRoot(s, cipher, contacts)), isDouble);
      r.status == Good && HoldsExport(r.v, s, cipher, contacts) && Norm(contacts, UptoNul) == contacts
  {
    hide Parse, Norm, Styled, Depth, WellFormed, Printable, NamesNulFree, HoldsExport, ExportRoot, Retagged;
    var root := ExportRoot(s, cipher, contacts);
    ExportedRoot(s, cipher, contacts, STACK_LIMIT - 1);
    CarriedIsNormal(contacts, STACK_LIMIT - 1);
    StyledRoundTrip(Input(Save(root), true, false, isDouble), Null, root);
    StyledRoundTripIsExact(root);
    RetaggedExport(root, s, cipher, contacts);
  }

  /** The text of Export loads as the object that was printed. */
  lemma {:induction false} ExportLoads(s: Settings, cipher: bytes, contacts: Value, isDouble: bytes -> bool)
    requires Carried(contacts, STACK_LIMIT - 1)
    ensures var root := ExportRoot(s, cipher, contacts);
      Load(Save(root), isDouble).status == Good && Load(Save(root), isDouble).v == root
  {
    hide Parse, Norm, Styled, Depth, WellFormed, Printable, NamesNulFree, HoldsExport, ExportRoot, Retagged;
    var root := ExportRoot(s, cipher, contacts);
    ExportedRoot(s, cipher, contacts, STACK_LIMIT - 1);
    StyledRoundTrip(Input(Save(root), true, false, isDouble), Null, root);
    StyledRoundTripIsExact(root);
    ExportIsRetagged(s, cipher, contacts);
  }

  lemma {:induction false} ExportIsPrintable(r: Result, s: Settings, cipher: bytes, contacts: Value)
    requires r.status == Good && HoldsExport(r.v, s, cipher, contacts) && Printable(contacts)
    ensures PrintableContacts(r) && Has(r.v, CONTACTS) && Get(r.v, CONTACTS) == contacts
  {
    hide Find, ProfileSection, NetworkSection, BlockSection, Printable;
  }

  // ---------------------------------------------------------------- runs

  /** What is exported from one BitMail and imported into another is the same there: the contacts,
      the network and the flags, and the profile as far as OpenSSL takes it. */
  method ExportThenImport(source: BitMail, target: BitMail, cipher: bytes, passphrase: bytes)
    requires source.Valid() && target.Valid() && source.isDouble == target.isDouble
    modifies target
    ensures target.Valid() && target.Loaded()
    ensures target.Stored() == if old(source.Loaded()) then old(source.Stored()) else Object([])
    ensures old(source.HasBook()) ==> target.HasBook() && target.Book() == old(source.Book())
    ensures target.settings.block == old(source.settings.block)
    ensures target.settings.net ==
      old(source.settings.net).(password := target.outside.decrypt(target.settings.profile, cipher))
    ensures target.settings.profile ==
      ProfileAfter(old(target.settings.profile), old(source.settings.profile), passphrase, target.outside)
  {
    hide Load, Carried, Save, ValidText, IsBook, BookOf, PrintableContacts, ExportRoot, HoldsExport, Has, Get, Norm, Depth,
         ImportSections, ProfileAfter, IsConfigured;
    var text := source.Export(cipher);
    var s, v := source.settings, if source.Loaded() then source.Stored() else Object([]);
    StoredIsCarried(source.contacts, source.isDouble);
    CarriedIsPrintable(v, STACK_LIMIT - 1);
    ExportedText(s, cipher, v, source.isDouble);
    var r := Load(text, source.isDouble);
    ExportIsPrintable(r, s, cipher, v);
    ImportOfExport(r.v, passphrase, target.settings, target.outside, s, cipher, v);
    var done := target.Import(passphrase, text);
  }

  lemma {:induction false} CarriedIsPrintable(v: Value, d: int)
    requires Carried(v, d)
    ensures Printable(v)
  {
    hide Printable;
  }

  lemma StoredIsCarried(text: bytes, isDouble: bytes -> bool)
    requires ValidText(text, isDouble)
    ensures Load(text, isDouble).status == Good ==> Carried(Load(text, isDouble).v, STACK_LIMIT - 1)
    ensures Carried(Object([]), STACK_LIMIT - 1)
  {
    hide Load, Carried;
    NoMembers();
    MembersCarried([], STACK_LIMIT - 1);
  }

  /** The value set last is the one a get returns, whatever other attributes are set in between. */
  method LastSetIsRead(store: BitMail, emails: bytes, attName: bytes, attValue: bytes,
                       otherEmails: bytes, otherName: bytes, otherValue: bytes)
    returns (r: Answer<bytes>)
    requires store.Valid() && store.HasBook()
    requires emails != [] && attName != [] && NulFree(emails) && NulFree(attName)
    requires NulFree(otherEmails) && NulFree(otherName) && (otherEmails != emails || otherName != attName)
    modifies store
    ensures store.Valid() && store.HasBook() && r == Gives(attValue)
  {
    hide Load, Carried, ValidText, IsBook, BookOf, Find, Store;
    NamesAreWhole(emails, attName);
    NamesAreWhole(otherEmails, otherName);
    var done := store.SetAttribute(emails, attName, attValue);
    done := store.SetAttribute(otherEmails, otherName, otherValue);
    r := store.GetAttribute(emails, attName);
  }

  /** {"contacts":{"a":null}} */
  function NullContact(): Value {
    Object([Member(CONTACTS, Object([Member([97], Null)]))])
  }

  const NULL_CONTACT: bytes :=
    [LBRACE] + ([QUOTE] + CONTACTS + [QUOTE]) + [COLON]
    + ([LBRACE] + ([QUOTE] + [97] + [QUOTE]) + [COLON] + NULL_TEXT + [RBRACE]) + [RBRACE]

  lemma NullContactText()
    ensures Compact(NullContact()) == NULL_CONTACT
  {
    hide Quoted, Compact;
    QuotedName(CONTACTS);
    QuotedName([97]);
    OneMemberText(CONTACTS, Object([Member([97], Null)]));
    OneMemberText([97], Null);
    NullText();
  }

  lemma NullText()
    ensures Compact(Null) == NULL_TEXT
  {
  }

  lemma {:induction false} OneMemberText(name: bytes, v: Value)
    ensures Compact(Object([Member(name, v)])) == [LBRACE] + Quoted(name) + [COLON] + Compact(v) + [RBRACE]
  {
    hide Quoted;
    var ms := [Member(name, v)];
    assert ms[1..] == [] && CompactMembers([]) == [];
    assert CompactMembers(ms) == MemberText(name, [], Compact(v)) + [] + [];
    MemberRegrouped(Quoted(name), Compact(v));
  }

  lemma MemberRegrouped(name: bytes, text: bytes)
    ensures [LBRACE] + (name + ([] + [COLON] + []) + text + [] + []) + [RBRACE] == [LBRACE] + name + [COLON] + text + [RBRACE]
  {
  }

  lemma {:induction false} QuotedName(s: bytes)
    requires forall k :: 0 <= k < |s| ==> 97 <= s[k] <= 122
    ensures Quoted(s) == [QUOTE] + s + [QUOTE]
  {
    forall k | 0 <= k < |s| ensures Escape(s[k]) == [s[k]] {}
    PlainIsItsEscape(s);
  }

  lemma {:induction false} NullContactLoads(isDouble: bytes -> bool)
    ensures var r := Load(NULL_CONTACT, isDouble); r.status == Good && r.v == NullContact()
  {
    hide Parse, Compact, Spells, Reads, Tokens, After, Norm;
    var inp := Input(NULL_CONTACT, true, false, isDouble);
    NullContactText();
    NullContactIsNormal();
    WholeText(NULL_CONTACT);
    CompactSpells(NullContact(), NULL_CONTACT, 0);
    SpellsReads(NULL_CONTACT, NullContact());
    ParseSpelled(inp, Null, NullContact(), Whole);
  }

  lemma WholeText(s: bytes)
    ensures At(s, 0, s) && NumberStops(s, |s|)
  {
  }

  lemma {:induction false} SpellsReads(doc: bytes, v: Value)
    requires Spells(doc, 0, Tokens(v, Whole), |doc|)
    ensures Reads(doc, 0, Tokens(v, Whole))
  {
  }

  lemma {:induction false} NullContactIsNormal()
    ensures Printable(NullContact()) && Depth(NullContact()) <= STACK_LIMIT
    ensures Norm(NullContact(), Whole) == NullContact()
    ensures Norm(NullContact().members[0].item, UptoNul) == NullContact().members[0].item
  {
    var ms, a := NullContact().members, [Member([97], Null)];
    assert ms[1..] == [] && a[1..] == [] && UptoNul([97]) == [97];
    OneMember(CONTACTS, Object(a));
    OneMember([97], Null);
  }

  lemma {:induction false} OneMember(name: bytes, v: Value)
    ensures Store([], name, v) == [Member(name, v)]
  {
  }

  /** No section that could throw is there. */
  lemma NullContactImports(passphrase: bytes, s: Settings, outside: Outside)
    ensures ImportSections(NullContact(), passphrase, s, outside) == Imported(s, false)
    ensures Has(NullContact(), CONTACTS) && Get(NullContact(), CONTACTS) == Object([Member([97], Null)])
    ensures Printable(Object([Member([97], Null)]))
  {
    assert NullContact().members[1..] == [];
  }

  /** A contact whose value is null comes in by an import, and then it cannot be removed. */
  method NullContactStays(store: BitMail, passphrase: bytes) returns (imported: Answer<bool>, removed: Answer<bool>)
    requires store.Valid()
    modifies store
    ensures store.Valid() && store.Loaded()
    ensures imported == Gives(true) && removed == Gives(false)
    ensures store.Stored() == Object([Member([97], Null)]) && IsMember(Members(store.Stored()), [97])
  {
    hide Parse, Carried, ValidText, Save, Printable, ImportSections;
    NullContactLoads(store.isDouble);
    NullContactIsNormal();
    NullContactImports(passphrase, store.settings, store.outside);
    imported := store.Import(passphrase, NULL_CONTACT);
    removed := store.RemoveContact([97]);
  }

  lemma {:induction false} NamesAreWhole(a: bytes, b: bytes)
    requires NulFree(a) && NulFree(b)
    ensures UptoNul(a) == a && UptoNul(b) == b
  {
    UptoNulOfNulFree(a);
    UptoNulOfNulFree(b);
  }
}
