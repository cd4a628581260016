/** The sections of an exported BitMail beside its contacts: what Export builds of the profile, the
    network and the block flags, and what Import makes of them. */
module Sections {
  import opened Answers
  import opened Bytes
  import opened Numerals
  import opened JsonValue
  import opened JsonText
  import opened JsonReadBack
  import opened JsonCodec
  import opened JsonSettled

  const PROFILE: bytes := [80, 114, 111, 102, 105, 108, 101]
  const NETWORK: bytes := [110, 101, 116, 119, 111, 114, 107]
  const BLOCK: bytes := [98, 108, 111, 99, 107]
  const CONTACTS: bytes := [99, 111, 110, 116, 97, 99, 116, 115]
  const CERT: bytes := [99, 101, 114, 116]
  const KEY: bytes := [107, 101, 121]
  const TX_URL: bytes := [116, 120, 85, 114, 108]
  const RX_URL: bytes := [114, 120, 85, 114, 108]
  const LOGIN: bytes := [108, 111, 103, 105, 110]
  const PASSWORD: bytes := [112, 97, 115, 115, 119, 111, 114, 100]
  const PROXY: bytes := [112, 114, 111, 120, 121]
  const NO_SIG: bytes := [110, 111, 83, 105, 103]
  const NO_ENVELOP: bytes := [110, 111, 69, 110, 118, 101, 108, 111, 112]
  const NO_FRIEND: bytes := [110, 111, 70, 114, 105, 101, 110, 100]

  // ---------------------------------------------------------------- values

  datatype Profile = Profile(cert: bytes, key: bytes, passphrase: bytes)

  /** What is decided outside of the model. By OpenSSL: which texts are certificates, which are keys
      under a passphrase, and what a profile decrypts. By the floating point code: how the double of
      a numeral is printed, and whether it is zero. */
  datatype Outside = Outside(
    isCert: bytes -> bool, isKey: (bytes, bytes) -> bool, decrypt: (Profile, bytes) -> bytes,
    showDouble: bytes -> bytes, isZero: bytes -> bool)

  /** The values that isMember, operator[] and getMemberNames accept. */
  predicate MapLike(v: Value) {
    v.Null? || v.Object?
  }

  function Members(v: Value): seq<Member> {
    if v.Object? then v.members else []
  }

  predicate Has(v: Value, name: bytes) {
    IsMember(Members(v), name)
  }

  /** v[name]: null when there is no such member. */
  function Get(v: Value, name: bytes): Value {
    SlotValue(Find(Members(v), name))
  }

  /** What asString gives. */
  function TextOf(v: Value, outside: Outside): Answer<bytes> {
    match v
    case Str(s) => Gives(s)
    case Null => Gives([])
    case NullString => Gives([])
    case Bool(b) => Gives(if b then TRUE_TEXT else FALSE_TEXT)
    case Int(i) => Gives(IntegerText(i))
    case UInt(u) => Gives(IntegerText(u))
    case Real(text) => Gives(outside.showDouble(text))
    case Array(_) => Throws
    case Object(_) => Throws
  }

  /** What asBool gives. */
  function FlagOf(v: Value, outside: Outside): Answer<bool> {
    match v
    case Bool(b) => Gives(b)
    case Null => Gives(false)
    case Int(i) => Gives(i != 0)
    case UInt(u) => Gives(u != 0)
    case Real(text) => Gives(!outside.isZero(text))
    case _ => Throws
  }

  // ---------------------------------------------------------------- settings

  datatype Network = Network(txUrl: bytes, rxUrl: bytes, login: bytes, password: bytes, proxy: bytes)

  datatype Block = Block(noSig: bool, noEnvelop: bool, noFriend: bool)

  datatype Settings = Settings(profile: Profile, net: Network, block: Block)

  /** CX509Cert::ImportCert */
  function WithCert(p: Profile, cert: bytes, outside: Outside): Profile {
    if outside.isCert(cert) then p.(cert := cert) else p
  }

  /** CX509Cert::ImportPrivKey */
  function WithKey(p: Profile, key: bytes, passphrase: bytes, outside: Outside): Profile {
    if outside.isKey(key, passphrase) then p.(key := key, passphrase := passphrase) else p
  }

  /** An URL gets a slash at its end, unless it is empty. */
  function Slashed(url: bytes): bytes {
    if url != [] && url[|url| - 1] != SLASH then url + [SLASH] else url
  }

  /** CMailClient::config */
  function Configured(txUrl: bytes, rxUrl: bytes, login: bytes, password: bytes, proxy: bytes): Network {
    Network(Slashed(txUrl), Slashed(rxUrl), login, password, proxy)
  }

  predicate IsConfigured(n: Network) {
    Slashed(n.txUrl) == n.txUrl && Slashed(n.rxUrl) == n.rxUrl
  }

  lemma ConfiguredIsConfigured(txUrl: bytes, rxUrl: bytes, login: bytes, password: bytes, proxy: bytes)
    ensures IsConfigured(Configured(txUrl, rxUrl, login, password, proxy))
  {
  }

  // ---------------------------------------------------------------- what Import makes of a document

  /** The settings, and whether an exception was thrown: what was set before it stays. */
  datatype Imported = Imported(s: Settings, threw: bool)

  function ImportProfile(v: Value, passphrase: bytes, s: Settings, outside: Outside): Imported {
    if !MapLike(v) then Imported(s, true)
    else if !Has(v, CERT) || !Has(v, KEY) then Imported(s, false)
    else
      var cert := TextOf(Get(v, CERT), outside);
      if cert.Throws? then Imported(s, true)
      else
        var t := s.(profile := WithCert(s.profile, cert.value, outside));
        var key := TextOf(Get(v, KEY), outside);
        if key.Throws? then Imported(t, true)
        else Imported(t.(profile := WithKey(t.profile, key.value, passphrase, outside)), false)
  }

  function ImportNetwork(v: Value, s: Settings, outside: Outside): Imported {
    if !MapLike(v) then Imported(s, true)
    else if !Has(v, TX_URL) || !Has(v, RX_URL) || !Has(v, LOGIN) || !Has(v, PASSWORD) || !Has(v, PROXY) then
      Imported(s, false)
    else
      var password, txUrl, rxUrl := TextOf(Get(v, PASSWORD), outside), TextOf(Get(v, TX_URL), outside), TextOf(Get(v, RX_URL), outside);
      var login, proxy := TextOf(Get(v, LOGIN), outside), TextOf(Get(v, PROXY), outside);
      if password.Throws? || txUrl.Throws? || rxUrl.Throws? || login.Throws? || proxy.Throws? then Imported(s, true)
      else
        var clear := outside.decrypt(s.profile, password.value);
        Imported(s.(net := Configured(txUrl.value, rxUrl.value, login.value, clear, proxy.value)), false)
  }

  /** One flag: as it was when it is missing. */
  function ImportFlag(v: Value, name: bytes, flag: bool, outside: Outside): Answer<bool> {
    if Has(v, name) then FlagOf(Get(v, name), outside) else Gives(flag)
  }

  function ImportBlock(v: Value, s: Settings, outside: Outside): Imported {
    if !MapLike(v) then Imported(s, true)
    else
      var a := ImportFlag(v, NO_SIG, s.block.noSig, outside);
      if a.Throws? then Imported(s, true)
      else
        var t := s.(block := s.block.(noSig := a.value));
        var b := ImportFlag(v, NO_ENVELOP, s.block.noEnvelop, outside);
        if b.Throws? then Imported(t, true)
        else
          var u := t.(block := t.block.(noEnvelop := b.value));
          var c := ImportFlag(v, NO_FRIEND, s.block.noFriend, outside);
          if c.Throws? then Imported(u, true) else Imported(u.(block := u.block.(noFriend := c.value)), false)
  }

  /** The sections of a document, in the order in which Import looks at them. */
  function ImportSections(root: Value, passphrase: bytes, s: Settings, outside: Outside): Imported {
    if !MapLike(root) then Imported(s, true)
    else
      var a := if Has(root, PROFILE) then ImportProfile(Get(root, PROFILE), passphrase, s, outside) else Imported(s, false);
      if a.threw then a
      else
        var b := if Has(root, NETWORK) then ImportNetwork(Get(root, NETWORK), a.s, outside) else a;
        if b.threw then b
        else if Has(root, BLOCK) then ImportBlock(Get(root, BLOCK), b.s, outside)
        else b
  }

  // ---------------------------------------------------------------- what throws

  predicate IsContainer(v: Value) {
    v.Array? || v.Object?
  }

  /** A section that is no object, or in which a text that is looked at is an array or an object. */
  predicate BadTexts(v: Value, names: seq<bytes>) {
    !MapLike(v) ||
    ((forall k :: 0 <= k < |names| ==> Has(v, names[k])) && exists k :: 0 <= k < |names| && IsContainer(Get(v, names[k])))
  }

  /** The flag is there, and it is a string or a container. */
  predicate BadFlag(v: Value, name: bytes) {
    Has(v, name) && (IsContainer(Get(v, name)) || Get(v, name).Str? || Get(v, name).NullString?)
  }

  /** A section that is no object, or in which a flag is a string, an array or an object. */
  predicate BadFlags(v: Value, names: seq<bytes>) {
    !MapLike(v) || exists k :: 0 <= k < |names| && BadFlag(v, names[k])
  }

  const PROFILE_NAMES := [CERT, KEY]
  const NETWORK_NAMES := [TX_URL, RX_URL, LOGIN, PASSWORD, PROXY]
  const BLOCK_NAMES := [NO_SIG, NO_ENVELOP, NO_FRIEND]

  /** The import of the sections ends in an exception exactly when the document is no object or one
      of them is bad. */
  lemma ThrowsExactly(root: Value, passphrase: bytes, s: Settings, outside: Outside)
    ensures ImportSections(root, passphrase, s, outside).threw <==>
      || !MapLike(root)
      || (Has(root, PROFILE) && BadTexts(Get(root, PROFILE), PROFILE_NAMES))
      || (Has(root, NETWORK) && BadTexts(Get(root, NETWORK), NETWORK_NAMES))
      || (Has(root, BLOCK) && BadFlags(Get(root, BLOCK), BLOCK_NAMES))
  {
    hide MapLike, Has, Get, BadTexts, BadFlags, ImportProfile, ImportNetwork, ImportBlock;
    ProfileThrows(Get(root, PROFILE), passphrase, s, outside);
    var a := if Has(root, PROFILE) then ImportProfile(Get(root, PROFILE), passphrase, s, outside) else Imported(s, false);
    NetworkThrows(Get(root, NETWORK), a.s, outside);
    var b := if Has(root, NETWORK) then ImportNetwork(Get(root, NETWORK), a.s, outside) else a;
    BlockThrows(Get(root, BLOCK), b.s, outside);
  }

  lemma TextThrows(v: Value, outside: Outside)
    ensures TextOf(v, outside).Throws? <==> IsContainer(v)
  {
  }

  lemma ProfileThrows(v: Value, passphrase: bytes, s: Settings, outside: Outside)
    ensures ImportProfile(v, passphrase, s, outside).threw <==> BadTexts(v, PROFILE_NAMES)
  {
    hide MapLike, Has, Get, TextOf, IsContainer;
    var names := PROFILE_NAMES;
    assert names[0] == CERT && names[1] == KEY;
    TextThrows(Get(v, CERT), outside);
    TextThrows(Get(v, KEY), outside);
  }

  lemma NetworkThrows(v: Value, s: Settings, outside: Outside)
    ensures ImportNetwork(v, s, outside).threw <==> BadTexts(v, NETWORK_NAMES)
  {
    hide MapLike, Has, Get, TextOf, IsContainer, Configured, BadTexts;
    TextThrows(Get(v, TX_URL), outside);
    TextThrows(Get(v, RX_URL), outside);
    TextThrows(Get(v, LOGIN), outside);
    TextThrows(Get(v, PASSWORD), outside);
    TextThrows(Get(v, PROXY), outside);
    FiveNames(v, TX_URL, RX_URL, LOGIN, PASSWORD, PROXY);
  }

  lemma FiveNames(v: Value, a: bytes, b: bytes, c: bytes, d: bytes, e: bytes)
    ensures BadTexts(v, [a, b, c, d, e]) <==>
      !MapLike(v) ||
      (Has(v, a) && Has(v, b) && Has(v, c) && Has(v, d) && Has(v, e) &&
       (IsContainer(Get(v, a)) || IsContainer(Get(v, b)) || IsContainer(Get(v, c)) || IsContainer(Get(v, d))
        || IsContainer(Get(v, e))))
  {
    hide MapLike, Has, Get, IsContainer;
    var names := [a, b, c, d, e];
    assert names[0] == a && names[1] == b && names[2] == c && names[3] == d && names[4] == e;
  }

  /** A flag throws exactly when it is a string or a container. */
  lemma FlagThrows(v: Value, name: bytes, flag: bool, outside: Outside)
    ensures ImportFlag(v, name, flag, outside).Throws? <==> BadFlag(v, name)
  {
    hide Has, Get;
  }

  /** A flag stored as a boolean is that boolean, whatever is stored under another name behind it and
      whatever the flag was before; a flag that is not stored stays as it was. */
  lemma {:induction false} FlagIsStored(ms: seq<Member>, name: bytes, b: bool, other: bytes, item: Value,
                                        flag: bool, outside: Outside)
    requires other != name
    ensures ImportFlag(Object(Store(Store(ms, name, Bool(b)), other, item)), name, flag, outside) == Gives(b)
    ensures Find(ms, other).Hole? ==> ImportFlag(Object(Store(ms, name, Bool(b))), other, flag, outside) == Gives(flag)
  {
    hide Store, Find;
    FindStored(ms, name, Bool(b), name);
    FindStored(ms, name, Bool(b), other);
    FindStored(Store(ms, name, Bool(b)), other, item, name);
  }

  lemma BlockThrows(v: Value, s: Settings, outside: Outside)
    ensures ImportBlock(v, s, outside).threw <==> BadFlags(v, BLOCK_NAMES)
  {
    hide MapLike, BadFlag, ImportFlag;
    var names := BLOCK_NAMES;
    assert names[0] == NO_SIG && names[1] == NO_ENVELOP && names[2] == NO_FRIEND;
    FlagThrows(v, NO_SIG, s.block.noSig, outside);
    FlagThrows(v, NO_ENVELOP, s.block.noEnvelop, outside);
    FlagThrows(v, NO_FRIEND, s.block.noFriend, outside);
  }

  // ---------------------------------------------------------------- what Export builds

  function ProfileSection(p: Profile): Value {
    Object(Store(Store([], CERT, Str(p.cert)), KEY, Str(p.key)))
  }

  /** `cipher` is the password as the profile encrypts it. */
  function NetworkSection(n: Network, cipher: bytes): Value {
    Object(Store(Store(Store(Store(Store([],
      TX_URL, Str(n.txUrl)), RX_URL, Str(n.rxUrl)), LOGIN, Str(n.login)), PASSWORD, Str(cipher)), PROXY, Str(n.proxy)))
  }

  function BlockSection(b: Block): Value {
    Object(Store(Store(Store([],
      NO_SIG, Bool(b.noSig)), NO_ENVELOP, Bool(b.noEnvelop)), NO_FRIEND, Bool(b.noFriend)))
  }

  /** The object Export prints. */
  function ExportRoot(s: Settings, cipher: bytes, contacts: Value): Value {
    Object(Store(Store(Store(Store([],
      PROFILE, ProfileSection(s.profile)), NETWORK, NetworkSection(s.net, cipher)), BLOCK, BlockSection(s.block)),
      CONTACTS, contacts))
  }

  lemma {:induction false} FindStored(ms: seq<Member>, name: bytes, v: Value, other: bytes)
    ensures Find(Store(ms, name, v), other) == if other == name then Item(v) else Find(ms, other)
  {
    hide KeyLess;
    var after := Store(ms, name, v);
    if ms == [] {
      assert after[1..] == [];
    } else if ms[0].name != name && !KeyLess(name, ms[0].name) {
      FindStored(ms[1..], name, v, other);
      assert after[1..] == Store(ms[1..], name, v);
    } else {
      assert after[1..] == ms || after[1..] == ms[1..];
    }
  }

  /** Members that can be printed and read back with d levels. */
  ghost predicate Exportable(ms: seq<Member>, d: nat) {
    WellFormedMembers(ms) && PrintableMembers(ms) && MemberNamesNulFree(ms) && MembersDepth(ms) <= d
  }

  lemma NothingExportable(d: nat)
    ensures Exportable([], d)
  {
  }

  lemma {:induction false} StoreDepth(ms: seq<Member>, name: bytes, v: Value)
    ensures MembersDepth(Store(ms, name, v)) <= Max(MembersDepth(ms), Depth(v))
  {
    hide Depth, KeyLess;
    if ms != [] && ms[0].name != name && !KeyLess(name, ms[0].name) {
      StoreDepth(ms[1..], name, v);
      assert Store(ms, name, v)[1..] == Store(ms[1..], name, v);
    } else {
      assert Store(ms, name, v)[1..] == [] || Store(ms, name, v)[1..] == ms || Store(ms, name, v)[1..] == ms[1..];
    }
  }

  lemma {:induction false} StoreExportable(ms: seq<Member>, name: bytes, v: Value, d: nat)
    requires Exportable(ms, d) && NulFree(name)
    requires WellFormed(v) && Printable(v) && NamesNulFree(v) && Depth(v) <= d
    ensures Exportable(Store(ms, name, v), d)
  {
    hide WellFormedMembers, PrintableMembers, MemberNamesNulFree, MembersDepth, WellFormed, Printable, NamesNulFree, Depth;
    StoreWellFormed(ms, name, v);
    StorePrintable(ms, name, v);
    StoreKeepsNulFree(ms, name, v);
    StoreDepth(ms, name, v);
  }

  lemma ExportableObject(ms: seq<Member>, d: nat)
    requires Exportable(ms, d)
    ensures WellFormed(Object(ms)) && Printable(Object(ms)) && NamesNulFree(Object(ms)) && Depth(Object(ms)) <= d + 1
  {
  }

  /** Strings and booleans under names without a NUL. */
  ghost predicate Simple(ms: seq<Member>) {
    Exportable(ms, 1) && forall k :: 0 <= k < |ms| ==> ms[k].item.Str? || ms[k].item.Bool?
  }

  lemma {:induction false} StoreSimple(ms: seq<Member>, name: bytes, v: Value)
    requires Simple(ms) && NulFree(name) && (v.Str? || v.Bool?)
    ensures Simple(Store(ms, name, v))
  {
    hide Exportable, KeyLess;
    ScalarIsExportable(v);
    StoreExportable(ms, name, v, 1);
    StoredItems(ms, name, v);
  }

  lemma {:induction false} ScalarIsExportable(v: Value)
    requires v.Str? || v.Bool?
    ensures WellFormed(v) && Printable(v) && NamesNulFree(v) && Depth(v) == 1
  {
  }

  lemma {:induction false} StoredItems(ms: seq<Member>, name: bytes, v: Value)
    ensures forall k :: 0 <= k < |Store(ms, name, v)| ==>
      Store(ms, name, v)[k].item == v || exists j :: 0 <= j < |ms| && ms[j].item == Store(ms, name, v)[k].item
  {
    hide KeyLess;
    if ms != [] && ms[0].name != name && !KeyLess(name, ms[0].name) {
      StoredItems(ms[1..], name, v);
      var rest := Store(ms[1..], name, v);
      assert Store(ms, name, v) == [ms[0]] + rest;
      forall k | 0 < k <= |rest| && rest[k - 1].item != v
        ensures exists j :: 0 <= j < |ms| && ms[j].item == Store(ms, name, v)[k].item
      {
        var j :| 0 <= j < |ms[1..]| && ms[1..][j].item == rest[k - 1].item;
        assert ms[j + 1].item == Store(ms, name, v)[k].item;
      }
    }
  }

  lemma {:induction false} SimpleIsRetagged(ms: seq<Member>)
    requires forall k :: 0 <= k < |ms| ==> ms[k].item.Str? || ms[k].item.Bool?
    ensures RetaggedMembers(ms) == ms
  {
    if ms != [] {
      SimpleIsRetagged(ms[1..]);
      assert ms == [ms[0]] + ms[1..];
    }
  }

  /** An object of strings and booleans, as Export builds one for each section. */
  ghost predicate IsSection(v: Value) {
    v.Object? && Simple(v.members)
  }

  lemma {:induction false} SectionIsPlain(v: Value)
    requires IsSection(v)
    ensures WellFormed(v) && Printable(v) && NamesNulFree(v) && Depth(v) <= 2 && Retagged(v) == v
  {
    hide Exportable;
    ExportableObject(v.members, 1);
    SimpleIsRetagged(v.members);
  }

  lemma NothingSimple()
    ensures Simple([])
  {
  }

  lemma ProfileIsSection(p: Profile)
    ensures var v := ProfileSection(p);
      IsSection(v) && Find(v.members, CERT) == Item(Str(p.cert)) && Find(v.members, KEY) == Item(Str(p.key))
  {
    hide Simple, Store, Find;
    var m1 := Store([], CERT, Str(p.cert));
    NothingSimple();
    StoreSimple([], CERT, Str(p.cert));
    StoreSimple(m1, KEY, Str(p.key));
    FindStored([], CERT, Str(p.cert), CERT);
    FindStored(m1, KEY, Str(p.key), CERT);
    FindStored(m1, KEY, Str(p.key), KEY);
  }

  /** The two values found last. */
  lemma {:induction false} FindBoth(ms: seq<Member>, name: bytes, v: Value, other: bytes)
    requires name != other
    ensures Find(Store(ms, name, v), name) == Item(v) && Find(Store(ms, name, v), other) == Find(ms, other)
  {
    FindStored(ms, name, v, name);
    FindStored(ms, name, v, other);
  }

  lemma NetworkIsSection(n: Network, cipher: bytes)
    ensures var v := NetworkSection(n, cipher);
      && IsSection(v)
      && Find(v.members, TX_URL) == Item(Str(n.txUrl)) && Find(v.members, RX_URL) == Item(Str(n.rxUrl))
      && Find(v.members, LOGIN) == Item(Str(n.login)) && Find(v.members, PASSWORD) == Item(Str(cipher))
      && Find(v.members, PROXY) == Item(Str(n.proxy))
  {
    hide Simple, Store, Find;
    var m1 := Store([], TX_URL, Str(n.txUrl));
    var m2 := Store(m1, RX_URL, Str(n.rxUrl));
    var m3 := Store(m2, LOGIN, Str(n.login));
    var m4 := Store(m3, PASSWORD, Str(cipher));
    NothingSimple();
    StoreSimple([], TX_URL, Str(n.txUrl));
    StoreSimple(m1, RX_URL, Str(n.rxUrl));
    StoreSimple(m2, LOGIN, Str(n.login));
    StoreSimple(m3, PASSWORD, Str(cipher));
    StoreSimple(m4, PROXY, Str(n.proxy));
    FindStored([], TX_URL, Str(n.txUrl), TX_URL);
    FindBoth(m1, RX_URL, Str(n.rxUrl), TX_URL);
    FindBoth(m2, LOGIN, Str(n.login), TX_URL);
    FindBoth(m2, LOGIN, Str(n.login), RX_URL);
    FindBoth(m3, PASSWORD, Str(cipher), TX_URL);
    FindBoth(m3, PASSWORD, Str(cipher), RX_URL);
    FindBoth(m3, PASSWORD, Str(cipher), LOGIN);
    FindBoth(m4, PROXY, Str(n.proxy), TX_URL);
    FindBoth(m4, PROXY, Str(n.proxy), RX_URL);
    FindBoth(m4, PROXY, Str(n.proxy), LOGIN);
    FindBoth(m4, PROXY, Str(n.proxy), PASSWORD);
  }

  lemma BlockIsSection(b: Block)
    ensures var v := BlockSection(b);
      && IsSection(v)
      && Find(v.members, NO_SIG) == Item(Bool(b.noSig)) && Find(v.members, NO_ENVELOP) == Item(Bool(b.noEnvelop))
      && Find(v.members, NO_FRIEND) == Item(Bool(b.noFriend))
  {
    hide Simple, Store, Find;
    var m1 := Store([], NO_SIG, Bool(b.noSig));
    var m2 := Store(m1, NO_ENVELOP, Bool(b.noEnvelop));
    NothingSimple();
    StoreSimple([], NO_SIG, Bool(b.noSig));
    StoreSimple(m1, NO_ENVELOP, Bool(b.noEnvelop));
    StoreSimple(m2, NO_FRIEND, Bool(b.noFriend));
    FindStored([], NO_SIG, Bool(b.noSig), NO_SIG);
    FindBoth(m1, NO_ENVELOP, Bool(b.noEnvelop), NO_SIG);
    FindBoth(m2, NO_FRIEND, Bool(b.noFriend), NO_SIG);
    FindBoth(m2, NO_FRIEND, Bool(b.noFriend), NO_ENVELOP);
  }

  /** The members of an exported document. */
  ghost predicate HoldsExport(v: Value, s: Settings, cipher: bytes, contacts: Value) {
    && v.Object?
    && Find(v.members, PROFILE) == Item(ProfileSection(s.profile))
    && Find(v.members, NETWORK) == Item(NetworkSection(s.net, cipher))
    && Find(v.members, BLOCK) == Item(BlockSection(s.block))
    && Find(v.members, CONTACTS) == Item(contacts)
  }

  /** The exported object can be printed and read back, and holds what was put in. */
  lemma {:induction false} ExportedRoot(s: Settings, cipher: bytes, contacts: Value, d: nat)
    requires WellFormed(contacts) && Printable(contacts) && NamesNulFree(contacts) && Depth(contacts) <= d && d >= 2
    ensures var root := ExportRoot(s, cipher, contacts);
      && WellFormed(root) && Printable(root) && NamesNulFree(root) && Depth(root) <= d + 1
      && HoldsExport(root, s, cipher, contacts)
  {
    hide Store, Find, WellFormed, Printable, NamesNulFree, Depth, Exportable, ProfileSection, NetworkSection, BlockSection,
         IsSection, Retagged;
    var p, n, b := ProfileSection(s.profile), NetworkSection(s.net, cipher), BlockSection(s.block);
    ProfileIsSection(s.profile);
    NetworkIsSection(s.net, cipher);
    BlockIsSection(s.block);
    SectionIsPlain(p);
    SectionIsPlain(n);
    SectionIsPlain(b);
    RootOfSections(p, n, b, contacts, d);
  }

  lemma {:induction false} RootOfSections(p: Value, n: Value, b: Value, contacts: Value, d: nat)
    requires WellFormed(p) && Printable(p) && NamesNulFree(p) && Depth(p) <= d
    requires WellFormed(n) && Printable(n) && NamesNulFree(n) && Depth(n) <= d
    requires WellFormed(b) && Printable(b) && NamesNulFree(b) && Depth(b) <= d
    requires WellFormed(contacts) && Printable(contacts) && NamesNulFree(contacts) && Depth(contacts) <= d
    ensures var ms := Store(Store(Store(Store([], PROFILE, p), NETWORK, n), BLOCK, b), CONTACTS, contacts);
      && WellFormed(Object(ms)) && Printable(Object(ms)) && NamesNulFree(Object(ms)) && Depth(Object(ms)) <= d + 1
      && Find(ms, PROFILE) == Item(p) && Find(ms, NETWORK) == Item(n)
      && Find(ms, BLOCK) == Item(b) && Find(ms, CONTACTS) == Item(contacts)
  {
    hide Store, Find, WellFormed, Printable, NamesNulFree, Depth, Exportable;
    var m1 := Store([], PROFILE, p);
    var m2 := Store(m1, NETWORK, n);
    var m3 := Store(m2, BLOCK, b);
    NothingExportable(d);
    StoreExportable([], PROFILE, p, d);
    StoreExportable(m1, NETWORK, n, d);
    StoreExportable(m2, BLOCK, b, d);
    StoreExportable(m3, CONTACTS, contacts, d);
    FindStored([], PROFILE, p, PROFILE);
    FindBoth(m1, NETWORK, n, PROFILE);
    FindBoth(m2, BLOCK, b, PROFILE);
    FindBoth(m2, BLOCK, b, NETWORK);
    FindBoth(m3, CONTACTS, contacts, PROFILE);
    FindBoth(m3, CONTACTS, contacts, NETWORK);
    FindBoth(m3, CONTACTS, contacts, BLOCK);
    ExportableObject(Store(m3, CONTACTS, contacts), d);
  }

  lemma {:induction false} FindRetagged(ms: seq<Member>, key: bytes)
    ensures IsMember(RetaggedMembers(ms), key) <==> IsMember(ms, key)
    ensures IsMember(ms, key) ==> Find(RetaggedMembers(ms), key) == Item(Retagged(Find(ms, key).item))
  {
    hide Retagged;
    if ms != [] {
      assert RetaggedMembers(ms)[1..] == RetaggedMembers(ms[1..]);
      if ms[0].name != key { FindRetagged(ms[1..], key); }
    }
  }

  /** Reading back changes nothing in the sections. */
  lemma {:induction false} RetaggedExport(v: Value, s: Settings, cipher: bytes, contacts: Value)
    requires HoldsExport(v, s, cipher, contacts) && Retagged(contacts) == contacts
    ensures Retagged(v).Object? && HoldsExport(Retagged(v), s, cipher, contacts)
  {
    hide Find, RetaggedMembers, ProfileSection, NetworkSection, BlockSection, IsSection;
    FindRetagged(v.members, PROFILE);
    FindRetagged(v.members, NETWORK);
    FindRetagged(v.members, BLOCK);
    FindRetagged(v.members, CONTACTS);
    ProfileIsSection(s.profile);
    NetworkIsSection(s.net, cipher);
    BlockIsSection(s.block);
    SectionIsPlain(ProfileSection(s.profile));
    SectionIsPlain(NetworkSection(s.net, cipher));
    SectionIsPlain(BlockSection(s.block));
  }

  // ---------------------------------------------------------------- export, then import

  /** The profile after the import of another one. */
  function ProfileAfter(own: Profile, other: Profile, passphrase: bytes, outside: Outside): Profile {
    WithKey(WithCert(own, other.cert, outside), other.key, passphrase, outside)
  }

  /** An exported document is imported without an exception: the network comes out as it was, with
      the password that the profile decrypts, and the flags come out as they were. */
  lemma {:induction false} ImportOfExport(v: Value, passphrase: bytes, own: Settings, outside: Outside,
                                          s: Settings, cipher: bytes, contacts: Value)
    requires HoldsExport(v, s, cipher, contacts) && IsConfigured(s.net)
    ensures var p := ProfileAfter(own.profile, s.profile, passphrase, outside);
      ImportSections(v, passphrase, own, outside) ==
        Imported(Settings(p, s.net.(password := outside.decrypt(p, cipher)), s.block), false)
  {
    hide Find, ProfileSection, NetworkSection, BlockSection, IsSection, ImportProfile, ImportNetwork, ImportBlock;
    var p := ProfileAfter(own.profile, s.profile, passphrase, outside);
    ImportOfProfile(s.profile, passphrase, own, outside);
    var a := own.(profile := p);
    ImportOfNetwork(s.net, cipher, a, outside);
    ImportOfBlock(s.block, a.(net := s.net.(password := outside.decrypt(p, cipher))), outside);
  }

  lemma ImportOfProfile(p: Profile, passphrase: bytes, own: Settings, outside: Outside)
    ensures ImportProfile(ProfileSection(p), passphrase, own, outside) ==
      Imported(own.(profile := ProfileAfter(own.profile, p, passphrase, outside)), false)
  {
    hide Find, ProfileSection, Simple;
    ProfileIsSection(p);
  }

  lemma ImportOfNetwork(n: Network, cipher: bytes, own: Settings, outside: Outside)
    requires IsConfigured(n)
    ensures ImportNetwork(NetworkSection(n, cipher), own, outside) ==
      Imported(own.(net := n.(password := outside.decrypt(own.profile, cipher))), false)
  {
    hide Find, NetworkSection, Simple, Slashed;
    NetworkIsSection(n, cipher);
  }

  lemma ImportOfBlock(b: Block, own: Settings, outside: Outside)
    ensures ImportBlock(BlockSection(b), own, outside) == Imported(own.(block := b), false)
  {
    hide Find, BlockSection, Simple;
    BlockIsSection(b);
  }

  // ---------------------------------------------------------------- names

  lemma NamesAreLiterals()
    ensures PROFILE == Ascii("Profile") && NETWORK == Ascii("network") && BLOCK == Ascii("block")
    ensures CONTACTS == Ascii("contacts") && CERT == Ascii("cert") && KEY == Ascii("key")
    ensures TX_URL == Ascii("txUrl") && RX_URL == Ascii("rxUrl") && LOGIN == Ascii("login")
    ensures PASSWORD == Ascii("password") && PROXY == Ascii("proxy")
    ensures NO_SIG == Ascii("noSig") && NO_ENVELOP == Ascii("noEnvelop") && NO_FRIEND == Ascii("noFriend")
  {
  }

  /** An object with exactly these members. */
  ghost predicate IsObject(v: Value, members: map<bytes, Value>) {
    v.Object? && ToMap(v.members) == members
  }

  /** The document Export prints, name by name; nothing else is in it. */
  ghost predicate IsExport(v: Value, s: Settings, cipher: bytes, contacts: Value) {
    exists p, n, b ::
      && IsObject(v, map[Ascii("Profile") := p, Ascii("network") := n, Ascii("block") := b, Ascii("contacts") := contacts])
      && IsObject(p, map[Ascii("cert") := Str(s.profile.cert), Ascii("key") := Str(s.profile.key)])
      && IsObject(n, map[Ascii("txUrl") := Str(s.net.txUrl), Ascii("rxUrl") := Str(s.net.rxUrl),
                         Ascii("login") := Str(s.net.login), Ascii("password") := Str(cipher),
                         Ascii("proxy") := Str(s.net.proxy)])
      && IsObject(b, map[Ascii("noSig") := Bool(s.block.noSig), Ascii("noEnvelop") := Bool(s.block.noEnvelop),
                         Ascii("noFriend") := Bool(s.block.noFriend)])
  }

  lemma {:induction false} ProfileMap(p: Profile)
    ensures IsObject(ProfileSection(p), map[CERT := Str(p.cert), KEY := Str(p.key)])
  {
    hide Store, ToMap;
    EmptyMap();
    StoreIsUpdate([], CERT, Str(p.cert));
    StoreIsUpdate(Store([], CERT, Str(p.cert)), KEY, Str(p.key));
  }

  lemma EmptyMap()
    ensures ToMap([]) == map[]
  {
  }

  lemma {:induction false} NetworkMap(n: Network, cipher: bytes)
    ensures IsObject(NetworkSection(n, cipher),
      map[TX_URL := Str(n.txUrl), RX_URL := Str(n.rxUrl), LOGIN := Str(n.login), PASSWORD := Str(cipher),
          PROXY := Str(n.proxy)])
  {
    hide Store, ToMap;
    var m1 := Store([], TX_URL, Str(n.txUrl));
    var m2 := Store(m1, RX_URL, Str(n.rxUrl));
    var m3 := Store(m2, LOGIN, Str(n.login));
    var m4 := Store(m3, PASSWORD, Str(cipher));
    EmptyMap();
    StoreIsUpdate([], TX_URL, Str(n.txUrl));
    StoreIsUpdate(m1, RX_URL, Str(n.rxUrl));
    StoreIsUpdate(m2, LOGIN, Str(n.login));
    StoreIsUpdate(m3, PASSWORD, Str(cipher));
    StoreIsUpdate(m4, PROXY, Str(n.proxy));
  }

  lemma {:induction false} BlockMap(b: Block)
    ensures IsObject(BlockSection(b),
      map[NO_SIG := Bool(b.noSig), NO_ENVELOP := Bool(b.noEnvelop), NO_FRIEND := Bool(b.noFriend)])
  {
    hide Store, ToMap;
    var m1 := Store([], NO_SIG, Bool(b.noSig));
    var m2 := Store(m1, NO_ENVELOP, Bool(b.noEnvelop));
    EmptyMap();
    StoreIsUpdate([], NO_SIG, Bool(b.noSig));
    StoreIsUpdate(m1, NO_ENVELOP, Bool(b.noEnvelop));
    StoreIsUpdate(m2, NO_FRIEND, Bool(b.noFriend));
  }

  lemma {:induction false} RootMap(p: Value, n: Value, b: Value, contacts: Value)
    ensures IsObject(
      Object(Store(Store(Store(Store([], PROFILE, p), NETWORK, n), BLOCK, b), CONTACTS, contacts)),
      map[PROFILE := p, NETWORK := n, BLOCK := b, CONTACTS := contacts])
  {
    hide Store, ToMap;
    var m1 := Store([], PROFILE, p);
    var m2 := Store(m1, NETWORK, n);
    var m3 := Store(m2, BLOCK, b);
    EmptyMap();
    StoreIsUpdate([], PROFILE, p);
    StoreIsUpdate(m1, NETWORK, n);
    StoreIsUpdate(m2, BLOCK, b);
    StoreIsUpdate(m3, CONTACTS, contacts);
  }

  /** Under which name everything is exported. */
  lemma {:induction false} ExportByName(s: Settings, cipher: bytes, contacts: Value)
    ensures IsExport(ExportRoot(s, cipher, contacts), s, cipher, contacts)
  {
    hide Store, ToMap, Ascii, ProfileSection, NetworkSection, BlockSection, IsObject;
    NamesAreLiterals();
    ProfileMap(s.profile);
    NetworkMap(s.net, cipher);
    BlockMap(s.block);
    RootMap(ProfileSection(s.profile), NetworkSection(s.net, cipher), BlockSection(s.block), contacts);
  }

  /** v has the section, and in it the member, with this value. */
  ghost predicate Under(v: Value, section: bytes, name: bytes, w: Value) {
    && v.Object? && section in ToMap(v.members)
    && var s := ToMap(v.members)[section];
       s.Object? && name in ToMap(s.members) && ToMap(s.members)[name] == w
  }

  lemma {:induction false} UnderGets(v: Value, section: bytes, name: bytes, w: Value)
    requires Under(v, section, name, w)
    ensures Has(v, section) && Get(v, section).Object? && Has(Get(v, section), name) && Get(Get(v, section), name) == w
  {
    hide ToMap, Find;
    FindIsLookup(v.members, section);
    FindIsLookup(ToMap(v.members)[section].members, name);
  }

  /** The URL with a slash (47) at its end, unless it is empty or has one. */
  function EndSlash(url: bytes): bytes {
    if url == [] || url[|url| - 1] == 47 then url else url + [47]
  }

  /** The texts and flags of a document. */
  datatype Texts = Texts(cert: bytes, key: bytes, txUrl: bytes, rxUrl: bytes, login: bytes, cipher: bytes, proxy: bytes)

  ghost predicate HasProfile(v: Value, t: Texts) {
    Under(v, Ascii("Profile"), Ascii("cert"), Str(t.cert)) && Under(v, Ascii("Profile"), Ascii("key"), Str(t.key))
  }

  ghost predicate HasNetwork(v: Value, t: Texts) {
    && Under(v, Ascii("network"), Ascii("txUrl"), Str(t.txUrl)) && Under(v, Ascii("network"), Ascii("rxUrl"), Str(t.rxUrl))
    && Under(v, Ascii("network"), Ascii("login"), Str(t.login))
    && Under(v, Ascii("network"), Ascii("password"), Str(t.cipher))
    && Under(v, Ascii("network"), Ascii("proxy"), Str(t.proxy))
  }

  ghost predicate HasBlock(v: Value, b: Block) {
    && Under(v, Ascii("block"), Ascii("noSig"), Bool(b.noSig))
    && Under(v, Ascii("block"), Ascii("noEnvelop"), Bool(b.noEnvelop))
    && Under(v, Ascii("block"), Ascii("noFriend"), Bool(b.noFriend))
  }

  ghost predicate Lacks(v: Value, name: bytes) {
    v.Object? && name !in ToMap(v.members)
  }

  lemma {:induction false} LacksHas(v: Value, name: bytes)
    requires Lacks(v, name)
    ensures !Has(v, name)
  {
    hide ToMap, Find;
    FindIsLookup(v.members, name);
  }

  /** The profile after an import of these texts. */
  function ImportedProfile(own: Profile, t: Texts, passphrase: bytes, outside: Outside): Profile {
    var takesKey := outside.isKey(t.key, passphrase);
    Profile(if outside.isCert(t.cert) then t.cert else own.cert,
            if takesKey then t.key else own.key,
            if takesKey then passphrase else own.passphrase)
  }

  lemma {:induction false} ProfileByName(v: Value, t: Texts, passphrase: bytes, own: Settings, outside: Outside)
    requires HasProfile(v, t)
    ensures Has(v, PROFILE) && MapLike(v) && ImportProfile(Get(v, PROFILE), passphrase, own, outside)
      == Imported(own.(profile := ImportedProfile(own.profile, t, passphrase, outside)), false)
  {
    hide Under, Has, Get, Ascii;
    NamesAreLiterals();
    UnderGets(v, PROFILE, CERT, Str(t.cert));
    UnderGets(v, PROFILE, KEY, Str(t.key));
    ObjectHere(v, PROFILE, KEY, Str(t.key));
  }

  lemma ObjectHere(v: Value, section: bytes, name: bytes, w: Value)
    requires Under(v, section, name, w)
    ensures v.Object?
  {
  }

  lemma {:induction false} NetworkByName(v: Value, t: Texts, own: Settings, outside: Outside)
    requires HasNetwork(v, t)
    ensures Has(v, NETWORK) && MapLike(v) && ImportNetwork(Get(v, NETWORK), own, outside)
      == Imported(own.(net := Network(EndSlash(t.txUrl), EndSlash(t.rxUrl), t.login,
                                      outside.decrypt(own.profile, t.cipher), t.proxy)), false)
  {
    hide Under, Has, Get, Ascii;
    NamesAreLiterals();
    UnderGets(v, NETWORK, TX_URL, Str(t.txUrl));
    UnderGets(v, NETWORK, RX_URL, Str(t.rxUrl));
    UnderGets(v, NETWORK, LOGIN, Str(t.login));
    UnderGets(v, NETWORK, PASSWORD, Str(t.cipher));
    UnderGets(v, NETWORK, PROXY, Str(t.proxy));
    ObjectHere(v, NETWORK, PROXY, Str(t.proxy));
  }

  lemma {:induction false} BlockByName(v: Value, b: Block, own: Settings, outside: Outside)
    requires HasBlock(v, b)
    ensures Has(v, BLOCK) && MapLike(v)
    ensures ImportBlock(Get(v, BLOCK), own, outside) == Imported(own.(block := b), false)
  {
    hide Under, Has, Get, Ascii;
    NamesAreLiterals();
    UnderGets(v, BLOCK, NO_SIG, Bool(b.noSig));
    UnderGets(v, BLOCK, NO_ENVELOP, Bool(b.noEnvelop));
    UnderGets(v, BLOCK, NO_FRIEND, Bool(b.noFriend));
    ObjectHere(v, BLOCK, NO_FRIEND, Bool(b.noFriend));
  }

  /** Any document whose sections have these texts and flags under these names, or which has not got the
      section: exactly these settings are imported, the others stay. */
  lemma {:induction false} ImportByName(v: Value, passphrase: bytes, own: Settings, outside: Outside,
                                        t: Texts, b: Block, hasP: bool, hasN: bool, hasB: bool)
    requires if hasP then HasProfile(v, t) else Lacks(v, Ascii("Profile"))
    requires if hasN then HasNetwork(v, t) else Lacks(v, Ascii("network"))
    requires if hasB then HasBlock(v, b) else Lacks(v, Ascii("block"))
    ensures var p := if hasP then ImportedProfile(own.profile, t, passphrase, outside) else own.profile;
      ImportSections(v, passphrase, own, outside) == Imported(Settings(
        p,
        if hasN then
          Network(EndSlash(t.txUrl), EndSlash(t.rxUrl), t.login, outside.decrypt(p, t.cipher), t.proxy)
        else own.net,
        if hasB then b else own.block), false)
  {
    hide Under, Has, Get, Ascii, HasProfile, HasNetwork, HasBlock, Lacks, ImportProfile, ImportNetwork, ImportBlock, EndSlash,
         ImportedProfile, MapLike;
    NamesAreLiterals();
    var p := if hasP then ImportedProfile(own.profile, t, passphrase, outside) else own.profile;
    var a := own.(profile := p);
    if hasP { ProfileByName(v, t, passphrase, own, outside); } else { LacksHas(v, PROFILE); LacksMap(v, PROFILE); }
    if hasN { NetworkByName(v, t, a, outside); } else { LacksHas(v, NETWORK); }
    var c := if hasN then
      a.(net := Network(EndSlash(t.txUrl), EndSlash(t.rxUrl), t.login, outside.decrypt(p, t.cipher), t.proxy))
      else a;
    if hasB { BlockByName(v, b, c, outside); } else { LacksHas(v, BLOCK); }
  }

  lemma LacksMap(v: Value, name: bytes)
    requires Lacks(v, name)
    ensures MapLike(v)
  {
  }

  /** Members whose values reading back does not change. */
  ghost predicate Settling(ms: seq<Member>) {
    forall k :: 0 <= k < |ms| ==> Retagged(ms[k].item) == ms[k].item
  }

  lemma {:induction false} StoreSettling(ms: seq<Member>, name: bytes, v: Value)
    requires Settling(ms) && Retagged(v) == v
    ensures Settling(Store(ms, name, v))
  {
    hide Retagged, Store;
    StoredItems(ms, name, v);
  }

  lemma {:induction false} SettlingIsRetagged(ms: seq<Member>)
    requires Settling(ms)
    ensures RetaggedMembers(ms) == ms
  {
    hide Retagged;
    if ms != [] {
      SettlingIsRetagged(ms[1..]);
      assert ms == [ms[0]] + ms[1..];
    }
  }

  /** Reading the exported document back changes nothing. */
  lemma {:induction false} ExportIsRetagged(s: Settings, cipher: bytes, contacts: Value)
    requires Retagged(contacts) == contacts
    ensures Retagged(ExportRoot(s, cipher, contacts)) == ExportRoot(s, cipher, contacts)
  {
    hide Store, ProfileSection, NetworkSection, BlockSection, Simple, Settling, Retagged, WellFormed, Printable,
         NamesNulFree, Depth, Find;
    var p, n, b := ProfileSection(s.profile), NetworkSection(s.net, cipher), BlockSection(s.block);
    ProfileIsSection(s.profile);
    NetworkIsSection(s.net, cipher);
    BlockIsSection(s.block);
    SectionIsPlain(p);
    SectionIsPlain(n);
    SectionIsPlain(b);
    RootIsRetagged(p, n, b, contacts);
  }

  lemma {:induction false} RootIsRetagged(p: Value, n: Value, b: Value, contacts: Value)
    requires Retagged(p) == p && Retagged(n) == n && Retagged(b) == b && Retagged(contacts) == contacts
    ensures var v := Object(Store(Store(Store(Store([], PROFILE, p), NETWORK, n), BLOCK, b), CONTACTS, contacts));
      Retagged(v) == v
  {
    hide Store, Settling, Retagged, RetaggedMembers;
    NothingSettles();
    var m1 := Store([], PROFILE, p);
    var m2 := Store(m1, NETWORK, n);
    var m3 := Store(m2, BLOCK, b);
    StoreSettling([], PROFILE, p);
    StoreSettling(m1, NETWORK, n);
    StoreSettling(m2, BLOCK, b);
    StoreSettling(m3, CONTACTS, contacts);
    SettlingIsRetagged(Store(m3, CONTACTS, contacts));
    RetaggedObject(Store(m3, CONTACTS, contacts));
  }

  lemma {:induction false} RetaggedObject(ms: seq<Member>)
    ensures Retagged(Object(ms)) == Object(RetaggedMembers(ms))
  {
    hide RetaggedMembers;
  }

  lemma NothingSettles()
    ensures Settling([])
  {
  }

  // ---------------------------------------------------------------- conversions

  /** What asString gives, and which values it refuses. */
  lemma TextsOfValues(v: Value, outside: Outside)
    ensures v.Null? || v.NullString? ==> TextOf(v, outside) == Gives([])
    ensures v.Str? ==> TextOf(v, outside) == Gives(v.s)
    ensures v.Bool? ==> TextOf(v, outside) == Gives(if v.b then Ascii("true") else Ascii("false"))
    ensures TextOf(v, outside).Throws? <==> v.Array? || v.Object?
    ensures v.Int? ==> TextOf(v, outside) == Gives(IntegerText(v.i))
    ensures v.UInt? ==> TextOf(v, outside) == Gives(IntegerText(v.u))
  {
    hide IntegerText;
    TextsAreAscii();
  }

  /** What asBool gives. */
  lemma FlagsOfValues(v: Value, outside: Outside)
    ensures v.Bool? ==> FlagOf(v, outside) == Gives(v.b)
    ensures v.Null? ==> FlagOf(v, outside) == Gives(false)
    ensures v.Int? ==> FlagOf(v, outside) == Gives(v.i != 0)
    ensures v.UInt? ==> FlagOf(v, outside) == Gives(v.u != 0)
    ensures FlagOf(v, outside).Throws? <==> v.Array? || v.Object? || v.Str? || v.NullString?
  {
  }
}
