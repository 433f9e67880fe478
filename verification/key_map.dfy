/** The symmetric key store as a map from key id to key, with the one-entry cache beside it: what
    each operation does, and why the cache never shows. */
module KeyMap {

  import opened MachineWords
  import opened KeyAccess

  const NTP_MAXKEY := 65535

  type KeyId = u32

  datatype Secret = NoSecret | Secret(octets: seq<u8>)

  datatype Key = Key(secret: Secret, keytype: u16, trusted: bool, lifetime: nat, acl: seq<Access>)

  /** cache_keyid and its companions; key id 0 means that nothing is cached. */
  datatype Cache = Cache(keyid: KeyId, secret: Secret, keytype: u16, trusted: bool, acl: seq<Access>)

  const NO_CACHE := Cache(0, NoSecret, 0, false, [])

  datatype Store = Store(keys: map<KeyId, Key>, cache: Cache)

  const EMPTY_STORE := Store(map[], NO_CACHE)

  /** authcache_flush_id */
  function Flush(c: Cache, id: KeyId): Cache { if c.keyid == id then NO_CACHE else c }

  // ---- what the operations do -------------------------------------------------------------

  function TrustedUntil(trust: nat, now: nat): nat { if trust > 1 then now + trust else 0 }

  /** authtrust: trusting an unknown key creates it without type and secret; distrusting a key
      deletes it. */
  function Trust(s: Store, id: KeyId, trust: nat, now: nat): Store {
    if id in s.keys then
      Store(if trust > 0 then s.keys[id := s.keys[id].(trusted := true, lifetime := TrustedUntil(trust, now))]
            else s.keys - {id},
            Flush(s.cache, id))
    else if trust == 0 then s
    else s.(keys := s.keys[id := Key(NoSecret, 0, true, TrustedUntil(trust, now), [])])
  }

  /** MD5auth_setkey: a known key keeps its trust and lifetime, a new one is not trusted. */
  function SetKey(s: Store, id: KeyId, keytype: int, octets: seq<u8>, acl: seq<Access>): Store {
    var t: u16 := keytype % 0x1_0000;
    if id in s.keys then
      Store(s.keys[id := s.keys[id].(secret := Secret(octets), keytype := t, acl := acl)], Flush(s.cache, id))
    else s.(keys := s.keys[id := Key(Secret(octets), t, false, 0, acl)])
  }

  predicate Expired(k: Key, now: nat) { k.lifetime > 0 && now > k.lifetime }

  function ExpiredIds(keys: map<KeyId, Key>, now: nat): set<KeyId> {
    set id | id in keys && Expired(keys[id], now)
  }

  /** auth_agekeys */
  function Age(s: Store, now: nat): Store {
    var gone := ExpiredIds(s.keys, now);
    Store(s.keys - gone, if s.cache.keyid in gone then NO_CACHE else s.cache)
  }

  /** auth_delkeys: autokeys stay, untrusted keys go, and trusted keys are reduced to their trust
      and type. The cache is flushed for the keys that go, not for the others. */
  function Delete(s: Store): Store {
    var gone := UntrustedIds(s.keys);
    Store(map id | id in s.keys && id !in gone :: if id > NTP_MAXKEY then s.keys[id] else Cleared(s.keys[id]),
          if s.cache.keyid in gone then NO_CACHE else s.cache)
  }

  function UntrustedIds(keys: map<KeyId, Key>): set<KeyId> {
    set id | id in keys && id <= NTP_MAXKEY && !keys[id].trusted
  }

  function TrustedIds(keys: map<KeyId, Key>): set<KeyId> {
    set id | id in keys && id <= NTP_MAXKEY && keys[id].trusted
  }

  function Cleared(k: Key): Key { k.(secret := NoSecret, lifetime := 0, acl := []) }

  /** The keys left when some are gone and some are cleared. */
  function ClearedExcept(keys: map<KeyId, Key>, gone: set<KeyId>, cleared: set<KeyId>): map<KeyId, Key> {
    map id | id in keys && id !in gone :: if id in cleared then Cleared(keys[id]) else keys[id]
  }

  lemma DeleteStarts(keys: map<KeyId, Key>)
    ensures ClearedExcept(keys, {}, {}) == keys
  {}

  lemma DeleteStep(keys: map<KeyId, Key>, gone: set<KeyId>, cleared: set<KeyId>, id: KeyId)
    requires id in ClearedExcept(keys, gone, cleared)
    ensures var left := ClearedExcept(keys, gone, cleared);
      && ClearedExcept(keys, gone + {id}, cleared) == left - {id}
      && ClearedExcept(keys, gone, cleared + {id}) == left[id := Cleared(left[id])]
      && (id <= NTP_MAXKEY ==> id in if left[id].trusted then TrustedIds(keys) else UntrustedIds(keys))
  {}

  /** auth_delkeys is done when no key is left to be deleted or cleared. */
  lemma DeleteComputed(s: Store, gone: set<KeyId>, cleared: set<KeyId>)
    requires gone <= UntrustedIds(s.keys) && cleared <= TrustedIds(s.keys)
    requires forall id | id in ClearedExcept(s.keys, gone, cleared) :: id > NTP_MAXKEY || id in cleared
    ensures gone == UntrustedIds(s.keys) && ClearedExcept(s.keys, gone, cleared) == Delete(s).keys
  {
    forall id | id in UntrustedIds(s.keys)
      ensures id in gone
    {
      assert id !in gone ==> id in ClearedExcept(s.keys, gone, cleared);
    }
  }

  /** What a search of the table alone would tell about a key. */
  predicate TableHas(s: Store, id: KeyId) {
    id in s.keys && s.keys[id].keytype != 0 && s.keys[id].trusted
  }

  predicate TableTrusts(s: Store, id: KeyId) { id in s.keys && s.keys[id].trusted }

  predicate AclsWellFormed(s: Store) {
    && (forall id | id in s.keys :: forall a | a in s.keys[id].acl :: WellFormed(a.addr))
    && (forall a | a in s.cache.acl :: WellFormed(a.addr))
  }

  predicate TableTrustsIp(s: Store, id: KeyId, addr: Address)
    requires AclsWellFormed(s) && WellFormed(addr)
  {
    TableTrusts(s, id) && Admits(s.keys[id].acl, addr, true)
  }

  /** authhavekey: the cache answers for its own key and for id 0; otherwise the table does, and
      the key it finds enters the cache. */
  function Have(s: Store, id: KeyId): (r: (bool, Store)) {
    if id == 0 || s.cache.keyid == id then (s.cache.trusted, s)
    else if TableHas(s, id) then
      var k := s.keys[id];
      (true, s.(cache := Cache(id, k.secret, k.keytype, k.trusted, k.acl)))
    else (false, s)
  }

  /** authistrusted */
  function IsTrusted(s: Store, id: KeyId): bool {
    if id == s.cache.keyid then s.cache.trusted else TableTrusts(s, id)
  }

  /** authistrustedip */
  function IsTrustedIp(s: Store, id: KeyId, addr: Address): bool
    requires AclsWellFormed(s) && WellFormed(addr)
  {
    if id == s.cache.keyid then s.cache.trusted && Admits(s.cache.acl, addr, true) else TableTrustsIp(s, id, addr)
  }

  /** auth_havekey */
  predicate Known(s: Store, id: KeyId) { id == 0 || s.cache.keyid == id || id in s.keys }

  // ---- what the operations mean -----------------------------------------------------------

  /** The same keys under all ids but one. */
  predicate SameElsewhere(s: Store, t: Store, id: KeyId) {
    forall other: KeyId | other != id ::
      (other in t.keys <==> other in s.keys) && (other in s.keys ==> t.keys[other] == s.keys[other])
  }

  /** The key is still there at a later time, when expired keys have been taken away. */
  predicate Survives(s: Store, id: KeyId, later: nat) { id in Age(s, later).keys }

  /** authtrust: without trust the key is gone. With trust it is trusted and keeps secret, type and
      access list, or is created without them; a trust above 1 is its lifetime in seconds, and any
      other trust has no end. */
  lemma TrustLaws(s: Store, id: KeyId, trust: nat, now: nat)
    ensures var t := Trust(s, id, trust, now);
      && SameElsewhere(s, t, id)
      && (id in t.keys <==> trust > 0) && TableTrusts(t, id) == (trust > 0)
      && (trust > 0 ==>
           var k := t.keys[id];
           if id in s.keys then k.secret == s.keys[id].secret && k.keytype == s.keys[id].keytype && k.acl == s.keys[id].acl
           else k.secret == NoSecret && k.keytype == 0 && k.acl == [] && !TableHas(t, id))
      && (trust > 0 ==> forall later: nat :: Survives(t, id, later) <==> trust == 1 || later <= now + trust)
  {}

  /** MD5auth_setkey: the key has the new secret, type and access list. A known one is trusted as
      before and ends when it did; a new one is not trusted and has no end. */
  lemma SetKeyLaws(s: Store, id: KeyId, keytype: int, octets: seq<u8>, acl: seq<Access>)
    ensures var t := SetKey(s, id, keytype, octets, acl);
      && SameElsewhere(s, t, id) && id in t.keys
      && t.keys[id].secret == Secret(octets) && t.keys[id].acl == acl
      && (0 <= keytype <= 0xFFFF ==> t.keys[id].keytype == keytype)
      && TableTrusts(t, id) == TableTrusts(s, id)
      && forall later: nat :: Survives(t, id, later) <==> (id in s.keys ==> Survives(s, id, later))
  {}

  /** auth_agekeys: keys only go, the others are as they were, and what is gone at one time is what
      ageing at that time alone takes away, however often there was ageing before. */
  lemma AgeLaws(s: Store, earlier: nat, now: nat)
    requires earlier <= now
    ensures Age(s, now).keys.Keys <= s.keys.Keys
    ensures forall id | id in Age(s, now).keys :: Age(s, now).keys[id] == s.keys[id]
    ensures forall id | id in s.keys :: id in Age(s, now).keys <==> s.keys[id].lifetime == 0 || now <= s.keys[id].lifetime
    ensures Age(Age(s, earlier), now).keys == Age(s, now).keys
  {}

  /** auth_delkeys: autokeys, which are those above 65535, stay; of the others the trusted ones stay
      trusted and keep their type, but lose secret, access list and end. */
  lemma DeleteLaws(s: Store, id: KeyId)
    ensures var t := Delete(s);
      && (id > 65535 ==> (id in t.keys <==> id in s.keys) && (id in s.keys ==> t.keys[id] == s.keys[id]))
      && (id <= 65535 ==>
           && (id in t.keys <==> TableTrusts(s, id)) && TableTrusts(t, id) == TableTrusts(s, id)
           && (id in t.keys ==>
                && t.keys[id].keytype == s.keys[id].keytype
                && t.keys[id].secret == NoSecret && t.keys[id].acl == []
                && forall later: nat :: Survives(t, id, later)))
  {}

  /** Asking changes no key, and id 0 and the cached id are always known. */
  lemma QuestionLaws(s: Store, id: KeyId)
    ensures Have(s, id).1.keys == s.keys
    ensures Known(s, 0) && Known(s, s.cache.keyid) && (id in s.keys ==> Known(s, id))
    ensures Coherent(s) ==> Have(s, 0) == (s.cache.keyid != 0, s)
  {}

  // ---- the cache is transparent -----------------------------------------------------------

  /** The cache holds a stored, trusted and typed key, field by field, or nothing. */
  predicate Coherent(s: Store) {
    if s.cache.keyid == 0 then s.cache == NO_CACHE
    else
      && TableHas(s, s.cache.keyid)
      && var k := s.keys[s.cache.keyid];
         s.cache == Cache(s.cache.keyid, k.secret, k.keytype, k.trusted, k.acl)
  }

  datatype Op =
    | OpTrust(id: KeyId, trust: nat, now: nat)
    | OpSetKey(id: KeyId, keytype: int, octets: seq<u8>, acl: seq<Access>)
    | OpAge(now: nat)
    | OpHave(id: KeyId)
    | OpDelete
    | OpPrealloc(keycount: i32)

  function Apply(s: Store, op: Op): Store {
    match op
    case OpTrust(id, trust, now) => Trust(s, id, trust, now)
    case OpSetKey(id, keytype, octets, acl) => SetKey(s, id, keytype, octets, acl)
    case OpAge(now) => Age(s, now)
    case OpHave(id) => Have(s, id).1
    case OpDelete => Delete(s)
    case OpPrealloc(_) => s
  }

  const MEMINC := 16

  predicate AddsKey(s: Store, op: Op) {
    (op.OpTrust? && op.trust > 0 && op.id !in s.keys) || (op.OpSetKey? && op.id !in s.keys)
  }

  /** The key structures there are, in use or free, after an operation: a new key without a free
      structure brings sixteen, preallocation what is missing, and none is ever given back. */
  function Supply(nodes: nat, s: Store, op: Op): nat {
    if op.OpPrealloc? then (if op.keycount > nodes then op.keycount else nodes)
    else if AddsKey(s, op) && |s.keys| == nodes then nodes + MEMINC
    else nodes
  }

  function Nodes(ops: seq<Op>): nat {
    if |ops| == 0 then 0
    else Supply(Nodes(ops[..|ops| - 1]), ApplyAll(EMPTY_STORE, ops[..|ops| - 1]), ops[|ops| - 1])
  }

  /** The first key brings sixteen structures. */
  lemma FirstSupply(op: Op)
    requires AddsKey(EMPTY_STORE, op)
    ensures Nodes([op]) == 16
  {
    assert [op][..0] == [];
  }

  lemma {:induction false} NodesGrow(ops: seq<Op>, i: nat)
    requires i <= |ops|
    ensures Nodes(ops[..i]) <= Nodes(ops)
    decreases |ops|
  {
    if i < |ops| {
      assert ops[..|ops| - 1][..i] == ops[..i];
      NodesGrow(ops[..|ops| - 1], i);
    } else {
      assert ops[..i] == ops;
    }
  }

  function ApplyAll(s: Store, ops: seq<Op>): Store {
    if |ops| == 0 then s else Apply(ApplyAll(s, ops[..|ops| - 1]), ops[|ops| - 1])
  }

  lemma NoOperations(s: Store)
    ensures ApplyAll(s, []) == s && Nodes([]) == 0
  {}

  lemma OneOperation(s: Store, ops: seq<Op>, i: nat)
    requires i < |ops|
    ensures ApplyAll(s, ops[..i + 1]) == Apply(ApplyAll(s, ops[..i]), ops[i])
    ensures Nodes(ops[..i + 1]) == Supply(Nodes(ops[..i]), ApplyAll(EMPTY_STORE, ops[..i]), ops[i])
  {
    assert ops[..i + 1][..i] == ops[..i];
  }

  /** In a coherent store every question about a nonzero key id has the answer of the table. */
  lemma CoherentAnswers(s: Store, id: KeyId)
    requires Coherent(s) && id != 0
    ensures Have(s, id).0 == TableHas(s, id)
    ensures IsTrusted(s, id) == TableTrusts(s, id)
    ensures forall addr | AclsWellFormed(s) && WellFormed(addr) :: IsTrustedIp(s, id, addr) == TableTrustsIp(s, id, addr)
    ensures Known(s, id) == (id in s.keys)
  {}

  /** auth_delkeys keeps cache and table equal field by field unless the cached key is one it clears
      of something. */
  lemma DeleteCoherence(s: Store)
    requires Coherent(s)
    ensures Coherent(Delete(s)) <==>
      s.cache.keyid == 0 || s.cache.keyid > NTP_MAXKEY || (s.cache.secret == NoSecret && s.cache.acl == [])
  {}

  /** All questions about a nonzero key id and any address have the answers of the table. */
  ghost predicate Transparent(s: Store)
    requires AclsWellFormed(s)
  {
    && (forall id: KeyId | id != 0 ::
          && Have(s, id).0 == TableHas(s, id)
          && IsTrusted(s, id) == TableTrusts(s, id)
          && Known(s, id) == (id in s.keys))
    && (forall id: KeyId, addr | id != 0 && WellFormed(addr) :: IsTrustedIp(s, id, addr) == TableTrustsIp(s, id, addr))
  }

  /** After auth_delkeys the answers are still those of the table, unless the cached key is one that
      lost an access list: then authistrustedip goes on applying that list. */
  lemma DeleteAnswers(s: Store)
    requires Coherent(s) && AclsWellFormed(s)
    ensures AclsWellFormed(Delete(s))
    ensures Transparent(Delete(s)) <==> s.cache.keyid == 0 || s.cache.keyid > NTP_MAXKEY || s.cache.acl == []
  {
    hide Amatch;
    var d := Delete(s);
    if !(s.cache.keyid == 0 || s.cache.keyid > NTP_MAXKEY || s.cache.acl == []) {
      NobodyIsUnspec(s.cache.acl);
      assert IsTrustedIp(d, s.cache.keyid, Unspec) != TableTrustsIp(d, s.cache.keyid, Unspec);
    }
  }

  /** No entry of an access list admits an address that is none. */
  lemma NobodyIsUnspec(acl: seq<Access>)
    requires acl != [] && forall a | a in acl :: WellFormed(a.addr)
    ensures !Admits(acl, Unspec, true)
  {
    forall i | 0 <= i < |acl|
      ensures !Amatch(acl[i].addr, Unspec, acl[i].subnetbits)
    {
      assert !Comparable(acl[i].addr, Unspec);
    }
  }

  /** A trusted key that only the addresses 10.x.x.x may use, looked up and then cleared: the table
      would now admit an IPv6 address, the stale cache does not. */
  lemma DeleteLeavesStaleCache()
    ensures var acl := [Access(Inet([10, 0, 0, 0]), 8)];
      var s := ApplyAll(EMPTY_STORE, [OpSetKey(1, 4, [7], acl), OpTrust(1, 1, 0), OpHave(1)]);
      var addr := Inet6(0, seq(16, _ => 0));
      && Coherent(s) && AclsWellFormed(Delete(s)) && WellFormed(addr)
      && !IsTrustedIp(Delete(s), 1, addr) && TableTrustsIp(Delete(s), 1, addr)
  {
    hide Amatch;
    var acl := [Access(Inet([10, 0, 0, 0]), 8)];
    var ops := [OpSetKey(1, 4, [7], acl), OpTrust(1, 1, 0), OpHave(1)];
    assert ops[..2] == [OpSetKey(1, 4, [7], acl), OpTrust(1, 1, 0)];
    assert ops[..2][..1] == [OpSetKey(1, 4, [7], acl)];
    assert ApplyAll(EMPTY_STORE, ops[..2][..1]) == SetKey(EMPTY_STORE, 1, 4, [7], acl);
    var k := Key(Secret([7]), 4, true, 0, acl);
    assert ApplyAll(EMPTY_STORE, ops[..2]).keys == map[1 := k];
    var s := Store(map[1 := k], Cache(1, k.secret, 4, true, acl));
    assert ApplyAll(EMPTY_STORE, ops) == s;
    assert forall a | a in acl :: a == acl[0];
    var addr := Inet6(0, seq(16, _ => 0));
    assert !Comparable(acl[0].addr, addr);
    assert Delete(s).keys[1] == Cleared(k);
  }

  lemma OperationKeepsCoherence(s: Store, op: Op)
    requires Coherent(s) && !op.OpDelete?
    ensures Coherent(Apply(s, op))
  {}

  /** Over every run without auth_delkeys the cache is transparent. */
  lemma {:induction false} CacheIsTransparent(ops: seq<Op>, id: KeyId)
    requires forall i | 0 <= i < |ops| :: !ops[i].OpDelete?
    requires id != 0
    ensures var s := ApplyAll(EMPTY_STORE, ops);
      && Coherent(s)
      && Have(s, id).0 == TableHas(s, id)
      && IsTrusted(s, id) == TableTrusts(s, id)
      && forall addr | AclsWellFormed(s) && WellFormed(addr) :: IsTrustedIp(s, id, addr) == TableTrustsIp(s, id, addr)
  {
    if |ops| > 0 {
      CacheIsTransparent(ops[..|ops| - 1], id);
      OperationKeepsCoherence(ApplyAll(EMPTY_STORE, ops[..|ops| - 1]), ops[|ops| - 1]);
    }
    CoherentAnswers(ApplyAll(EMPTY_STORE, ops), id);
  }
}
