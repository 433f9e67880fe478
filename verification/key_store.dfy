/** The symmetric key store on the heap: hash table, list of keys in use, free list, counters and
    cache, refining the map and cache of module KeyMap. */
module KeyStores {

  import opened MachineWords
  import opened BitWords
  import opened KeyAccess
  import opened KeyMap
  import opened KeyLists
  import opened KeyTables
  import opened KeyHash

  /** What the links of the store stand for: the nodes in use and the free ones in list order, the
      nodes of each hash chain, the node of each key, and the abstract map. */
  datatype Shape = Shape(inUse: seq<SymKey>, free: seq<SymKey>, buckets: seq<seq<SymKey>>,
                         at: map<KeyId, SymKey>, keys: map<KeyId, Key>)

  class KeyStore {
    const sizeBits: Width         // bits of a size_t
    const listHead: SymKey        // key_listhead
    var keyHash: array<SymKey?>   // key_hash
    var freeKeys: SymKey?         // authfreekeys
    var numKeys: nat              // authnumkeys
    var numFreeKeys: nat          // authnumfreekeys
    var cache: Cache              // cache_keyid and its companions
    ghost var shape: Shape

    /** The lists are well formed and disjoint, the counters are their lengths, and index and hash
        table hold exactly the keys in use. */
    ghost predicate Valid()
      reads `keyHash, `freeKeys, `numKeys, `numFreeKeys, `shape, keyHash, listHead, shape.inUse, shape.free
    {
      && Ring(listHead, shape.inUse) && FreeChain(freeKeys, shape.free)
      && Separate(listHead, shape.inUse, shape.free)
      && numKeys == |shape.inUse| && numFreeKeys == |shape.free|
      && keyHash.Length == |shape.buckets| && IsTableSize(keyHash.Length)
      && Indexes(shape.at, shape.inUse) && Holds(shape.keys, shape.at, shape.inUse)
      && Partitions(shape.buckets, shape.inUse)
      && Anchors(keyHash[..], shape.buckets, shape.inUse)
    }

    /** The abstract value of the store. */
    ghost function State(): Store
      reads `shape, `cache
    {
      Store(shape.keys, cache)
    }

    /** The nodes of the store are those given, and new ones. */
    twostate predicate NodesFrom(s: seq<SymKey>, f: seq<SymKey>)
      reads `shape
    {
      && (forall n | n in shape.inUse :: n in s || n in f || fresh(n))
      && (forall n | n in shape.free :: n in s || n in f || fresh(n))
    }

    /** init_auth with its table of 64 buckets. */
    constructor (width: Width)
      ensures Valid() && State() == EMPTY_STORE && sizeBits == width
      ensures shape.inUse == [] && shape.free == []
      ensures fresh(listHead) && fresh(keyHash)
      ensures keyHash.Length == 64 && numKeys + numFreeKeys == 0
    {
      sizeBits := width;
      listHead := new SymKey();
      keyHash := new SymKey?[64](_ => null);
      freeKeys := null;
      numKeys, numFreeKeys := 0, 0;
      cache := NO_CACHE;
      shape := Shape([], [], seq(64, _ => []), map[], map[]);
      new;
      DefaultSize();
      InitDlist(listHead);
    }

    /** auth_findkey */
    method FindKey(id: KeyId) returns (sk: SymKey?)
      requires Valid()
      ensures sk != null <==> id in shape.keys
      ensures sk != null ==> sk in shape.inUse && sk.keyid == id && sk == shape.at[id] && sk.payload == shape.keys[id]
    {
      hide Ring, FreeChain, Separate;
      ghost var chain := shape.buckets[Bucket(id, |shape.buckets|)];
      ghost var i := 0;
      sk := keyHash[Bucket(id, keyHash.Length)];
      assert HashChain(sk, chain) && (id in shape.at ==> shape.at[id] in chain);
      ghost var first := sk;
      while sk != null
        invariant i <= |chain| && sk == (if i < |chain| then chain[i] else null)
        invariant forall j | 0 <= j < i :: chain[j].keyid != id
        decreases |chain| - i
      {
        ChainLink(first, chain, i);
        if sk.keyid == id {
          return;
        }
        sk := sk.hlink;
        i := i + 1;
      }
    }

    // ---- taking and giving back nodes -----------------------------------------------------

    /** LINK_SLIST on the free list, with its counter. */
    method PushFree(sk: SymKey)
      requires Valid() && sk != listHead && sk !in shape.inUse && sk !in shape.free
      modifies `freeKeys, `numFreeKeys, `shape, sk`forth
      ensures Valid() && shape == old(shape).(free := [sk] + old(shape.free))
      ensures numFreeKeys == old(numFreeKeys) + 1
    {
      hide Indexes, Holds, Partitions, Anchors, Ring, Separate;
      SeparateChanges(listHead, shape.inUse, shape.free, sk);
      sk.forth := freeKeys;
      freeKeys := sk;
      numFreeKeys := numFreeKeys + 1;
      ghost var was, now := shape.free, [sk] + shape.free;
      shape := shape.(free := now);
      assert forall i | 0 < i < |now| :: now[i] == was[i - 1] && NextIn(now, i) == NextIn(was, i - 1);
    }

    /** auth_moremem: new nodes go to the free list one by one. */
    method MoreMem(keycount: int)
      requires Valid()
      modifies `freeKeys, `numFreeKeys, `shape
      ensures Valid() && shape == old(shape).(free := shape.free)
      ensures numFreeKeys == old(numFreeKeys) + if keycount > 0 then keycount else MEMINC
      ensures forall n | n in shape.free :: n in old(shape.free) || fresh(n)
    {
      hide Valid;
      var i := if keycount > 0 then keycount else MEMINC;
      ghost var target := numFreeKeys + i;
      while i > 0
        invariant 0 <= i && numFreeKeys + i == target && Valid() && shape == old(shape).(free := shape.free)
        invariant forall n | n in shape.free :: n in old(shape.free) || fresh(n)
      {
        var sk := new SymKey();
        PushFree(sk);
        i := i - 1;
      }
    }

    /** UNLINK_HEAD_SLIST on the free list, with its counter. */
    method PopFree() returns (sk: SymKey)
      requires Valid() && numFreeKeys > 0
      modifies `freeKeys, `numFreeKeys, `shape
      ensures Valid() && shape == old(shape).(free := shape.free)
      ensures [sk] + shape.free == old(shape.free) && numFreeKeys == old(numFreeKeys) - 1
      ensures sk != listHead && sk !in shape.inUse && sk !in shape.free
    {
      hide Indexes, Holds, Partitions, Anchors, Ring, Separate;
      SeparateChanges(listHead, shape.inUse, shape.free, listHead);
      sk := freeKeys;
      freeKeys := sk.forth;
      numFreeKeys := numFreeKeys - 1;
      ghost var was, now := shape.free, shape.free[1..];
      shape := shape.(free := now);
      assert was[0].forth == NextIn(was, 0);
      assert forall i | 0 <= i < |now| :: now[i] == was[i + 1] && NextIn(now, i) == NextIn(was, i + 1);
    }

    /** A free node, from a new supply if there is none left. */
    method TakeFree() returns (sk: SymKey)
      requires Valid()
      modifies `freeKeys, `numFreeKeys, `shape
      ensures Valid() && shape == old(shape).(free := shape.free)
      ensures sk != listHead && sk !in shape.inUse && sk !in shape.free
      ensures sk in old(shape.free) || fresh(sk)
      ensures forall n | n in shape.free :: n in old(shape.free) || fresh(n)
      ensures numFreeKeys + 1 == old(numFreeKeys) + if old(numFreeKeys) < 1 then MEMINC else 0
    {
      hide Valid;
      if numFreeKeys < 1 {
        MoreMem(-1);
      }
      ghost var nodes := shape.free;
      sk := PopFree();
      assert nodes == [sk] + shape.free && sk in nodes;
      assert forall n | n in shape.free :: n in nodes;
    }

    // ---- linking and unlinking keys -------------------------------------------------------

    /** Fills in a node and puts it in front of its hash chain. */
    method HashKey(sk: SymKey, id: KeyId, key: Key, ghost next: Shape)
      requires Valid() && id !in shape.keys && sk !in shape.inUse
      requires next == Inserted(sk, id, key)
      modifies keyHash, sk`keyid, sk`payload, sk`hlink
      ensures Indexes(next.at, next.inUse) && Holds(next.keys, next.at, next.inUse)
      ensures Partitions(next.buckets, next.inUse) && Anchors(keyHash[..], next.buckets, next.inUse)
    {
      hide Indexes, Holds, Partitions, Anchors, Ring, FreeChain, Separate, Bucket;
      SameDomain(shape.keys, shape.at, shape.inUse);
      sk.keyid := id;
      sk.payload := key;
      sk.hlink := keyHash[Bucket(id, keyHash.Length)];
      AnchorInsert(keyHash[..], shape.buckets, shape.inUse, sk);
      IndexInsert(shape.at, shape.inUse, sk);
      HoldsInsert(shape.keys, shape.at, shape.inUse, id, sk);
      ghost var table := keyHash[..][Bucket(id, keyHash.Length) := sk];
      keyHash[Bucket(id, keyHash.Length)] := sk;
      assert keyHash[..] == table;
    }

    /** The shape with one more key in use. */
    ghost function Inserted(sk: SymKey, id: KeyId, key: Key): Shape
      requires IsTableSize(|shape.buckets|)
      reads `shape
    {
      var b := Bucket(id, |shape.buckets|);
      Shape(shape.inUse + [sk], shape.free, shape.buckets[b := [sk] + shape.buckets[b]],
            shape.at[id := sk], shape.keys[id := key])
    }

    /** The linking part of allocsymkey. */
    method LinkKey(sk: SymKey, id: KeyId, key: Key)
      requires Valid() && id !in shape.keys
      requires sk != listHead && sk !in shape.inUse && sk !in shape.free
      modifies `numKeys, `shape, keyHash, sk, listHead, shape.inUse
      ensures Valid() && shape == old(Inserted(sk, id, key)) && numKeys == old(numKeys) + 1
    {
      hide Indexes, Holds, Partitions, Anchors, Ring, FreeChain, Separate, Bucket;
      SeparateChanges(listHead, shape.inUse, shape.free, sk);
      ghost var next := Inserted(sk, id, key);
      HashKey(sk, id, key, next);
      LinkTailDlist(listHead, sk, shape.inUse);
      numKeys := numKeys + 1;
      shape := next;
    }

    /** allocsymkey */
    method AllocSymkey(id: KeyId, key: Key)
      requires Valid() && id !in shape.keys
      modifies this, keyHash, listHead, shape.inUse, shape.free
      ensures Valid() && State() == old(State()).(keys := old(shape.keys)[id := key])
      ensures keyHash == old(keyHash) && NodesFrom(old(shape.inUse), old(shape.free))
      ensures numKeys + numFreeKeys == old(numKeys + numFreeKeys)
        + if old(|shape.keys| == numKeys + numFreeKeys) then MEMINC else 0
    {
      hide Valid;
      CountsKeys();
      var sk := TakeFree();
      LinkKey(sk, id, key);
    }

    /** The shape without one key in use, which has position k on the list and j in its chain. */
    ghost function Removed(k: nat, j: nat): Shape
      requires k < |shape.inUse| && IsTableSize(|shape.buckets|)
      requires j < |shape.buckets[Bucket(shape.inUse[k].keyid, |shape.buckets|)]|
      reads `shape, shape.inUse`keyid
    {
      var id := shape.inUse[k].keyid;
      var b := Bucket(id, |shape.buckets|);
      Shape(Without(shape.inUse, k), shape.free, shape.buckets[b := Without(shape.buckets[b], j)],
            shape.at - {id}, shape.keys - {id})
    }

    /** Takes a node out of its hash chain. */
    method UnhashKey(sk: SymKey, ghost k: nat) returns (ghost next: Shape)
      requires Valid() && k < |shape.inUse| && shape.inUse[k] == sk && Distinct(shape.inUse)
      modifies keyHash, shape.inUse`hlink
      ensures next.inUse == Without(shape.inUse, k) && next.free == shape.free
      ensures next.keys == shape.keys - {sk.keyid} && |next.buckets| == |shape.buckets|
      ensures Indexes(next.at, next.inUse) && Holds(next.keys, next.at, next.inUse)
      ensures Partitions(next.buckets, next.inUse) && Anchors(keyHash[..], next.buckets, next.inUse)
    {
      hide Indexes, Holds, Partitions, Anchors, Ring, FreeChain, Separate, Bucket, HashChain, Distinct, Without;
      var b := Bucket(sk.keyid, keyHash.Length);
      ghost var table, chains := keyHash[..], shape.buckets;
      BucketChains(table, chains, shape.inUse, b);
      InItsBucket(chains, shape.inUse, k);
      TableChains(table, chains, shape.inUse);
      var anchor, unlinked;
      ghost var j;
      anchor, unlinked, j := UnlinkHashChain(keyHash[b], sk, chains[b]);
      assert forall c | 0 <= c < |chains| && c != b :: HashChain(table[c], chains[c]);
      AnchorRemove(table, chains, shape.inUse, k, j, anchor);
      IndexRemove(shape.at, shape.inUse, k);
      HoldsRemove(shape.keys, shape.at, shape.inUse, k);
      next := Removed(k, j);
      keyHash[b] := anchor;
      assert keyHash[..] == table[b := anchor];
    }

    /** Takes a node off the list of keys in use. */
    method UnlinkKey(sk: SymKey, ghost k: nat)
      requires Valid() && k < |shape.inUse| && shape.inUse[k] == sk
      modifies `numKeys, `shape, keyHash, listHead`forth, listHead`back
      modifies shape.inUse`hlink, shape.inUse`forth, shape.inUse`back
      ensures Valid() && shape.keys == old(shape.keys) - {sk.keyid} && shape.free == old(shape.free)
      ensures shape.inUse == Without(old(shape.inUse), k)
      ensures sk != listHead && sk !in shape.inUse && sk !in shape.free
      ensures numKeys == old(numKeys) - 1
    {
      hide Indexes, Holds, Partitions, Anchors, Ring, Separate, FreeChain, Bucket, Distinct;
      RingNodes(listHead, shape.inUse);
      SeparateNodes(listHead, shape.inUse, shape.free);
      SeparateRemoved(listHead, shape.inUse, shape.free, k);
      ghost var next := UnhashKey(sk, k);
      UnlinkDlist(sk, listHead, shape.inUse, k);
      numKeys := numKeys - 1;
      shape := next;
    }

    /** freesymkey */
    method FreeSymkey(sk: SymKey, ghost k: nat)
      requires Valid() && k < |shape.inUse| && shape.inUse[k] == sk
      modifies `cache, `numKeys, `freeKeys, `numFreeKeys, `shape, keyHash, listHead`forth, listHead`back
      modifies shape.inUse`hlink, shape.inUse`forth, shape.inUse`back, sk`keyid, sk`payload
      ensures Valid()
      ensures State() == Store(old(shape.keys) - {old(sk.keyid)}, Flush(old(cache), old(sk.keyid)))
      ensures shape.inUse == Without(old(shape.inUse), k) && shape.free == [sk] + old(shape.free)
      ensures sk !in shape.inUse
      ensures numKeys == old(numKeys) - 1 && numFreeKeys == old(numFreeKeys) + 1
    {
      hide Valid;
      cache := Flush(cache, sk.keyid);
      UnlinkKey(sk, k);
      ClearNode(sk);
      PushFree(sk);
    }

    /** freesymkey as the list walks see it: the walk goes on behind the node that is gone. */
    method FreeVisited(sk: SymKey, ghost k: nat)
      requires Valid() && k < |shape.inUse| && shape.inUse[k] == sk
      modifies `cache, `numKeys, `freeKeys, `numFreeKeys, `shape, keyHash, listHead`forth, listHead`back
      modifies shape.inUse`hlink, shape.inUse`forth, shape.inUse`back, sk`keyid, sk`payload
      ensures Valid()
      ensures State() == Store(old(shape.keys) - {old(sk.keyid)}, Flush(old(cache), old(sk.keyid)))
      ensures |shape.inUse| == old(|shape.inUse|) - 1
      ensures NodeAt(listHead, shape.inUse, k) == NodeAt(listHead, old(shape.inUse), k + 1)
      ensures forall j | 0 <= j < k :: shape.inUse[j] == old(shape.inUse)[j] && shape.inUse[j] != sk
      ensures forall j {:trigger shape.inUse[j]} | 0 <= j < |shape.inUse| :: shape.inUse[j] in old(shape.inUse)
      ensures forall n | n in shape.free :: n == sk || n in old(shape.free)
      ensures numKeys + numFreeKeys == old(numKeys + numFreeKeys)
    {
      hide Valid, Without, NodeAt;
      ghost var nodes := shape.inUse;
      FreeSymkey(sk, k);
      WithoutAt(listHead, nodes, k);
    }

    /** Zeroes the payload region of a node that is on no list. */
    method ClearNode(sk: SymKey)
      requires Valid() && sk !in shape.inUse && sk !in shape.free && sk != listHead
      modifies sk`keyid, sk`payload
      ensures Valid()
    {
      hide Indexes, Holds, Partitions, Anchors, Ring, Separate, FreeChain;
      sk.keyid := 0;
      sk.payload := Key(NoSecret, 0, false, 0, []);
    }

    /** Changes the payload of a key in use. */
    method SetPayload(sk: SymKey, key: Key)
      requires Valid() && sk in shape.inUse
      modifies `shape, sk`payload
      ensures Valid() && shape == old(shape).(keys := old(shape.keys)[sk.keyid := key])
      ensures sk.payload == key && old(sk.keyid in shape.keys && shape.keys[sk.keyid] == sk.payload)
    {
      hide Indexes, Partitions, Anchors, Ring, Separate, FreeChain;
      KeyInUse(shape.keys, shape.at, shape.inUse, sk);
      IndexMembers(shape.at, shape.inUse);
      sk.payload := key;
      HoldsUpdate(shape.keys, shape.at, shape.inUse, sk);
      shape := shape.(keys := shape.keys[sk.keyid := key]);
    }

    /** authnumkeys is the number of keys. */
    lemma CountsKeys()
      requires Valid()
      ensures numKeys == |shape.keys|
    {
      hide Indexes, Partitions, Anchors, Separate, FreeChain;
      RingNodes(listHead, shape.inUse);
      IndexSize(shape.at, shape.inUse);
      assert shape.keys.Keys == shape.at.Keys;
    }

    // ---- the operations -------------------------------------------------------------------

    /** authtrust */
    method AuthTrust(id: KeyId, trust: nat, now: nat)
      requires Valid()
      modifies this, keyHash, listHead, shape.inUse, shape.free
      ensures Valid() && keyHash == old(keyHash) && NodesFrom(old(shape.inUse), old(shape.free))
      ensures State() == Trust(old(State()), id, trust, now)
      ensures numKeys + numFreeKeys == Supply(old(numKeys + numFreeKeys), old(State()), OpTrust(id, trust, now))
    {
      hide Valid;
      var sk := FindKey(id);
      if trust == 0 && sk == null {
        return;
      }
      if sk != null {
        cache := Flush(cache, id);
        if trust > 0 {
          SetPayload(sk, sk.payload.(trusted := true, lifetime := if trust > 1 then now + trust else 0));
        } else {
          ghost var nodes := shape.inUse;
          ghost var k :| 0 <= k < |nodes| && nodes[k] == sk;
          FreeSymkey(sk, k);
          assert forall n | n in shape.inUse :: n in nodes;
        }
        return;
      }
      var lifetime := if trust > 1 then now + trust else 0;
      AllocSymkey(id, Key(NoSecret, 0, true, lifetime, []));
    }

    /** MD5auth_setkey */
    method SetAuthKey(keyno: KeyId, keytype: int, octets: seq<u8>, acl: seq<Access>)
      requires Valid()
      modifies this, keyHash, listHead, shape.inUse, shape.free
      ensures Valid() && keyHash == old(keyHash) && NodesFrom(old(shape.inUse), old(shape.free))
      ensures State() == SetKey(old(State()), keyno, keytype, octets, acl)
      ensures numKeys + numFreeKeys == Supply(old(numKeys + numFreeKeys), old(State()), OpSetKey(keyno, keytype, octets, acl))
    {
      hide Valid;
      var sk := FindKey(keyno);
      if sk != null && keyno == sk.keyid {
        SetPayload(sk, sk.payload.(secret := Secret(octets), keytype := keytype % 0x1_0000, acl := acl));
        cache := Flush(cache, keyno);
        return;
      }
      AllocSymkey(keyno, Key(Secret(octets), keytype % 0x1_0000, false, 0, acl));
    }

    /** authhavekey */
    method AuthHaveKey(id: KeyId) returns (r: bool)
      requires Valid()
      modifies `cache
      ensures Valid() && (r, State()) == Have(old(State()), id)
    {
      hide Indexes, Holds, Partitions, Anchors, Ring, Separate, FreeChain;
      if id == 0 || cache.keyid == id {
        return cache.trusted;
      }
      var sk := FindKey(id);
      if sk == null || sk.payload.keytype == 0 {
        return false;
      }
      if !sk.payload.trusted {
        return false;
      }
      cache := Cache(sk.keyid, sk.payload.secret, sk.payload.keytype, sk.payload.trusted, sk.payload.acl);
      r := true;
    }

    /** authistrusted */
    method AuthIsTrusted(id: KeyId) returns (r: bool)
      requires Valid()
      ensures r == IsTrusted(State(), id)
    {
      hide Valid;
      if id == cache.keyid {
        return cache.trusted;
      }
      var sk := FindKey(id);
      r := sk != null && sk.payload.trusted;
    }

    /** authistrustedip */
    method AuthIsTrustedIp(keyno: KeyId, sau: Address) returns (r: bool)
      requires Valid() && AclsWellFormed(State()) && WellFormed(sau)
      ensures r == IsTrustedIp(State(), keyno, sau)
    {
      hide Valid;
      var contained;
      if keyno == cache.keyid {
        contained := KeyaccContains(cache.acl, sau, true);
        return cache.trusted && contained;
      }
      var sk := FindKey(keyno);
      if sk != null {
        contained := KeyaccContains(sk.payload.acl, sau, true);
        return sk.payload.trusted && contained;
      }
      r := false;
    }

    /** How far auth_agekeys has come: before position i no key is expired. */
    ghost predicate Ageing(i: nat, keys: map<KeyId, Key>, was: Cache, now: nat, gone: set<KeyId>)
      reads `shape, `cache, shape.inUse`payload
    {
      && shape.keys == keys - gone && gone <= ExpiredIds(keys, now)
      && cache == (if was.keyid in gone then NO_CACHE else was)
      && i <= |shape.inUse|
      && forall j {:trigger shape.inUse[j]} | 0 <= j < i :: !Expired(shape.inUse[j].payload, now)
    }

    /** The body of the loop of auth_agekeys. */
    method AgeVisited(sk: SymKey, now: nat, ghost k: nat, ghost keys: map<KeyId, Key>, ghost was: Cache,
                      ghost g: set<KeyId>)
      returns (ghost i: nat, ghost gone: set<KeyId>)
      requires Valid() && k < |shape.inUse| && shape.inUse[k] == sk && Ageing(k, keys, was, now, g)
      modifies `cache, `numKeys, `freeKeys, `numFreeKeys, `shape, keyHash, listHead`forth, listHead`back
      modifies shape.inUse`hlink, shape.inUse`forth, shape.inUse`back, sk`keyid, sk`payload
      ensures Valid() && Ageing(i, keys, was, now, gone)
      ensures |shape.inUse| - i == old(|shape.inUse|) - k - 1
      ensures NodeAt(listHead, shape.inUse, i) == NodeAt(listHead, old(shape.inUse), k + 1)
      ensures forall j {:trigger shape.inUse[j]} | 0 <= j < |shape.inUse| :: shape.inUse[j] in old(shape.inUse)
      ensures forall n | n in shape.free :: n == sk || n in old(shape.free)
      ensures numKeys + numFreeKeys == old(numKeys + numFreeKeys)
    {
      hide Valid, Without, NodeAt;
      Position(k);
      i, gone := k + 1, g;
      if sk.payload.lifetime > 0 && now > sk.payload.lifetime {
        gone := gone + {sk.keyid};
        FreeVisited(sk, k);
        i := k;
      }
    }

    /** auth_agekeys: the list is walked while nodes are taken off it. */
    method AgeKeys(now: nat)
      requires Valid()
      modifies `cache, `numKeys, `freeKeys, `numFreeKeys, `shape, keyHash, listHead, shape.inUse
      ensures Valid() && NodesFrom(old(shape.inUse), old(shape.free))
      ensures State() == Age(old(State()), now)
      ensures numKeys + numFreeKeys == old(numKeys + numFreeKeys)
    {
      hide Valid, NodeAt, Ageing;
      ghost var keys, was, gone: set<KeyId> := shape.keys, cache, {};
      ghost var i: nat := 0;
      Position(-1);
      Position(0);
      AgeingStarts(now);
      var iter := listHead.forth;
      while iter != listHead
        invariant Valid() && i <= |shape.inUse| && Ageing(i, keys, was, now, gone)
        invariant iter == NodeAt(listHead, shape.inUse, i) && (iter == listHead <==> i == |shape.inUse|)
        invariant forall j {:trigger shape.inUse[j]} | 0 <= j < |shape.inUse| :: shape.inUse[j] in old(shape.inUse)
        invariant forall n | n in shape.free :: n in old(shape.inUse) || n in old(shape.free)
        invariant numKeys + numFreeKeys == old(numKeys + numFreeKeys)
        decreases |shape.inUse| - i
      {
        Position(i);
        Position(i + 1);
        var next := iter.forth;
        i, gone := AgeVisited(iter, now, i, keys, was, gone);
        Position(i);
        iter := next;
      }
      AgeingEnds(old(State()), now, gone);
    }

    lemma AgeingStarts(now: nat)
      requires Valid()
      ensures Ageing(0, shape.keys, cache, now, {})
    {
      hide Valid;
      assert shape.keys - {} == shape.keys;
    }

    lemma AgeingEnds(s: Store, now: nat, gone: set<KeyId>)
      requires Valid() && Ageing(|shape.inUse|, s.keys, s.cache, now, gone)
      ensures State() == Age(s, now)
    {
      hide Valid;
      AllKeysSatisfy((id, key) => !Expired(key, now));
      assert forall id | id in s.keys && id !in gone :: id in shape.keys && shape.keys[id] == s.keys[id];
      assert gone == ExpiredIds(s.keys, now);
    }

    /** How far auth_delkeys has come: before position i every key is an autokey or cleared. */
    ghost predicate Deleting(i: nat, keys: map<KeyId, Key>, was: Cache, gone: set<KeyId>, cleared: set<KeyId>)
      reads `shape, `cache, shape.inUse`keyid
    {
      && shape.keys == ClearedExcept(keys, gone, cleared)
      && gone <= UntrustedIds(keys) && cleared <= TrustedIds(keys)
      && cache == (if was.keyid in gone then NO_CACHE else was)
      && i <= |shape.inUse|
      && forall j {:trigger shape.inUse[j]} | 0 <= j < i ::
           shape.inUse[j].keyid > NTP_MAXKEY || shape.inUse[j].keyid in cleared
    }

    /** The body of the loop of auth_delkeys. */
    method DeleteVisited(sk: SymKey, ghost k: nat, ghost keys: map<KeyId, Key>, ghost was: Cache,
                         ghost g: set<KeyId>, ghost c: set<KeyId>)
      returns (ghost i: nat, ghost gone: set<KeyId>, ghost cleared: set<KeyId>)
      requires Valid() && k < |shape.inUse| && shape.inUse[k] == sk && Deleting(k, keys, was, g, c)
      modifies `cache, `numKeys, `freeKeys, `numFreeKeys, `shape, keyHash, listHead`forth, listHead`back
      modifies shape.inUse`hlink, shape.inUse`forth, shape.inUse`back, sk`keyid, sk`payload
      ensures Valid() && Deleting(i, keys, was, gone, cleared)
      ensures |shape.inUse| - i == old(|shape.inUse|) - k - 1
      ensures NodeAt(listHead, shape.inUse, i) == NodeAt(listHead, old(shape.inUse), k + 1)
      ensures forall j {:trigger shape.inUse[j]} | 0 <= j < |shape.inUse| :: shape.inUse[j] in old(shape.inUse)
      ensures forall n | n in shape.free :: n == sk || n in old(shape.free)
      ensures numKeys + numFreeKeys == old(numKeys + numFreeKeys)
    {
      hide Valid, Without, NodeAt, ClearedExcept, UntrustedIds, TrustedIds, Cleared;
      Position(k);
      DeleteStep(keys, g, c, sk.keyid);
      i, gone, cleared := k + 1, g, c;
      if sk.keyid > NTP_MAXKEY {
        return;
      }
      if sk.payload.trusted {
        cleared := cleared + {sk.keyid};
        SetPayload(sk, Cleared(sk.payload));
      } else {
        gone := gone + {sk.keyid};
        FreeVisited(sk, k);
        i := k;
      }
    }

    /** auth_delkeys: keys are cleared or taken off the list while it is walked. */
    method DelKeys()
      requires Valid()
      modifies `cache, `numKeys, `freeKeys, `numFreeKeys, `shape, keyHash, listHead, shape.inUse
      ensures Valid() && NodesFrom(old(shape.inUse), old(shape.free))
      ensures State() == Delete(old(State()))
      ensures numKeys + numFreeKeys == old(numKeys + numFreeKeys)
    {
      hide Valid, NodeAt, Deleting;
      ghost var keys, was, gone: set<KeyId>, cleared: set<KeyId> := shape.keys, cache, {}, {};
      ghost var i: nat := 0;
      Position(-1);
      Position(0);
      DeletionStarts();
      var iter := listHead.forth;
      while iter != listHead
        invariant Valid() && i <= |shape.inUse| && Deleting(i, keys, was, gone, cleared)
        invariant iter == NodeAt(listHead, shape.inUse, i) && (iter == listHead <==> i == |shape.inUse|)
        invariant forall j {:trigger shape.inUse[j]} | 0 <= j < |shape.inUse| :: shape.inUse[j] in old(shape.inUse)
        invariant forall n | n in shape.free :: n in old(shape.inUse) || n in old(shape.free)
        invariant numKeys + numFreeKeys == old(numKeys + numFreeKeys)
        decreases |shape.inUse| - i
      {
        Position(i);
        Position(i + 1);
        var next := iter.forth;
        i, gone, cleared := DeleteVisited(iter, i, keys, was, gone, cleared);
        Position(i);
        iter := next;
      }
      DeletionEnds(old(State()), gone, cleared);
    }

    lemma DeletionStarts()
      requires Valid()
      ensures Deleting(0, shape.keys, cache, {}, {})
    {
      hide Valid;
      DeleteStarts(shape.keys);
    }

    lemma DeletionEnds(s: Store, gone: set<KeyId>, cleared: set<KeyId>)
      requires Valid() && Deleting(|shape.inUse|, s.keys, s.cache, gone, cleared)
      ensures State() == Delete(s)
    {
      hide Valid, ClearedExcept, UntrustedIds, TrustedIds;
      AllKeysSatisfy((id, key) => id > NTP_MAXKEY || id in cleared);
      DeleteComputed(s, gone, cleared);
    }

    /** auth_havekey */
    method AuthKnownKey(id: KeyId) returns (r: bool)
      requires Valid()
      ensures r == Known(State(), id)
    {
      hide Valid;
      if id == 0 || cache.keyid == id {
        return true;
      }
      var sk := FindKey(id);
      r := sk != null;
    }

    /** One operation of a run. */
    method Perform(op: Op)
      requires Valid() && (op.OpPrealloc? ==> numKeys + numFreeKeys <= 0x7FFF_FFFF)
      modifies this, keyHash, listHead, shape.inUse, shape.free
      ensures Valid() && NodesFrom(old(shape.inUse), old(shape.free))
      ensures keyHash == old(keyHash) || fresh(keyHash)
      ensures State() == Apply(old(State()), op)
      ensures numKeys + numFreeKeys == Supply(old(numKeys + numFreeKeys), old(State()), op)
    {
      hide Valid;
      var known;
      match op
      case OpTrust(id, trust, now) => AuthTrust(id, trust, now);
      case OpSetKey(id, keytype, octets, acl) => SetAuthKey(id, keytype, octets, acl);
      case OpAge(now) => AgeKeys(now);
      case OpHave(id) => known := AuthHaveKey(id);
      case OpDelete => DelKeys();
      case OpPrealloc(keycount) =>
        ghost var bits := PreallocSymkeys(keycount);
    }

    // ---- resizing -------------------------------------------------------------------------

    /** LINK_SLIST on a hash chain of a table that is being filled. */
    method LinkChain(sk: SymKey, ghost chains: seq<seq<SymKey>>, ghost s: seq<SymKey>)
      requires Partitions(chains, s) && Anchors(keyHash[..], chains, s) && sk !in s
      requires keyHash.Length == |chains| && IsTableSize(keyHash.Length)
      modifies keyHash, sk`hlink
      ensures var b := Bucket(sk.keyid, |chains|);
        var next := chains[b := [sk] + chains[b]];
        Partitions(next, s + [sk]) && Anchors(keyHash[..], next, s + [sk])
    {
      hide Partitions, Anchors, Bucket;
      ghost var table := keyHash[..];
      TableChains(table, chains, s);
      sk.hlink := keyHash[Bucket(sk.keyid, keyHash.Length)];
      AnchorInsert(table, chains, s, sk);
      keyHash[Bucket(sk.keyid, keyHash.Length)] := sk;
      assert keyHash[..] == table[Bucket(sk.keyid, |chains|) := sk];
    }

    /** A new table of the given size is filled from the list of keys in use. */
    method Rehash(buckets: nat, ghost s: seq<SymKey>) returns (ghost chains: seq<seq<SymKey>>)
      requires Ring(listHead, s) && IsTableSize(buckets)
      modifies `keyHash, s`hlink
      ensures fresh(keyHash) && keyHash.Length == |chains| == buckets
      ensures Partitions(chains, s) && Anchors(keyHash[..], chains, s)
    {
      hide Partitions, Anchors, Bucket;
      keyHash := new SymKey?[buckets](_ => null);
      chains := seq(buckets, _ => []);
      ghost var i := 0;
      EmptyTable(keyHash[..], chains);
      assert s[..0] == [];
      var iter := listHead.forth;
      while iter != listHead
        invariant i <= |s| && iter == NodeAt(listHead, s, i) && fresh(keyHash) && keyHash.Length == |chains| == buckets
        invariant Partitions(chains, s[..i]) && Anchors(keyHash[..], chains, s[..i])
        decreases |s| - i
      {
        var next := iter.forth;
        ghost var b := Bucket(iter.keyid, |chains|);
        LinkChain(iter, chains, s[..i]);
        chains := chains[b := [iter] + chains[b]];
        assert s[..i] + [iter] == s[..i + 1];
        i := i + 1;
        iter := next;
      }
      assert s[..i] == s;
    }

    /** auth_resize_hashtable: no key is moved, only the buckets are new. */
    method ResizeHashtable() returns (ghost hashbits: nat)
      requires Valid() && numKeys + numFreeKeys < Pow2(sizeBits)
      modifies `keyHash, `shape, shape.inUse`hlink
      ensures Valid() && shape == old(shape).(buckets := shape.buckets) && fresh(keyHash)
      ensures keyHash.Length == Pow2(hashbits) && 4 <= hashbits <= 15
      ensures hashbits < 15 ==> numKeys + numFreeKeys < 4 * keyHash.Length
      ensures hashbits > 4 ==> numKeys + numFreeKeys >= 4 * Pow2(hashbits - 1)
    {
      hide Indexes, Holds, Partitions, Anchors, Ring, Separate, FreeChain, Pow2;
      var bits := HashBits(numKeys + numFreeKeys, sizeBits);
      hashbits := bits;
      ghost var chains := Rehash(Pow2(bits), shape.inUse);
      shape := shape.(buckets := chains);
    }

    lemma SizesFit()
      ensures 0x7FFF_FFFF < Pow2(sizeBits)
    {
      WordPowers();
      Pow2Sum(32, 32);
    }

    /** auth_prealloc_symkeys */
    method PreallocSymkeys(keycount: i32) returns (ghost hashbits: nat)
      requires Valid() && numKeys + numFreeKeys <= 0x7FFF_FFFF
      modifies `keyHash, `freeKeys, `numFreeKeys, `shape, shape.inUse`hlink
      ensures Valid() && State() == old(State()) && shape.inUse == old(shape.inUse)
      ensures shape.at == old(shape.at) && fresh(keyHash)
      ensures numKeys == old(numKeys)
      ensures numKeys + numFreeKeys == if keycount > old(numKeys + numFreeKeys) then keycount else old(numKeys + numFreeKeys)
      ensures keyHash.Length == Pow2(hashbits) && 4 <= hashbits <= 15
      ensures hashbits < 15 ==> numKeys + numFreeKeys < 4 * keyHash.Length
      ensures hashbits > 4 ==> numKeys + numFreeKeys >= 4 * Pow2(hashbits - 1)
      ensures NodesFrom(old(shape.inUse), old(shape.free))
    {
      hide Valid, Pow2;
      SizesFit();
      var additional := keycount - (numKeys + numFreeKeys);
      if additional > 0 {
        MoreMem(additional);
      }
      hashbits := ResizeHashtable();
    }

    /** The node at a position of the list, its successor and its key. */
    lemma Position(i: int)
      requires Valid() && -1 <= i <= |shape.inUse|
      ensures i < |shape.inUse| ==> NodeAt(listHead, shape.inUse, i).forth == NodeAt(listHead, shape.inUse, i + 1)
      ensures NodeAt(listHead, shape.inUse, i) == listHead <==> i == -1 || i == |shape.inUse|
      ensures 0 <= i < |shape.inUse| ==>
        var n := shape.inUse[i];
        n == NodeAt(listHead, shape.inUse, i) && n.keyid in shape.keys && shape.keys[n.keyid] == n.payload
    {
      if 0 <= i < |shape.inUse| {
        KeyInUse(shape.keys, shape.at, shape.inUse, shape.inUse[i]);
      }
    }

    lemma AllKeysSatisfy(p: (KeyId, Key) -> bool)
      requires Valid() && forall i | 0 <= i < |shape.inUse| :: p(shape.inUse[i].keyid, shape.inUse[i].payload)
      ensures forall id | id in shape.keys :: p(id, shape.keys[id])
    {
      AllKeys(shape.keys, shape.at, shape.inUse, p);
    }
  }
  /** Any sequence of operations on a new store, as long as the key structures can be counted in an
      int: the lists stay well formed throughout, however often the table is replaced, and the store
      is what the operations on the map and cache make of it. */
  method Run(ops: seq<Op>, width: Width) returns (store: KeyStore)
    requires Nodes(ops) <= 0x7FFF_FFFF
    ensures fresh(store) && store.Valid() && store.State() == ApplyAll(EMPTY_STORE, ops)
    ensures store.numKeys == |store.shape.keys| && store.numKeys + store.numFreeKeys == Nodes(ops)
  {
    hide ApplyAll, Apply, Supply, Nodes, KeyStore.Valid, KeyStore.State;
    NoOperations(EMPTY_STORE);
    store := new KeyStore(width);
    var i := 0;
    while i < |ops|
      invariant i <= |ops| && store.Valid() && store.State() == ApplyAll(EMPTY_STORE, ops[..i])
      invariant store.numKeys + store.numFreeKeys == Nodes(ops[..i])
      invariant fresh(store) && fresh(store.listHead) && fresh(store.keyHash)
      invariant (forall n | n in store.shape.inUse :: fresh(n)) && forall n | n in store.shape.free :: fresh(n)
    {
      OneOperation(EMPTY_STORE, ops, i);
      NodesGrow(ops, i);
      ghost var s, f := store.shape.inUse, store.shape.free;
      assert forall j | 0 <= j < |s| :: s[j] in s;
      assert forall j | 0 <= j < |f| :: f[j] in f;
      store.Perform(ops[i]);
      i := i + 1;
    }
    assert ops[..i] == ops;
    store.CountsKeys();
  }
}
