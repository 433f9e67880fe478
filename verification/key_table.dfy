/** How the hash table and the index of the key store relate to the list of keys in use: what
    inserting and removing a node does to them. */
module KeyTables {

  import opened KeyMap
  import opened KeyLists
  import opened BitWords

  /** The table has 4 to 15 index bits. */
  predicate IsTableSize(buckets: nat) { exists h: nat | 4 <= h <= 15 :: buckets == Pow2(h) }

  /** DEF_AUTHHASHSIZE is a table size. */
  lemma DefaultSize()
    ensures IsTableSize(64)
  {
    assert 64 == Pow2(6);
  }

  /** KEYHASH: the id masked with the table size less one, which is its remainder. */
  function Bucket(id: KeyId, buckets: nat): (b: nat)
    requires IsTableSize(buckets)
    ensures b == id % buckets < buckets
  {
    TableMask(id, buckets);
    And(id, buckets - 1)
  }

  lemma TableMask(id: nat, buckets: nat)
    requires IsTableSize(buckets)
    ensures buckets > 0 && And(id, buckets - 1) == id % buckets
  {
    var h: nat :| 4 <= h <= 15 && buckets == Pow2(h);
    AndLowOnes(id, h);
  }

  /** Each key in use is the only one with its id. */
  ghost predicate Indexes(at: map<KeyId, SymKey>, s: seq<SymKey>)
    reads s`keyid
  {
    && (forall i {:trigger s[i]} | 0 <= i < |s| :: s[i].keyid in at && at[s[i].keyid] == s[i])
    && (forall id | id in at :: at[id] in s && at[id].keyid == id)
  }

  /** The nodes hold the keys of the abstract map. */
  ghost predicate Holds(keys: map<KeyId, Key>, at: map<KeyId, SymKey>, s: seq<SymKey>)
    reads s`payload
  {
    keys.Keys == at.Keys && forall id | id in at :: at[id] in s && at[id].payload == keys[id]
  }

  lemma SameDomain(keys: map<KeyId, Key>, at: map<KeyId, SymKey>, s: seq<SymKey>)
    requires Holds(keys, at, s)
    ensures keys.Keys == at.Keys
  {}

  lemma HoldsInsert(keys: map<KeyId, Key>, at: map<KeyId, SymKey>, s: seq<SymKey>, id: KeyId, n: SymKey)
    requires Holds(keys, at, s) && id !in at
    ensures Holds(keys[id := n.payload], at[id := n], s + [n])
  {
    var t := s + [n];
    assert t[|s|] == n && forall m | m in s :: m in t;
  }

  lemma HoldsUpdate(keys: map<KeyId, Key>, at: map<KeyId, SymKey>, s: seq<SymKey>, n: SymKey)
    requires Indexes(at, s) && n in s && keys.Keys == at.Keys
    requires forall id | id in at && at[id] != n :: at[id].payload == keys[id]
    ensures Holds(keys[n.keyid := n.payload], at, s)
  {}

  /** What index and map say about a key in use. */
  lemma KeyInUse(keys: map<KeyId, Key>, at: map<KeyId, SymKey>, s: seq<SymKey>, n: SymKey)
    requires Indexes(at, s) && Holds(keys, at, s) && n in s
    ensures n.keyid in keys && keys[n.keyid] == n.payload && at[n.keyid] == n
  {}

  /** What holds of all nodes in use holds of all keys. */
  lemma AllKeys(keys: map<KeyId, Key>, at: map<KeyId, SymKey>, s: seq<SymKey>, p: (KeyId, Key) -> bool)
    requires Indexes(at, s) && Holds(keys, at, s)
    requires forall i | 0 <= i < |s| :: p(s[i].keyid, s[i].payload)
    ensures forall id | id in keys :: p(id, keys[id])
  {
    forall id | id in keys
      ensures p(id, keys[id])
    {
      var i :| 0 <= i < |s| && s[i] == at[id];
    }
  }

  lemma HoldsRemove(keys: map<KeyId, Key>, at: map<KeyId, SymKey>, s: seq<SymKey>, k: nat)
    requires k < |s| && Distinct(s) && Indexes(at, s) && Holds(keys, at, s)
    ensures Holds(keys - {s[k].keyid}, at - {s[k].keyid}, Without(s, k))
  {
    WithoutMembers(s, k);
  }

  /** The buckets partition the keys in use, each key lying in the bucket of its id. */
  ghost predicate Partitions(buckets: seq<seq<SymKey>>, s: seq<SymKey>)
    reads s`keyid
  {
    && IsTableSize(|buckets|)
    && (forall b, i {:trigger buckets[b][i]} | 0 <= b < |buckets| && 0 <= i < |buckets[b]| ::
          buckets[b][i] in s && Bucket(buckets[b][i].keyid, |buckets|) == b)
    && (forall b | 0 <= b < |buckets| :: Distinct(buckets[b]))
    && (forall i {:trigger s[i]} | 0 <= i < |s| :: s[i] in buckets[Bucket(s[i].keyid, |buckets|)])
  }

  /** The table anchors a chain through each bucket. */
  ghost predicate Anchors(table: seq<SymKey?>, buckets: seq<seq<SymKey>>, s: seq<SymKey>)
    requires Partitions(buckets, s)
    reads s`keyid, s`hlink
  {
    && |table| == |buckets|
    && forall b | 0 <= b < |buckets| :: HashChain(table[b], buckets[b])
  }

  lemma EmptyTable(table: seq<SymKey?>, buckets: seq<seq<SymKey>>)
    requires |table| == |buckets| && IsTableSize(|buckets|)
    requires (forall b | 0 <= b < |table| :: table[b] == null) && forall b | 0 <= b < |buckets| :: buckets[b] == []
    ensures Partitions(buckets, []) && Anchors(table, buckets, [])
  {}

  lemma IndexMembers(at: map<KeyId, SymKey>, s: seq<SymKey>)
    requires Indexes(at, s)
    ensures forall id | id in at :: at[id] in s && at[id].keyid == id
  {}

  lemma IndexInsert(at: map<KeyId, SymKey>, s: seq<SymKey>, n: SymKey)
    requires Indexes(at, s) && n !in s && n.keyid !in at
    ensures Indexes(at[n.keyid := n], s + [n])
  {
    var t := s + [n];
    assert t[|s|] == n;
    assert forall i | 0 <= i < |s| :: t[i] == s[i];
    assert forall m | m in s :: m in t;
  }

  /** The index has as many keys as there are nodes in use. */
  lemma {:induction false} IndexSize(at: map<KeyId, SymKey>, s: seq<SymKey>)
    requires Distinct(s) && Indexes(at, s)
    ensures |at| == |s|
    decreases |s|
  {
    hide Without;
    if |s| == 0 {
      assert at == map[];
    } else {
      var k := |s| - 1;
      var rest := at - {s[k].keyid};
      WithoutMembers(s, k);
      IndexRemove(at, s, k);
      WithoutAt(s[0], s, k);
      IndexSize(rest, Without(s, k));
      assert rest.Keys == at.Keys - {s[k].keyid};
    }
  }

  lemma PartitionInsert(buckets: seq<seq<SymKey>>, s: seq<SymKey>, n: SymKey)
    requires Partitions(buckets, s) && n !in s
    ensures var b := Bucket(n.keyid, |buckets|);
      Partitions(buckets[b := [n] + buckets[b]], s + [n])
  {
    var b := Bucket(n.keyid, |buckets|);
    var t: seq<SymKey>, next: seq<seq<SymKey>> := s + [n], buckets[b := [n] + buckets[b]];
    forall c, i | 0 <= c < |next| && 0 <= i < |next[c]|
      ensures next[c][i] in t && Bucket(next[c][i].keyid, |next|) == c
    {
      if c != b {
        assert next[c][i] == buckets[c][i];
      } else if i > 0 {
        assert next[c][i] == buckets[c][i - 1];
      }
    }
    assert Distinct(next[b]) by {
      assert n !in buckets[b];
      assert forall i | 0 < i < |next[b]| :: next[b][i] == buckets[b][i - 1];
    }
    forall i | 0 <= i < |t|
      ensures t[i] in next[Bucket(t[i].keyid, |next|)]
    {
      if i < |s| {
        assert t[i] == s[i];
        assert s[i] in buckets[Bucket(s[i].keyid, |buckets|)];
      } else {
        assert next[b][0] == n;
      }
    }
  }

  /** A node put in front of its chain. */
  lemma AnchorInsert(table: seq<SymKey?>, buckets: seq<seq<SymKey>>, s: seq<SymKey>, n: SymKey)
    requires Partitions(buckets, s) && Anchors(table, buckets, s) && n !in s
    requires IsTableSize(|buckets|) && n.hlink == table[Bucket(n.keyid, |buckets|)]
    ensures var b := Bucket(n.keyid, |buckets|);
      && Partitions(buckets[b := [n] + buckets[b]], s + [n])
      && Anchors(table[b := n], buckets[b := [n] + buckets[b]], s + [n])
  {
    hide Partitions;
    PartitionInsert(buckets, s, n);
    var b := Bucket(n.keyid, |buckets|);
    var chain := [n] + buckets[b];
    assert HashChain(table[b], buckets[b]);
    assert forall i | 0 < i < |chain| :: chain[i] == buckets[b][i - 1] && NextIn(chain, i) == NextIn(buckets[b], i - 1);
    assert HashChain(n, chain);
  }

  lemma IndexRemove(at: map<KeyId, SymKey>, s: seq<SymKey>, k: nat)
    requires k < |s| && Distinct(s) && Indexes(at, s)
    ensures Indexes(at - {s[k].keyid}, Without(s, k))
  {
    var w, n := Without(s, k), s[k];
    WithoutMembers(s, k);
    assert at[n.keyid] == n;
    forall i | 0 <= i < |w|
      ensures w[i].keyid in at - {n.keyid} && at[w[i].keyid] == w[i]
    {
      assert w[i] == s[if i < k then i else i + 1];
    }
  }

  lemma PartitionRemove(buckets: seq<seq<SymKey>>, s: seq<SymKey>, k: nat, j: nat)
    requires k < |s| && Distinct(s) && Partitions(buckets, s)
    requires var b := Bucket(s[k].keyid, |buckets|); j < |buckets[b]| && buckets[b][j] == s[k]
    ensures var b := Bucket(s[k].keyid, |buckets|);
      Partitions(buckets[b := Without(buckets[b], j)], Without(s, k))
  {
    var b, n := Bucket(s[k].keyid, |buckets|), s[k];
    var w: seq<SymKey>, next: seq<seq<SymKey>> := Without(s, k), buckets[b := Without(buckets[b], j)];
    WithoutMembers(s, k);
    WithoutMembers(buckets[b], j);
    forall c, i | 0 <= c < |next| && 0 <= i < |next[c]|
      ensures next[c][i] in w && Bucket(next[c][i].keyid, |next|) == c
    {
      if c == b {
        assert next[b][i] in buckets[b] && next[b][i] != n;
        assert next[b][i] == buckets[b][if i < j then i else i + 1];
      } else {
        assert next[c][i] == buckets[c][i];
      }
    }
    forall i | 0 <= i < |w|
      ensures w[i] in next[Bucket(w[i].keyid, |next|)]
    {
      assert w[i] == s[if i < k then i else i + 1];
      assert w[i] in buckets[Bucket(w[i].keyid, |buckets|)] && w[i] != n;
    }
  }

  /** A bucket's chain is a list of distinct nodes in use, and no node lies in two of them. */
  lemma BucketChains(table: seq<SymKey?>, buckets: seq<seq<SymKey>>, s: seq<SymKey>, b: nat)
    requires Partitions(buckets, s) && Anchors(table, buckets, s) && b < |buckets|
    ensures HashChain(table[b], buckets[b]) && Distinct(buckets[b])
    ensures forall i {:trigger buckets[b][i]} | 0 <= i < |buckets[b]| :: buckets[b][i] in s
    ensures forall c, i {:trigger buckets[c][i]} | 0 <= c < |buckets| && c != b && 0 <= i < |buckets[c]| ::
      buckets[c][i] !in buckets[b]
  {}

  lemma TableChains(table: seq<SymKey?>, buckets: seq<seq<SymKey>>, s: seq<SymKey>)
    requires Partitions(buckets, s) && Anchors(table, buckets, s)
    ensures forall c | 0 <= c < |buckets| :: HashChain(table[c], buckets[c])
  {}

  lemma InItsBucket(buckets: seq<seq<SymKey>>, s: seq<SymKey>, k: nat)
    requires Partitions(buckets, s) && k < |s|
    ensures s[k] in buckets[Bucket(s[k].keyid, |buckets|)]
  {}

  /** A node taken out of its chain, while the other chains stay. */
  lemma AnchorRemove(table: seq<SymKey?>, buckets: seq<seq<SymKey>>, s: seq<SymKey>, k: nat, j: nat, anchor: SymKey?)
    requires k < |s| && Distinct(s) && Partitions(buckets, s) && |table| == |buckets|
    requires var b := Bucket(s[k].keyid, |buckets|);
      && j < |buckets[b]| && buckets[b][j] == s[k] && HashChain(anchor, Without(buckets[b], j))
      && forall c | 0 <= c < |buckets| && c != b :: HashChain(table[c], buckets[c])
    ensures var b := Bucket(s[k].keyid, |buckets|);
      var chains := buckets[b := Without(buckets[b], j)];
      Partitions(chains, Without(s, k)) && Anchors(table[b := anchor], chains, Without(s, k))
  {
    hide Partitions, HashChain, Distinct, Without;
    PartitionRemove(buckets, s, k, j);
  }
}
