/** The linked lists of the key store: a circular doubly linked list with its head node in it, and
    singly linked chains. Each macro is a method proved on the sequence of nodes it stands for. */
module KeyLists {

  import opened KeyMap

  /** struct savekey. The links of one node serve the hash chain and either of the other lists. */
  class SymKey {
    var hlink: SymKey?
    var back: SymKey?
    var forth: SymKey?
    var keyid: KeyId
    var payload: Key

    constructor ()
      ensures hlink == null && back == null && forth == null
    {
      hlink, back, forth := null, null, null;
      keyid := 0;
      payload := Key(NoSecret, 0, false, 0, []);
    }
  }

  predicate Distinct(s: seq<SymKey>) { forall i, j | 0 <= i < j < |s| :: s[i] != s[j] }

  function Without(s: seq<SymKey>, k: nat): seq<SymKey>
    requires k < |s|
  {
    s[..k] + s[k + 1..]
  }

  lemma WithoutMembers(s: seq<SymKey>, k: nat)
    requires k < |s| && Distinct(s)
    ensures Distinct(Without(s, k)) && s[k] !in Without(s, k)
    ensures forall n :: n in Without(s, k) <==> n in s && n != s[k]
  {
    forall n | n in s && n != s[k]
      ensures n in Without(s, k)
    {
      var i :| 0 <= i < |s| && s[i] == n;
      assert Without(s, k)[if i < k then i else i - 1] == n;
    }
  }

  /** The free nodes f are distinct and neither the list head nor in use. */
  predicate Separate(head: SymKey, s: seq<SymKey>, f: seq<SymKey>) {
    Distinct(f) && head !in f && forall i | 0 <= i < |s| :: s[i] !in f
  }

  lemma SeparateChanges(head: SymKey, s: seq<SymKey>, f: seq<SymKey>, n: SymKey)
    requires Separate(head, s, f)
    ensures n !in f ==> Separate(head, s + [n], f)
    ensures n !in f && n !in s && n != head ==> Separate(head, s, [n] + f)
    ensures |f| > 0 ==> f[0] != head && f[0] !in s && f[0] !in f[1..] && Separate(head, s, f[1..])
  {
    if |f| > 0 {
      assert forall i | 0 <= i < |f[1..]| :: f[1..][i] == f[i + 1];
      assert f[0] in f;
    }
  }

  // ---- the circular list ------------------------------------------------------------------

  /** Where the forward link of position i leads, the head being position -1 and |s|. */
  function NodeAt(head: SymKey, s: seq<SymKey>, i: int): SymKey
    requires -1 <= i <= |s|
  {
    if 0 <= i < |s| then s[i] else head
  }

  lemma WithoutAt(head: SymKey, s: seq<SymKey>, k: nat)
    requires k < |s|
    ensures |Without(s, k)| == |s| - 1 && NodeAt(head, Without(s, k), k) == NodeAt(head, s, k + 1)
    ensures forall j | 0 <= j < |s| - 1 :: Without(s, k)[j] == s[if j < k then j else j + 1]
  {}

  /** The list anchored at head goes through s in both directions. */
  ghost predicate Ring(head: SymKey, s: seq<SymKey>)
    reads head`forth, head`back, s`forth, s`back
  {
    head !in s && Distinct(s) && Forwards(head, s) && Backwards(head, s)
  }

  ghost predicate Forwards(head: SymKey, s: seq<SymKey>)
    reads head`forth, s`forth
  {
    head.forth == NodeAt(head, s, 0) &&
    forall i {:trigger s[i].forth} | 0 <= i < |s| :: s[i].forth == NodeAt(head, s, i + 1)
  }

  ghost predicate Backwards(head: SymKey, s: seq<SymKey>)
    reads head`back, s`back
  {
    head.back == NodeAt(head, s, |s| - 1) &&
    forall i {:trigger s[i].back} | 0 <= i < |s| :: s[i].back == NodeAt(head, s, i - 1)
  }

  /** INIT_DLIST */
  method InitDlist(head: SymKey)
    modifies head`forth, head`back
    ensures Ring(head, [])
  {
    head.forth := head;
    head.back := head;
  }

  /** LINK_TAIL_DLIST */
  method LinkTailDlist(head: SymKey, e: SymKey, ghost s: seq<SymKey>)
    requires Ring(head, s) && e !in s && e != head
    modifies head`forth, head`back, e`forth, e`back, s`forth
    ensures Ring(head, s + [e])
  {
    e.back := head.back;
    e.forth := head;
    head.back.forth := e;
    head.back := e;
  }

  /** UNLINK_DLIST, first half: the node before e is linked to the one after it. */
  method BridgeForth(e: SymKey, ghost head: SymKey, ghost s: seq<SymKey>, ghost k: nat)
    requires Forwards(head, s) && k < |s| && s[k] == e && e.back == NodeAt(head, s, k - 1)
    requires Distinct(s) && head !in s
    modifies head`forth, s`forth
    ensures Forwards(head, Without(s, k)) && e.forth == old(e.forth)
  {
    hide Without;
    WithoutAt(head, s, k);
    e.back.forth := e.forth;
  }

  /** UNLINK_DLIST, second half: the node after e is linked back to the one before it. */
  method BridgeBack(e: SymKey, ghost head: SymKey, ghost s: seq<SymKey>, ghost k: nat)
    requires Backwards(head, s) && k < |s| && s[k] == e && e.forth == NodeAt(head, s, k + 1)
    requires Distinct(s) && head !in s
    modifies head`back, s`back
    ensures Backwards(head, Without(s, k)) && e.back == old(e.back)
  {
    hide Without;
    WithoutAt(head, s, k);
    e.forth.back := e.back;
  }

  /** UNLINK_DLIST */
  method UnlinkDlist(e: SymKey, ghost head: SymKey, ghost s: seq<SymKey>, ghost k: nat)
    requires Ring(head, s) && k < |s| && s[k] == e
    modifies head`forth, head`back, s`forth, s`back
    ensures Ring(head, Without(s, k))
    ensures e.forth == old(e.forth) && e.back == old(e.back)
  {
    hide Distinct, Without;
    WithoutMembers(s, k);
    BridgeForth(e, head, s, k);
    assert Forwards(head, Without(s, k));
    BridgeBack(e, head, s, k);
    assert Forwards(head, Without(s, k));
  }

  lemma RingNodes(head: SymKey, s: seq<SymKey>)
    requires Ring(head, s)
    ensures Distinct(s) && head !in s
  {}

  lemma SeparateNodes(head: SymKey, s: seq<SymKey>, f: seq<SymKey>)
    requires Separate(head, s, f)
    ensures forall i {:trigger f[i]} | 0 <= i < |f| :: f[i] != head && f[i] !in s
  {}

  lemma SeparateRemoved(head: SymKey, s: seq<SymKey>, f: seq<SymKey>, k: nat)
    requires k < |s| && Distinct(s) && head !in s && Separate(head, s, f)
    ensures Separate(head, Without(s, k), f)
    ensures s[k] != head && s[k] !in f && s[k] !in Without(s, k)
  {
    WithoutMembers(s, k);
    assert forall i | 0 <= i < |Without(s, k)| :: Without(s, k)[i] in s;
  }

  // ---- chains -----------------------------------------------------------------------------

  function NextIn(s: seq<SymKey>, i: nat): SymKey?
    requires i < |s|
  {
    if i + 1 < |s| then s[i + 1] else null
  }

  /** The hash chain that starts at first goes through s. */
  ghost predicate HashChain(first: SymKey?, s: seq<SymKey>)
    reads s`hlink
  {
    && first == (if |s| == 0 then null else s[0])
    && forall i {:trigger s[i].hlink} | 0 <= i < |s| :: s[i].hlink == NextIn(s, i)
  }

  /** The same for the free list, which runs over the forward links. */
  ghost predicate FreeChain(first: SymKey?, s: seq<SymKey>)
    reads s`forth
  {
    && first == (if |s| == 0 then null else s[0])
    && forall i {:trigger s[i].forth} | 0 <= i < |s| :: s[i].forth == NextIn(s, i)
  }

  lemma ChainLink(first: SymKey?, s: seq<SymKey>, k: nat)
    requires HashChain(first, s) && k < |s|
    ensures s[k].hlink == NextIn(s, k)
  {}

  /** UNLINK_SLIST on a hash chain; the pointer to a pointer is the node before, or none for the
      anchor itself. The answer is the new anchor and the node found. */
  method UnlinkHashChain(first: SymKey?, x: SymKey, ghost s: seq<SymKey>)
    returns (anchor: SymKey?, unlinked: SymKey?, ghost k: nat)
    requires HashChain(first, s) && Distinct(s)
    modifies s`hlink
    ensures x !in s ==> unlinked == null && anchor == first && HashChain(anchor, s)
    ensures x in s ==> unlinked == x && k < |s| && s[k] == x && HashChain(anchor, Without(s, k))
  {
    var prev: SymKey?, cur := null, first;
    k := 0;
    anchor, unlinked := first, null;
    while cur != x
      invariant k <= |s| && (|s| > 0 ==> k < |s|) && cur == (if |s| == 0 then null else s[k])
      invariant prev == if k == 0 then null else s[k - 1]
      invariant x !in s[..k] && HashChain(first, s)
      decreases |s| - k
    {
      if |s| > 0 { ChainLink(first, s, k); }
      if cur != null && cur.hlink != null {
        prev, cur := cur, cur.hlink;
        k := k + 1;
      } else {
        assert s == if |s| == 0 then [] else s[..k] + [s[k]];
        return;
      }
    }
    ChainLink(first, s, k);
    label found:
    if prev == null {
      anchor := cur.hlink;
    } else {
      prev.hlink := cur.hlink;
    }
    unlinked := cur;
    ghost var w := Without(s, k);
    forall i | 0 <= i < |w|
      ensures w[i].hlink == if i + 1 < |w| then w[i + 1] else null
    {
      ghost var j := if i < k then i else i + 1;
      assert w[i] == s[j] && old@found(s[j].hlink) == if j + 1 < |s| then s[j + 1] else null;
    }
    assert HashChain(anchor, w);
  }
}
