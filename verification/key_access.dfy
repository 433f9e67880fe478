/** Key access lists: which addresses may use a key. */
module KeyAccess {

  import opened MachineWords
  import opened BitWords

  /** A socket address: none at all (also a null pointer), IPv4, IPv6 with its scope, or a family
      the code does not know. Bytes are in network order. */
  datatype Address =
    | Unspec
    | Inet(v4: seq<u8>)
    | Inet6(scope: nat, v6: seq<u8>)
    | Other(family: nat)

  predicate WellFormed(a: Address) { (a.Inet? ==> |a.v4| == 4) && (a.Inet6? ==> |a.v6| == 16) }

  datatype Access = Access(addr: Address, subnetbits: nat)

  function Bytes(a: Address): seq<u8>
    requires a.Inet? || a.Inet6?
  {
    if a.Inet? then a.v4 else a.v6
  }

  /** Bit i of an address, from the most significant bit of the first byte on. */
  predicate Bit(bytes: seq<u8>, i: nat)
    requires i < 8 * |bytes|
  {
    ByteBit(bytes[i / 8], i % 8)
  }

  predicate ByteBit(b: u8, j: nat)
    requires j < 8
  {
    ShiftRight(b, 7 - j) % 2 == 1
  }

  /** Only addresses of one known family compare at all, and IPv6 ones only within a scope. */
  predicate Comparable(a1: Address, a2: Address) {
    (a1.Inet? && a2.Inet?) || (a1.Inet6? && a2.Inet6? && a1.scope == a2.scope)
  }

  /** keyacc_amatch: the addresses agree in their first mbits bits, or in all of them when there are
      fewer. Whole bytes are compared first and the rest under a mask. */
  predicate Amatch(a1: Address, a2: Address, mbits: nat)
    requires WellFormed(a1) && WellFormed(a2)
    ensures Amatch(a1, a2, mbits) <==>
      && Comparable(a1, a2)
      && forall i | 0 <= i < mbits && i < 8 * |Bytes(a1)| :: Bit(Bytes(a1), i) == Bit(Bytes(a2), i)
  {
    if !Comparable(a1, a2) then false
    else
      var pm1, pm2 := Bytes(a1), Bytes(a2);
      var bits := if mbits > 8 * |pm1| then 8 * |pm1| else mbits;
      var rest := bits % 8;
      var msk := LeadingOnes(rest);
      var len := bits / 8;
      PrefixesAgree(pm1, pm2, bits);
      pm1[..len] == pm2[..len] && (msk == 0 || And(Xor(pm1[len], pm2[len]), msk) == 0)
  }

  /** No address at all and unknown families match nothing, not even themselves; neither do different
      families, nor IPv6 addresses of different scopes. Within a family no bits match everything, and
      all bits only the address itself. */
  lemma MatchLaws(a: Address, b: Address, mbits: nat)
    requires WellFormed(a) && WellFormed(b)
    ensures a.Unspec? || a.Other? || b.Unspec? || b.Other? ==> !Amatch(a, b, mbits)
    ensures a.Inet? != b.Inet? ==> !Amatch(a, b, mbits)
    ensures a.Inet6? && b.Inet6? && a.scope != b.scope ==> !Amatch(a, b, mbits)
    ensures (a.Inet? && b.Inet?) || (a.Inet6? && b.Inet6? && a.scope == b.scope) ==> Amatch(a, b, 0)
    ensures a.Inet? && b.Inet? && mbits >= 32 ==> Amatch(a, b, mbits) == (a == b)
    ensures a.Inet6? && b.Inet6? && mbits >= 128 ==> Amatch(a, b, mbits) == (a == b)
  {
    hide Bit;
    if a.Inet? && b.Inet? && Amatch(a, b, mbits) && mbits >= 32 {
      WholeBytes(a.v4, b.v4, 4);
      assert a.v4[..4] == a.v4 && b.v4[..4] == b.v4;
    }
    if a.Inet6? && b.Inet6? && Amatch(a, b, mbits) && mbits >= 128 {
      WholeBytes(a.v6, b.v6, 16);
      assert a.v6[..16] == a.v6 && b.v6[..16] == b.v6;
    }
  }

  lemma PrefixesAgree(pm1: seq<u8>, pm2: seq<u8>, bits: nat)
    requires |pm1| == |pm2| && bits <= 8 * |pm1|
    ensures var rest, len := bits % 8, bits / 8;
      var msk := LeadingOnes(rest);
      && (msk == 0 <==> rest == 0) && (rest != 0 ==> len < |pm1|)
      && ((pm1[..len] == pm2[..len] && (msk == 0 || And(Xor(pm1[len], pm2[len]), msk) == 0)) <==>
          forall i | 0 <= i < bits :: Bit(pm1, i) == Bit(pm2, i))
  {
    hide ByteBit, And, Xor, LeadingOnes;
    var rest, len := bits % 8, bits / 8;
    MaskIsHigh(rest);
    if forall i | 0 <= i < bits :: Bit(pm1, i) == Bit(pm2, i) {
      WholeBytes(pm1, pm2, len);
    }
    if rest != 0 {
      MaskedByte(pm1[len], pm2[len], rest);
      LastByte(pm1, pm2, bits);
    }
    if pm1[..len] == pm2[..len] {
      assert forall i | 0 <= i < 8 * len :: pm1[i / 8] == pm1[..len][i / 8];
    }
  }

  lemma WholeBytes(pm1: seq<u8>, pm2: seq<u8>, len: nat)
    requires |pm1| == |pm2| && len <= |pm1| && forall i | 0 <= i < 8 * len :: Bit(pm1, i) == Bit(pm2, i)
    ensures pm1[..len] == pm2[..len]
  {
    hide ByteBit;
    forall k | 0 <= k < len
      ensures pm1[k] == pm2[k]
    {
      forall j | 0 <= j < 8
        ensures ByteBit(pm1[k], j) == ByteBit(pm2[k], j)
      {
        assert Bit(pm1, 8 * k + j) == Bit(pm2, 8 * k + j);
      }
      SameByte(pm1[k], pm2[k]);
    }
  }

  lemma LastByte(pm1: seq<u8>, pm2: seq<u8>, bits: nat)
    requires |pm1| == |pm2| && bits <= 8 * |pm1| && bits % 8 != 0
    ensures (forall j | 0 <= j < bits % 8 :: ByteBit(pm1[bits / 8], j) == ByteBit(pm2[bits / 8], j)) <==>
      forall i | bits - bits % 8 <= i < bits :: Bit(pm1, i) == Bit(pm2, i)
  {
    hide ByteBit;
    var len := bits / 8;
    assert forall i | 8 * len <= i < bits :: i / 8 == len && i % 8 == i - 8 * len;
    if forall i | 8 * len <= i < bits :: Bit(pm1, i) == Bit(pm2, i) {
      forall j | 0 <= j < bits % 8
        ensures ByteBit(pm1[len], j) == ByteBit(pm2[len], j)
      {
        assert Bit(pm1, 8 * len + j) == Bit(pm2, 8 * len + j);
      }
    }
  }

  /** 0xFF ^ (0xFF >> k) */
  function LeadingOnes(k: nat): nat
    requires k < 8
  {
    Xor(0xFF, ShiftRight(0xFF, k))
  }

  lemma MaskIsHigh(k: nat)
    requires k < 8
    ensures LeadingOnes(k) == 0x100 - Pow2(8 - k) && (LeadingOnes(k) == 0 <==> k == 0)
    ensures Pow2(8) == 0x100
  {
    hide Xor;
    BytePowers();
    ShiftedOnes(k);
    XorAllOnes(ShiftRight(0xFF, k), 8);
  }

  lemma ShiftedOnes(k: nat)
    requires k < 8
    ensures ShiftRight(0xFF, k) == Pow2(8 - k) - 1
  {
    BytePowers();
  }

  lemma BytePowers()
    ensures Pow2(0) == 1 && Pow2(1) == 2 && Pow2(2) == 4 && Pow2(3) == 8 && Pow2(4) == 16
    ensures Pow2(5) == 32 && Pow2(6) == 64 && Pow2(7) == 128 && Pow2(8) == 256
  {}

  /** The mask of k leading ones compares k leading bits. */
  lemma MaskedByte(a: u8, b: u8, k: nat)
    requires k < 8
    ensures And(Xor(a, b), LeadingOnes(k)) == 0 <==> forall j | 0 <= j < k :: ByteBit(a, j) == ByteBit(b, j)
  {
    hide And, Xor, ShiftRight, LeadingOnes, ByteBit;
    MaskIsHigh(k);
    XorBound(a, b, 8);
    AndHighOnesTest(Xor(a, b), 8, 8 - k);
    XorShifted(a, b, 8 - k);
    XorIsZero(ShiftRight(a, 8 - k), ShiftRight(b, 8 - k));
    FirstBits(a, b, k);
  }

  /** What shifting leaves are the leading bits. */
  lemma {:induction false} FirstBits(a: u8, b: u8, k: nat)
    requires k <= 8
    ensures ShiftRight(a, 8 - k) == ShiftRight(b, 8 - k) <==> forall j | 0 <= j < k :: ByteBit(a, j) == ByteBit(b, j)
  {
    BytePowers();
    hide ShiftRight;
    if k == 0 {
      ShiftRightOut(a, 8);
      ShiftRightOut(b, 8);
    } else {
      FirstBits(a, b, k - 1);
      ShiftRightStep(a, 8 - k);
      ShiftRightStep(b, 8 - k);
      assert ByteBit(a, k - 1) == (ShiftRight(a, 8 - k) % 2 == 1) && ByteBit(b, k - 1) == (ShiftRight(b, 8 - k) % 2 == 1);
      assert 8 - (k - 1) == 8 - k + 1;
    }
  }

  lemma SameByte(a: u8, b: u8)
    requires forall j | 0 <= j < 8 :: ByteBit(a, j) == ByteBit(b, j)
    ensures a == b
  {
    hide ByteBit;
    FirstBits(a, b, 8);
  }

  /** Some entry of the list admits the address; an empty list gives the default. */
  predicate Admits(acl: seq<Access>, addr: Address, default: bool)
    requires WellFormed(addr) && forall a | a in acl :: WellFormed(a.addr)
  {
    if acl == [] then default else exists i | 0 <= i < |acl| :: Amatch(acl[i].addr, addr, acl[i].subnetbits)
  }

  /** A list is searched entry by entry; only an empty one gives the default. */
  lemma AdmitLaws(a: Access, acl: seq<Access>, addr: Address, default: bool)
    requires WellFormed(addr) && WellFormed(a.addr) && forall b | b in acl :: WellFormed(b.addr)
    ensures Admits([], addr, default) == default
    ensures Admits([a] + acl, addr, default) <==> Amatch(a.addr, addr, a.subnetbits) || Admits(acl, addr, false)
  {
    hide Amatch;
    var all := [a] + acl;
    assert all[0] == a && forall i | 0 <= i < |acl| :: all[i + 1] == acl[i];
    assert forall b | b in all :: b == a || b in acl;
    assert forall i | 0 < i < |all| :: all[i] == acl[i - 1];
  }

  /** keyacc_contains */
  method KeyaccContains(head: seq<Access>, addr: Address, default: bool) returns (r: bool)
    requires WellFormed(addr) && forall a | a in head :: WellFormed(a.addr)
    ensures r == Admits(head, addr, default)
  {
    if head == [] {
      return default;
    }
    var i := 0;
    while i < |head|
      invariant i <= |head| && forall k | 0 <= k < i :: !Amatch(head[k].addr, addr, head[k].subnetbits)
    {
      if Amatch(head[i].addr, addr, head[i].subnetbits) {
        return true;
      }
      i := i + 1;
    }
    r := false;
  }
}
