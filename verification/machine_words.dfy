/** Fixed-width machine integers and the two's complement helpers shared by the calendar code. */
module MachineWords {

  import opened BitWords
  import opened Division

  const TWO_TO_32 := 0x1_0000_0000
  const TWO_TO_64 := 0x1_0000_0000_0000_0000
  const ALL_ONES: u32 := 0xFFFF_FFFF

  type u32 = x: int | 0 <= x < 0x1_0000_0000
  type i32 = x: int | -0x8000_0000 <= x < 0x8000_0000
  type u8 = x: int | 0 <= x < 0x100
  type u16 = x: int | 0 <= x < 0x1_0000
  type i64 = x: int | -0x8000_0000_0000_0000 <= x < 0x8000_0000_0000_0000
  type u64 = x: int | 0 <= x < 0x1_0000_0000_0000_0000

  /** A sign extension mask: all bits clear or all bits set. */
  type Mask = m: u32 | m == 0 || m == 0xFFFF_FFFF

  /** Bits of an unsigned long and of a size_t. */
  type Width = w: nat | w == 32 || w == 64 witness 32

  function Modulus(width: Width): (m: nat)
    ensures m >= 0x1_0000_0000
  {
    if width == 32 then TWO_TO_32 else TWO_TO_64
  }

  /** Arithmetic in an unsigned long. */
  function WrapLong(x: int, width: Width): (r: nat)
    ensures r < Modulus(width)
  {
    x % Modulus(width)
  }

  predicate InInt32(x: int) { -0x8000_0000 <= x < 0x8000_0000 }
  predicate InInt64(x: int) { -0x8000_0000_0000_0000 <= x < 0x8000_0000_0000_0000 }

  /** Unsigned 32-bit arithmetic keeps the low 32 bits of every result. */
  function Wrap32(x: int): u32 { x % 0x1_0000_0000 }

  function Wrap64(x: int): u64 { x % 0x1_0000_0000_0000_0000 }

  /** The signed 64-bit integer congruent to x. */
  function Signed64(x: int): (r: i64)
    ensures Wrap64(r) == Wrap64(x)
    ensures InInt64(x) ==> r == x
  {
    var u := Wrap64(x);
    if u >= 0x8000_0000_0000_0000 then u - 0x1_0000_0000_0000_0000 else u
  }

  lemma SignedOfWrap(x: int)
    ensures InInt64(x) ==> Signed64(Wrap64(x)) == x
  {}

  /** int32_sflag: the sign extension of v. */
  function SignMask(v: i32): Mask { if v < 0 then 0xFFFF_FFFF else 0 }

  /** Exclusive or with a sign extension mask, which is one's complement or nothing. */
  function XorMask(m: Mask, u: u32): (r: u32)
    ensures r == if m == 0 then u else 0xFFFF_FFFF - u
  {
    WordPowers();
    XorAllOnes(u, 32);
    Xor(m, u)
  }

  /** int32_to_uint32_2cpl, in the form for targets of unknown representation. */
  function Int32ToTwosComplement(v: i32): (vu: u32)
    ensures vu == Wrap32(v)
  {
    if v < 0 then XorMask(ALL_ONES, -(v + 1)) else v
  }

  /** uint32_2cpl_to_int32, in the form for targets of unknown representation. */
  function TwosComplementToInt32(vu: u32): (v: i32)
    ensures Wrap32(v) == vu
  {
    if vu > 0x7FFF_FFFF then -(XorMask(ALL_ONES, vu) as int) - 1 else vu
  }

  lemma TwosComplementInverse(x: i32)
    ensures TwosComplementToInt32(Wrap32(x)) == x
  {}

  /** Unsigned division. */
  function Divide(u: u32, k: u32): u32
    requires 0 < k
  {
    QuotientIsNatural(u, k);
    u / k
  }

  /** One's complement turns the truncating division of a complemented dividend into floor
      division: the step every signed division in the calendar is built from.
      The dividend may be a bit wider than an int32_t, as it is after multiplying by four. */
  lemma OnesComplementFloorDivision(s: Mask, v: int, k: u32)
    requires 0 < k
    requires if s == 0 then 0 <= v < TWO_TO_32 else -TWO_TO_32 <= v < 0
    ensures XorMask(s, Divide(XorMask(s, Wrap32(v)), k)) == Wrap32(v / k)
  {
    hide Wrap32;
    SmallWrap(v);
    ComplementedFloor(s != 0, v, k);
    SmallWrap(v / k);
  }

  lemma ComplementedFloor(neg: bool, v: int, k: u32)
    requires 0 < k && (v < 0 <==> neg)
    ensures var u := if neg then -v - 1 else v;
      0 <= u / k <= u && v / k == if neg then -(u / k) - 1 else u / k
  {
    if neg {
      ComplementQuotient(v, k);
      QuotientIsNatural(-v - 1, k);
    } else {
      QuotientIsNatural(v, k);
    }
  }

  lemma SmallWrap(x: int)
    ensures 0 <= x < TWO_TO_32 ==> Wrap32(x) == x
    ensures -TWO_TO_32 <= x < 0 ==> Wrap32(x) == x + TWO_TO_32
    ensures x == TWO_TO_32 ==> Wrap32(x) == 0
  {}

  /** The low word of a wider word. */
  lemma WrapOfWrap64(x: int)
    ensures Wrap32(Wrap64(x)) == Wrap32(x)
  {
    assert x == TWO_TO_32 * (x / TWO_TO_64 * TWO_TO_32) + Wrap64(x);
    ShiftedQuotient(Wrap64(x), TWO_TO_32, x / TWO_TO_64 * TWO_TO_32);
  }

  lemma LowWordOfLong(x: int, width: Width)
    ensures Wrap32(WrapLong(x, width)) == Wrap32(x)
  {
    if width == 64 { WrapOfWrap64(x); }
  }

  /** Unsigned arithmetic may be done on representatives. */
  lemma WrapDifference(x: int, y: int)
    ensures Wrap32(Wrap32(x) - Wrap32(y)) == Wrap32(x - y)
  {
    var n := x / TWO_TO_32 - y / TWO_TO_32;
    ShiftedQuotient(Wrap32(x) - Wrap32(y), TWO_TO_32, n);
  }

  lemma WrapSum(x: int, y: int)
    ensures Wrap32(Wrap32(x) + Wrap32(y)) == Wrap32(x + y)
  {
    var n := x / TWO_TO_32 + y / TWO_TO_32;
    ShiftedQuotient(Wrap32(x) + Wrap32(y), TWO_TO_32, n);
  }

  lemma WrapInner(x: int, y: int)
    ensures Wrap32(x + Wrap32(y)) == Wrap32(x + y)
  {
    ShiftedQuotient(x + Wrap32(y), TWO_TO_32, y / TWO_TO_32);
  }

  lemma WrapProduct(x: int, k: int)
    ensures Wrap32(Wrap32(x) * k) == Wrap32(x * k)
  {
    var n := x / TWO_TO_32 * k;
    assert x * k == (TWO_TO_32 * (x / TWO_TO_32) + Wrap32(x)) * k == Wrap32(x) * k + TWO_TO_32 * n;
    ShiftedQuotient(Wrap32(x) * k, TWO_TO_32, n);
  }
}
