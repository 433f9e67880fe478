/** The two- and three-word integer macros behind the 32.32 fixed-point format of section 6 of
    RFC 5905. Each macro updates its operands word by word; its contract says which integer
    operation that is. */
module FixedPoint {

  import opened MachineWords
  import opened Division

  const SIGN_BIT: u32 := 0x8000_0000

  /** A two-word value read as one unsigned 64-bit integer. */
  function Value(i: u32, f: u32): (v: int)
    ensures 0 <= v < TWO_TO_64
  {
    i * 0x1_0000_0000 + f
  }

  function Value3(o: u32, i: u32, f: u32): int { o * TWO_TO_64 + Value(i, f) }

  /** M_NEG: two's complement negation. */
  method MNeg(vi: u32, vf: u32) returns (i: u32, f: u32)
    ensures Value(i, f) == Wrap64(-Value(vi, vf))
  {
    f := Wrap32((ALL_ONES - vf) + 1);
    i := Wrap32((ALL_ONES - vi) + if f == 0 then 1 else 0);
    if vi != 0 || vf != 0 {
      QuotientIsUnique(-Value(vi, vf), TWO_TO_64, -1, TWO_TO_64 - Value(vi, vf));
    }
  }

  /** M_ADD: the carry out of the low word is read off its wrap-around. */
  method MAdd(ri: u32, rf: u32, ai: u32, af: u32) returns (i: u32, f: u32)
    ensures Value(i, f) == Wrap64(Value(ri, rf) + Value(ai, af))
  {
    var t := rf;
    f := Wrap32(rf + af);
    i := Wrap32(ri + Wrap32(ai + if f < t then 1 else 0));
    assert i == Wrap32(ri + ai + if f < t then 1 else 0);
    WordSum(ri, rf, ai, af, f);
  }

  lemma WordSum(ri: u32, rf: u32, ai: u32, af: u32, f: u32)
    requires f == Wrap32(rf + af)
    ensures Value(Wrap32(ri + ai + if f < rf then 1 else 0), f) == Wrap64(Value(ri, rf) + Value(ai, af))
  {
    var c := if f < rf then 1 else 0;
    assert rf + af == f + c * TWO_TO_32;
    var hi := ri + ai + c;
    assert Value(ri, rf) + Value(ai, af) == hi * TWO_TO_32 + f;
    var n := hi / TWO_TO_32;
    assert hi == n * TWO_TO_32 + Wrap32(hi);
    QuotientIsUnique(hi * TWO_TO_32 + f, TWO_TO_64, n, Value(Wrap32(hi), f));
  }

  /** M_SUB: the borrow likewise. */
  method MSub(ri: u32, rf: u32, ai: u32, af: u32) returns (i: u32, f: u32)
    ensures Value(i, f) == Wrap64(Value(ri, rf) - Value(ai, af))
  {
    var t := rf;
    f := Wrap32(rf - af);
    i := Wrap32(ri - Wrap32(ai + if f > t then 1 else 0));
    assert i == Wrap32(ri - ai - if f > t then 1 else 0);
    WordDifference(ri, rf, ai, af, f);
  }

  lemma WordDifference(ri: u32, rf: u32, ai: u32, af: u32, f: u32)
    requires f == Wrap32(rf - af)
    ensures Value(Wrap32(ri - ai - if f > rf then 1 else 0), f) == Wrap64(Value(ri, rf) - Value(ai, af))
  {
    var c := if f > rf then 1 else 0;
    assert rf - af == f - c * TWO_TO_32;
    var hi := ri - ai - c;
    assert Value(ri, rf) - Value(ai, af) == hi * TWO_TO_32 + f;
    var n := hi / TWO_TO_32;
    assert hi == n * TWO_TO_32 + Wrap32(hi);
    QuotientIsUnique(hi * TWO_TO_32 + f, TWO_TO_64, n, Value(Wrap32(hi), f));
  }

  /** M_LSHIFT: shifting left by one doubles, and the top bit is lost. */
  method MLShift(vi: u32, vf: u32) returns (i: u32, f: u32)
    ensures Value(i, f) == Wrap64(2 * Value(vi, vf))
  {
    i := Wrap32(2 * vi) + vf / 0x8000_0000;
    f := Wrap32(2 * vf);
    Doubling(vi, vf, i, f);
    QuotientIsUnique(2 * Value(vi, vf), TWO_TO_64, 2 * vi / TWO_TO_32, Value(i, f));
  }

  lemma Doubling(vi: u32, vf: u32, i: u32, f: u32)
    requires i == Wrap32(2 * vi) + vf / 0x8000_0000 && f == Wrap32(2 * vf)
    ensures 2 * Value(vi, vf) == (2 * vi / TWO_TO_32) * TWO_TO_64 + Value(i, f)
  {
    hide Wrap32;
    DoubledWord(vi);
    DoubledWord(vf);
  }

  lemma DoubledWord(u: u32)
    ensures 2 * u == (u / 0x8000_0000) * TWO_TO_32 + Wrap32(2 * u) && 2 * u / TWO_TO_32 == u / 0x8000_0000
  {}

  /** M_ADD3: addition over three words, each carry caught as it arises. */
  method MAdd3(ro: u32, ri: u32, rf: u32, ao: u32, ai: u32, af: u32) returns (o: u32, i: u32, f: u32)
    ensures Value3(o, i, f) == (Value3(ro, ri, rf) + Value3(ao, ai, af)) % (TWO_TO_32 * TWO_TO_64)
  {
    hide Wrap32;
    f := Wrap32(rf + af);
    var c := if f < rf then 1 else 0;
    ghost var low := c;
    CarryOfSum(rf, af);
    CarryOfSum(c, ri);
    i := Wrap32(ri + c);
    c := if i < c then 1 else 0;
    var t := i;
    CarryOfSum(t, ai);
    i := Wrap32(i + ai);
    c := if c == 1 || i < t then 1 else 0;
    o := Wrap32(ro + Wrap32(ao + c));
    WrapInner(ro, ao + c);
    assert ri + ai + low == i + c * TWO_TO_32;
    assert Value(ri, rf) + Value(ai, af) == c * TWO_TO_64 + Value(i, f);
    TopWordSum(Value3(ro, ri, rf) + Value3(ao, ai, af), ro + ao + c, i, f);
  }

  /** A wrapped sum has a carry exactly when it is less than either term. */
  lemma CarryOfSum(a: u32, b: u32)
    ensures a + b == Wrap32(a + b) + if Wrap32(a + b) < a then TWO_TO_32 else 0
  {}

  lemma TopWordSum(sum: int, hi: int, i: u32, f: u32)
    requires sum == hi * TWO_TO_64 + Value(i, f)
    ensures Value3(Wrap32(hi), i, f) == sum % (TWO_TO_32 * TWO_TO_64)
  {
    var n, o := hi / TWO_TO_32, Wrap32(hi);
    assert hi == n * TWO_TO_32 + o;
    QuotientIsUnique(sum, TWO_TO_32 * TWO_TO_64, n, Value3(o, i, f));
  }

  /** M_ISNEG: the sign bit of the high word. */
  predicate MIsNeg(vi: u32) { vi >= SIGN_BIT }

  lemma SignBitIsSign(i: u32, f: u32)
    ensures MIsNeg(i) <==> Signed64(Value(i, f)) < 0
  {}

  /** M_ISGT: flipping the sign bits turns the signed comparison into an unsigned one. */
  predicate MIsGt(ai: u32, af: u32, bi: u32, bf: u32) {
    FlipSign(ai) > FlipSign(bi) || (ai == bi && af > bf)
  }

  predicate MIsGeq(ai: u32, af: u32, bi: u32, bf: u32) {
    FlipSign(ai) > FlipSign(bi) || (ai == bi && af >= bf)
  }

  function FlipSign(u: u32): u32 { if u >= SIGN_BIT then u - SIGN_BIT else u + SIGN_BIT }

  lemma ComparisonsAreSigned(ai: u32, af: u32, bi: u32, bf: u32)
    ensures MIsGt(ai, af, bi, bf) <==> Signed64(Value(ai, af)) > Signed64(Value(bi, bf))
    ensures MIsGeq(ai, af, bi, bf) <==> Signed64(Value(ai, af)) >= Signed64(Value(bi, bf))
  {
    SignedParts(ai, af);
    SignedParts(bi, bf);
  }

  lemma SignedParts(i: u32, f: u32)
    ensures Signed64(Value(i, f)) == (FlipSign(i) - 0x8000_0000) * 0x1_0000_0000 + f
  {}
}
