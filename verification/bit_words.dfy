/** Powers of two and the bitwise operations of unsigned words, bit by bit from the lowest on. */
module BitWords {

  import opened Division

  function Pow2(n: nat): (r: nat)
    ensures r > 0
  {
    if n == 0 then 1 else 2 * Pow2(n - 1)
  }

  lemma {:induction false} Pow2Sum(m: nat, n: nat)
    ensures Pow2(m + n) == Pow2(m) * Pow2(n)
    decreases n
  {
    if n > 0 {
      Pow2Sum(m, n - 1);
      assert Pow2(m + n) == 2 * Pow2(m + (n - 1));
    }
  }

  lemma WordPowers()
    ensures Pow2(31) == 0x8000_0000 && Pow2(32) == 0x1_0000_0000
  {
    assert Pow2(8) == 256;
    assert Pow2(16) == 0x1_0000;
    assert Pow2(24) == 0x100_0000;
    assert Pow2(31) == 0x8000_0000;
  }

  // ---- bitwise operations -----------------------------------------------------------------

  function And(x: nat, y: nat): nat {
    if x == 0 || y == 0 then 0 else (if x % 2 == 1 && y % 2 == 1 then 1 else 0) + 2 * And(x / 2, y / 2)
  }

  function Xor(x: nat, y: nat): nat {
    if x == 0 then y else if y == 0 then x else (if x % 2 != y % 2 then 1 else 0) + 2 * Xor(x / 2, y / 2)
  }

  lemma AndStep(x: nat, a: nat)
    ensures And(x, 2 * a) == 2 * And(x / 2, a)
    ensures And(x, 2 * a + 1) == x % 2 + 2 * And(x / 2, a)
  {
    hide And;
    AndUnfolded(x, 2 * a);
    AndUnfolded(x, 2 * a + 1);
  }

  lemma AndUnfolded(x: nat, y: nat)
    ensures And(x, y) == (if x % 2 == 1 && y % 2 == 1 then 1 else 0) + 2 * And(x / 2, y / 2)
  {}

  /** A mask of low ones takes the remainder by a power of two. */
  lemma {:induction false} AndLowOnes(x: nat, k: nat)
    ensures And(x, Pow2(k) - 1) == x % Pow2(k)
  {
    hide And;
    if k == 0 {
      AndNothing(x);
    } else {
      HalfRemainder(x, Pow2(k - 1));
      AndStep(x, Pow2(k - 1) - 1);
      AndLowOnes(x / 2, k - 1);
    }
  }

  lemma AndNothing(x: nat)
    ensures And(x, 0) == 0
  {}

  /** A mask of w - k ones above k zeros drops the remainder. */
  lemma {:induction false} AndHighOnes(x: nat, w: nat, k: nat)
    requires x < Pow2(w) && k <= w
    ensures Pow2(k) <= Pow2(w) && And(x, Pow2(w) - Pow2(k)) == x - x % Pow2(k)
  {
    hide And;
    if k == 0 {
      AndLowOnes(x, w);
      QuotientIsUnique(x, Pow2(w), 0, x);
    } else {
      HalfRemainder(x, Pow2(k - 1));
      AndHighOnes(x / 2, w - 1, k - 1);
      AndStep(x, Pow2(w - 1) - Pow2(k - 1));
    }
  }

  /** Exclusive or with all ones is the complement. */
  lemma {:induction false} XorAllOnes(x: nat, w: nat)
    requires x < Pow2(w)
    ensures Xor(Pow2(w) - 1, x) == Pow2(w) - 1 - x
  {
    if w > 0 { XorAllOnes(x / 2, w - 1); }
  }

  lemma {:induction false} XorBound(x: nat, y: nat, w: nat)
    requires x < Pow2(w) && y < Pow2(w)
    ensures Xor(x, y) < Pow2(w)
  {
    if w > 0 && x != 0 && y != 0 { XorBound(x / 2, y / 2, w - 1); }
  }

  lemma {:induction false} XorIsZero(x: nat, y: nat)
    ensures Xor(x, y) == 0 <==> x == y
  {
    if x != 0 && y != 0 { XorIsZero(x / 2, y / 2); }
  }

  /** x >> n */
  function ShiftRight(x: nat, n: nat): nat { if n == 0 then x else ShiftRight(x / 2, n - 1) }

  lemma {:induction false} ShiftRightStep(x: nat, n: nat)
    ensures ShiftRight(x, n + 1) == ShiftRight(x, n) / 2
  {
    if n > 0 { ShiftRightStep(x / 2, n - 1); }
  }

  lemma {:induction false} ShiftRightOut(x: nat, w: nat)
    requires x < Pow2(w)
    ensures ShiftRight(x, w) == 0
  {
    if w > 0 { ShiftRightOut(x / 2, w - 1); }
  }

  lemma {:induction false} XorShifted(x: nat, y: nat, n: nat)
    ensures ShiftRight(Xor(x, y), n) == Xor(ShiftRight(x, n), ShiftRight(y, n))
  {
    if n > 0 {
      hide Xor;
      XorHalf(x, y);
      XorShifted(x / 2, y / 2, n - 1);
    }
  }

  lemma XorHalf(x: nat, y: nat)
    ensures Xor(x, y) / 2 == Xor(x / 2, y / 2)
  {}

  /** A mask of w - k ones above k zeros sees what shifting by k leaves. */
  lemma {:induction false} AndHighOnesTest(x: nat, w: nat, k: nat)
    requires x < Pow2(w) && k <= w
    ensures Pow2(k) <= Pow2(w) && (And(x, Pow2(w) - Pow2(k)) == 0 <==> ShiftRight(x, k) == 0)
  {
    hide And;
    if k == 0 {
      AndLowOnes(x, w);
      QuotientIsUnique(x, Pow2(w), 0, x);
    } else {
      AndHighOnesTest(x / 2, w - 1, k - 1);
      AndStep(x, Pow2(w - 1) - Pow2(k - 1));
    }
  }

  lemma HalfRemainder(x: nat, p: nat)
    requires p > 0
    ensures x % (2 * p) == x % 2 + 2 * (x / 2 % p)
  {
    var q, r := x / 2 / p, x / 2 % p;
    assert x == 2 * (p * q + r) + x % 2 == 2 * p * q + (2 * r + x % 2);
    QuotientIsUnique(x, 2 * p, q, 2 * r + x % 2);
  }
}
