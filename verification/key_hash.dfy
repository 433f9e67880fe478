/** Sizing the hash table: a shift-and-mask logarithm, clamped. */
module KeyHash {

  import opened MachineWords
  import opened Division
  import opened BitWords

  /** x << s in a word. */
  function Shift(x: nat, s: nat, width: Width): nat { x * Pow2(s) % Pow2(width) }

  /** r is floor(log2 x). */
  predicate IsLog2(r: nat, x: nat) { Pow2(r) <= x < Pow2(r + 1) }

  /** auth_log2: five or six steps, each of which either finds the leading one in the upper half of
      what is left or shifts the lower half up. */
  method AuthLog2(x: nat, width: Width) returns (r: u16)
    requires x < Pow2(width)
    ensures if x == 0 then r == 0 else r < width && IsLog2(r, x)
  {
    hide Pow2, Stage, And, Shift;
    var y: nat, m: nat := x, Pow2(width) - 1;
    r := 0;
    var s: nat := width / 2;
    ghost var done: nat := 0;
    StageStart(x, width);
    while s != 0
      invariant Stage(x, y, m, r, s, done, width)
      decreases s
    {
      StageStep(x, y, m, r, s, done, width);
      m := Shift(m, s, width);
      if And(y, m) != 0 {
        r := r + s;
      } else {
        y := Shift(y, s, width);
      }
      done := done + s;
      s := s / 2;
    }
    StageEnd(x, y, m, r, done, width);
  }

  /** After shifts of done bits in all: r of them were found to be below the leading one, the others
      have been applied to y, and m masks the upper bits. */
  ghost predicate Stage(x: nat, y: nat, m: nat, r: nat, s: nat, done: nat, width: Width) {
    && (if s == 0 then done == width - 1 else done + 2 * s == width && s in {32, 16, 8, 4, 2, 1})
    && r <= done && m == Pow2(width) - Pow2(done)
    && y == x * Pow2(done - r) && y < Pow2(width)
    && (x > 0 ==> y >= Pow2(done)) && (x == 0 ==> r == 0)
  }

  lemma StageStart(x: nat, width: Width)
    requires x < Pow2(width)
    ensures Stage(x, x, Pow2(width) - 1, 0, width / 2, 0, width)
  {
    hide Pow2;
    PowersOfZeroAndOne();
  }

  lemma PowersOfZeroAndOne()
    ensures Pow2(0) == 1 && Pow2(1) == 2
  {}

  lemma StageStep(x: nat, y: nat, m: nat, r: nat, s: nat, done: nat, width: Width)
    requires Stage(x, y, m, r, s, done, width) && s != 0
    ensures var n := Shift(m, s, width);
      && s <= 32 && r <= 63
      && if And(y, n) != 0 then Stage(x, y, n, r + s, s / 2, done + s, width)
         else Stage(x, Shift(y, s, width), n, r, s / 2, done + s, width)
  {
    hide Pow2, And;
    var p, q, z, word := Pow2(done), Pow2(s), Pow2(done - r), Pow2(width);
    Pow2Sum(done, s);
    Pow2Sum(done + s, s);
    Pow2Sum(done - r, s);
    Pow2IsEven(s);
    MaskShift(p, q, word);
    AndHighOnes(y, width, done + s);
    NothingLeft(y, p * q);
    if y < p * q {
      LowerHalf(x, y, z, p, q, word);
    }
  }

  lemma NothingLeft(y: nat, p: nat)
    requires 0 < p
    ensures y - y % p == 0 <==> y < p
  {
    if y < p { QuotientIsUnique(y, p, 0, y); }
  }

  lemma MaskShift(p: nat, q: nat, word: nat)
    requires 0 < p && 1 < q && p * q * q == word
    ensures p * q < word && (word - p) * q % word == word - p * q
  {
    MultipleIsAtLeast(p, q);
    assert p * q > 0;
    MultipleIsAtLeast(p * q, q - 1);
    assert p * q * q == p * q * (q - 1) + p * q;
    assert (word - p) * q == word * (q - 1) + (word - p * q);
    QuotientIsUnique((word - p) * q, word, q - 1, word - p * q);
  }

  lemma LowerHalf(x: nat, y: nat, z: nat, p: nat, q: nat, word: nat)
    requires y == x * z && y < p * q && p * q * q == word && q > 0
    ensures y * q % word == y * q == x * (z * q)
    ensures y >= p ==> y * q >= p * q
  {
    var d := p * q - y;
    MultipleIsAtLeast(q, d);
    assert y * q == p * q * q - q * d;
    QuotientIsUnique(y * q, word, 0, y * q);
    if y >= p {
      var e := y - p;
      assert y * q == p * q + e * q && e * q >= 0;
    }
  }

  lemma StageEnd(x: nat, y: nat, m: nat, r: nat, done: nat, width: Width)
    requires Stage(x, y, m, r, 0, done, width)
    ensures if x == 0 then r == 0 else r < width && IsLog2(r, x)
  {
    hide Pow2;
    PowerStep(width - 1);
    PowerStep(r);
    Pow2Sum(r, width - 1 - r);
    if x > 0 {
      Bracket(x, Pow2(r), Pow2(width - 1 - r));
    }
  }

  lemma PowerStep(n: nat)
    ensures Pow2(n + 1) == 2 * Pow2(n)
  {}

  lemma Bracket(x: nat, p: nat, q: nat)
    requires q > 0 && p * q <= x * q < 2 * (p * q)
    ensures p <= x < 2 * p
  {
    assert (p - x) * q == p * q - x * q && (x - 2 * p) * q == x * q - 2 * (p * q);
    if x < p {
      MultipleIsAtLeast(q, p - x);
    }
    assert (x - 2 * p) * q < 0;
  }

  lemma Pow2IsEven(n: nat)
    requires n > 0
    ensures Pow2(n) >= 2
  {}

  /** The number of index bits of the table for so many keys: at least 4 and at most 15, and such
      that on average fewer than four keys share a bucket, unless 15 bits are not enough. */
  method HashBits(totalkeys: nat, width: Width) returns (hashbits: nat)
    requires totalkeys < Pow2(width)
    ensures 4 <= hashbits <= 15
    ensures hashbits < 15 ==> totalkeys < 4 * Pow2(hashbits)
    ensures hashbits > 4 ==> totalkeys >= 4 * Pow2(hashbits - 1)
  {
    hide Pow2;
    var log := AuthLog2(totalkeys / 4, width);
    SmallPowers();
    Pow2Grows(if log + 1 < 4 then log + 1 else 4, 4);
    Pow2Grows(if log < 14 then log else 14, log);
    hashbits := log + 1;
    if hashbits < 4 {
      hashbits := 4;
    }
    if hashbits > 15 {
      hashbits := 15;
    }
  }

  lemma SmallPowers()
    ensures Pow2(0) == 1 && Pow2(1) == 2 && Pow2(4) == 16
  {}

  lemma {:induction false} Pow2Grows(m: nat, n: nat)
    requires m <= n
    ensures Pow2(m) <= Pow2(n)
    decreases n
  {
    if m < n { Pow2Grows(m, n - 1); }
  }
}
