/** Parsing decimal text into a 32.32 fixed-point number: the integer digits modulo 2^32, and up to
    nine decimals by bitwise long division. */
module Atolfp {

  import opened MachineWords
  import opened Division
  import opened BitWords
  import opened FixedPoint
  import opened DecimalText
  import opened Options

  const MAX_DECIMALS := 9

  // ---- what the text means ----------------------------------------------------------------

  function SpaceEnd(s: string, k: nat): (e: nat)
    requires k <= |s|
    ensures k <= e <= |s| && (e < |s| ==> !IsSpace(s[e]))
    decreases |s| - k
  {
    if k < |s| && IsSpace(s[k]) then SpaceEnd(s, k + 1) else k
  }

  function DigitEnd(s: string, k: nat): (e: nat)
    requires k <= |s|
    ensures k <= e <= |s| && AllDigits(s[k..e]) && (e < |s| ==> !IsDigit(s[e]))
    decreases |s| - k
  {
    if k < |s| && IsDigit(s[k]) then
      var e := DigitEnd(s, k + 1);
      assert s[k..e] == [s[k]] + s[k + 1..e];
      e
    else k
  }

  /** Where the sign ends; a plus sign is accepted after a minus sign too. */
  function SignEnd(s: string, a: nat): (c: nat)
    requires a <= |s|
    ensures a <= c <= |s|
  {
    var b := if a < |s| && s[a] == '-' then a + 1 else a;
    if b < |s| && s[b] == '+' then b + 1 else b
  }

  predicate AtEnd(s: string, k: nat)
    requires k <= |s|
  {
    k == |s| || IsSpace(s[k])
  }

  /** The first nine decimals, or all of them when there are fewer. */
  function Decimals(s: string, from: nat): (ds: string)
    requires from <= |s|
    ensures |ds| <= MAX_DECIMALS && AllDigits(ds)
  {
    var e := DigitEnd(s, from);
    assert forall i | from <= i < e :: s[i] == s[from..e][i - from];
    s[from..if e - from < MAX_DECIMALS then e else from + MAX_DECIMALS]
  }

  /** a / k rounded to nearest, with halves down. */
  function Nearest(a: nat, k: nat): nat
    requires k > 0
  {
    QuotientIsNatural(a, k);
    a / k + if 2 * (a % k) > k then 1 else 0
  }

  /** f / 10^d in units of 2^-32. */
  function Fraction(f: nat, d: nat): nat { Nearest(f * TWO_TO_32, Pow10(d)) }

  /** The magnitude of an unsigned number [digits][.][digits][space ...], in units of 2^-32;
      one of digit and point must be present. */
  function Magnitude(s: string, c: nat): Option<nat>
    requires c <= |s|
  {
    if c == |s| || !(s[c] == '.' || IsDigit(s[c])) then None
    else
      var d := DigitEnd(s, c);
      var i := Decimal(s[c..d]) * TWO_TO_32;
      if AtEnd(s, d) then Some(i)
      else if s[d] != '.' || !AtEnd(s, DigitEnd(s, d + 1)) then None
      else
        var ds := Decimals(s, d + 1);
        Some(i + Fraction(Decimal(ds), |ds|))
  }

  function Negated(neg: bool, v: int): u64 { if neg then Wrap64(-v) else Wrap64(v) }

  /** The 64-bit value of a text of the form [spaces][-][+] and an unsigned number. */
  function Parse(s: string): Option<u64> {
    var a := SpaceEnd(s, 0);
    match Magnitude(s, SignEnd(s, a))
    case None => None
    case Some(m) => Some(Negated(a < |s| && s[a] == '-', m))
  }

  // ---- the parser -------------------------------------------------------------------------

  /** ten_to_the_n, whose entry 0 is never used. */
  const TEN_TO_THE_N: seq<u32> :=
    [0, 10, 100, 1000, 10000, 100000, 1000000, 10000000, 100000000, 1000000000]

  lemma TenToTheN(n: nat)
    requires 1 <= n <= 9
    ensures TEN_TO_THE_N[n] == Pow10(n)
  {
    SmallPowers();
  }

  /** atolfp, for an unsigned long of either width. A NUL character would end the C string. */
  method AtoLfp(str: string, width: Width) returns (ok: bool, ui: u32, uf: u32)
    requires '\0' !in str
    ensures ok <==> Parse(str).Some?
    ensures ok ==> Value(ui, uf) == Parse(str).value
  {
    hide Magnitude, Wrap64, Value, SpaceEnd;
    ok, ui, uf := false, 0, 0;
    var isneg := false;
    var cp := SkipSpaces(str);
    if cp < |str| && str[cp] == '-' {
      cp := cp + 1;
      isneg := true;
    }
    if cp < |str| && str[cp] == '+' {
      cp := cp + 1;
    }
    var deci: nat, decf: nat;
    ok, deci, decf := ParseMagnitude(str, cp, width);
    if ok && isneg {
      NegatedValue(Magnitude(str, cp).value);
      deci, decf := NegateLongs(deci, decf, width);
    }
    ui, uf := Wrap32(deci), Wrap32(decf);
  }

  /** M_NEG on two unsigned longs of which only the low 32 bits will be kept. */
  method NegateLongs(vi: nat, vf: u32, width: Width) returns (i: nat, f: nat)
    requires vi < Modulus(width)
    ensures i < Modulus(width) && f < Modulus(width)
    ensures Value(Wrap32(i), Wrap32(f)) == Wrap64(-Value(Wrap32(vi), vf))
  {
    var word := Modulus(width);
    f := WrapLong(word - 1 - vf + 1, width);
    i := WrapLong(word - 1 - vi + if f == 0 then 1 else 0, width);
    NegatedWords(vi, vf, width);
  }

  /** The part of atolfp after the sign. */
  method ParseMagnitude(str: string, from: nat, width: Width) returns (ok: bool, deci: nat, decf: u32)
    requires from <= |str|
    ensures ok <==> Magnitude(str, from).Some?
    ensures ok ==> deci < Modulus(width) && Value(Wrap32(deci), decf) == Wrap64(Magnitude(str, from).value)
  {
    hide Fraction, Wrap64, Value, Wrap32, Decimal, Decimals, DigitEnd, Modulus;
    ok, deci, decf := false, 0, 0;
    var cp, ndec := from, 0;
    if !(cp < |str| && (str[cp] == '.' || IsDigit(str[cp]))) {
      return;
    }
    deci, cp := IntegerPart(str, cp, width);
    LowWordOfLong(Decimal(str[from..cp]), width);
    ghost var i := Decimal(str[from..cp]);
    ghost var ds := "";
    if cp < |str| && !IsSpace(str[cp]) {
      if str[cp] != '.' {
        return;
      }
      cp := cp + 1;
      ds := Decimals(str, cp);
      decf, ndec, cp := FractionPart(str, cp);
      if cp < |str| && !IsSpace(str[cp]) {
        return;
      }
    }
    if ndec > 0 {
      decf := DivideBits(decf, ndec);
    } else {
      NoDecimals(ds);
    }
    PartsOfValue(i, Fraction(Decimal(ds), |ds|), Wrap32(deci), decf);
    ok := true;
  }

  lemma NoDecimals(ds: string)
    requires ds == ""
    ensures Decimal(ds) == 0 && Pow10(|ds|) == 1 && Fraction(Decimal(ds), |ds|) == 0
  {}

  lemma PartsOfValue(i: nat, f: nat, deci: u32, decf: u32)
    requires deci == Wrap32(i) && decf == f
    ensures Value(deci, decf) == Wrap64(i * TWO_TO_32 + f)
  {
    QuotientIsUnique(i * TWO_TO_32 + f, TWO_TO_64, i / TWO_TO_32, Value(deci, decf));
  }

  lemma NegatedWords(vi: nat, vf: u32, width: Width)
    requires vi < Modulus(width)
    ensures var word := Modulus(width);
      var f := WrapLong(word - 1 - vf + 1, width);
      var i := WrapLong(word - 1 - vi + if f == 0 then 1 else 0, width);
      Value(Wrap32(i), Wrap32(f)) == Wrap64(-Value(Wrap32(vi), vf))
  {
    hide Wrap32, Wrap64;
    var word, w := Modulus(width), Wrap32(vi);
    var c := if vf == 0 then 1 else 0;
    assert WrapLong(word - vf, width) == if vf == 0 then 0 else word - vf;
    LowWordOfLong(word - vf, width);
    LowWordOfLong(word - 1 - vi + c, width);
    LowParts(vi, vf, c, width);
    NegatedSum(w, vf);
  }

  lemma LowParts(vi: nat, vf: u32, c: nat, width: Width)
    requires c == if vf == 0 then 1 else 0
    ensures Wrap32(Modulus(width) - vf) == if vf == 0 then 0 else TWO_TO_32 - vf
    ensures Wrap32(Modulus(width) - 1 - vi + c) == (TWO_TO_32 - 1 - Wrap32(vi) + c) % TWO_TO_32
  {
    hide Modulus, Wrap32;
    LowOfModulus(-(vf as int), width);
    LowOfModulus(c - 1 - vi, width);
    WrapInnerDifference(TWO_TO_32 - 1 + c, vi);
    SmallWrap(TWO_TO_32 - vf);
  }

  lemma LowOfModulus(x: int, width: Width)
    ensures Wrap32(Modulus(width) + x) == Wrap32(TWO_TO_32 + x)
  {
    ShiftedQuotient(TWO_TO_32 + x, TWO_TO_32, if width == 32 then 0 else TWO_TO_32 - 1);
  }

  lemma WrapInnerDifference(x: int, y: int)
    ensures (x - Wrap32(y)) % TWO_TO_32 == Wrap32(x - y)
  {
    ShiftedQuotient(x - y, TWO_TO_32, y / TWO_TO_32);
  }

  lemma NegatedSum(w: u32, vf: u32)
    ensures var f: u32 := if vf == 0 then 0 else TWO_TO_32 - vf;
      var i: u32 := (TWO_TO_32 - 1 - w + if vf == 0 then 1 else 0) % TWO_TO_32;
      Value(i, f) == Wrap64(-Value(w, vf))
  {
    if w != 0 || vf != 0 {
      QuotientIsUnique(-Value(w, vf), TWO_TO_64, -1, TWO_TO_64 - Value(w, vf));
    }
  }

  lemma NegatedValue(v: nat)
    ensures Wrap64(0 - Wrap64(v) as int) == Wrap64(-(v as int))
  {
    ShiftedQuotient(-(v as int), TWO_TO_64, v / TWO_TO_64);
  }

  method SkipSpaces(str: string) returns (cp: nat)
    ensures cp == SpaceEnd(str, 0)
  {
    cp := 0;
    while cp < |str| && IsSpace(str[cp])
      invariant cp <= |str| && SpaceEnd(str, cp) == SpaceEnd(str, 0)
    {
      cp := cp + 1;
    }
  }

  /** Times ten by two shifts, in an unsigned long that wraps around. */
  method IntegerPart(str: string, from: nat, width: Width) returns (deci: nat, cp: nat)
    requires from <= |str|
    ensures cp == DigitEnd(str, from) && deci == WrapLong(Decimal(str[from..cp]), width)
  {
    hide WrapLong, Decimal;
    NoDecimals(str[from..from]);
    WrapNothing(width);
    deci, cp := 0, from;
    while cp < |str| && IsDigit(str[cp])
      invariant from <= cp <= |str| && DigitEnd(str, cp) == DigitEnd(str, from)
      invariant AllDigits(str[from..cp]) && deci == WrapLong(Decimal(str[from..cp]), width)
    {
      SliceStep(str, from, cp);
      DecimalStep(str[from..cp], str[cp]);
      StepModulo(Decimal(str[from..cp]), DigitValue(str[cp]), width);
      deci := WrapLong(WrapLong(deci * 8, width) + WrapLong(deci * 2, width), width);
      deci := WrapLong(deci + DigitValue(str[cp]), width);
      cp := cp + 1;
    }
  }

  lemma WrapNothing(width: Width)
    ensures WrapLong(0, width) == 0
  {}

  /** Multiplying by ten and adding a digit, piece by piece. */
  lemma StepModulo(n: nat, d: nat, width: Width)
    ensures var w := WrapLong(n, width);
      WrapLong(WrapLong(WrapLong(w * 8, width) + WrapLong(w * 2, width), width) + d, width) == WrapLong(n * 10 + d, width)
  {
    hide Modulus;
    var m := Modulus(width);
    var w := n % m;
    ReducedSum(w * 8, w * 2 % m, m);
    ReducedSum(w * 2, w * 8, m);
    ReducedSum(w * 10, d, m);
    TimesTenReduced(n, m);
    ShiftedQuotient(w * 10 + d, m, n / m * 10);
  }

  lemma TimesTenReduced(n: nat, m: nat)
    requires m > 0
    ensures n * 10 == n % m * 10 + m * (n / m * 10)
  {
    assert n == m * (n / m) + n % m;
  }

  /** Up to nine decimals count; the rest is skipped. */
  method FractionPart(str: string, from: nat) returns (decf: u32, ndec: nat, cp: nat)
    requires from <= |str|
    ensures cp == DigitEnd(str, from)
    ensures var ds := Decimals(str, from); ndec == |ds| && decf == Decimal(ds) < Pow10(ndec)
  {
    hide Pow10, Decimal;
    NoDecimals(str[from..from]);
    decf, ndec, cp := 0, 0, from;
    while ndec < 9 && cp < |str| && IsDigit(str[cp])
      invariant ndec == cp - from <= 9 && cp <= |str| && DigitEnd(str, cp) == DigitEnd(str, from)
      invariant AllDigits(str[from..cp]) && decf == Decimal(str[from..cp]) < Pow10(ndec)
    {
      SliceStep(str, from, cp);
      DecimalStep(str[from..cp], str[cp]);
      RoomForDigit(decf, ndec, DigitValue(str[cp]));
      ndec := ndec + 1;
      decf := decf * 8 + decf * 2;
      decf := decf + DigitValue(str[cp]);
      cp := cp + 1;
    }
    assert str[from..cp] == Decimals(str, from);
    while cp < |str| && IsDigit(str[cp])
      invariant from + ndec <= cp <= |str| && DigitEnd(str, cp) == DigitEnd(str, from)
    {
      cp := cp + 1;
    }
  }

  lemma RoomForDigit(n: nat, k: nat, d: nat)
    requires k < 9 && n < Pow10(k) && d < 10
    ensures n * 10 + d < Pow10(k + 1) && n * 10 < 1000000000
  {
    SmallPowers();
    Pow10Monotone(k, 8);
  }

  /** Long division by a power of ten, one quotient bit at a time, rounded to nearest. */
  method DivideBits(f: u32, ndec: nat) returns (q: u32)
    requires 1 <= ndec <= 9 && f < Pow10(ndec)
    ensures q == Fraction(f, ndec)
  {
    hide Pow10, Pow2, Fraction, Dividing;
    TenToTheN(ndec);
    SmallPowers();
    Pow10Monotone(ndec, 9);
    var tenFact: u32 := TEN_TO_THE_N[ndec];
    var decf: u32 := f;
    q := 0;
    var bit: u32 := 0x8000_0000;
    ghost var k: nat, t: nat := 0, 0;  // steps done and the quotient bits they found
    DivisionStart(f, tenFact);
    while bit != 0
      invariant Dividing(f, tenFact, k, t, decf, q, bit)
      decreases bit
    {
      DivisionStep(f, tenFact, k, t, decf, q, bit);
      decf := decf * 2;
      t := t * 2;
      if decf >= tenFact {
        q := q + bit;  // this bit of q is still clear
        t := t + 1;
        decf := decf - tenFact;
      }
      bit := bit / 2;
      k := k + 1;
    }
    DivisionEnd(f, tenFact, k, t, decf, q);
    ExactFraction(f, ndec, q, decf);
    if decf * 2 > tenFact {
      q := q + 1;
    }
  }

  /** After k steps the k quotient bits t stand at the top of q, above the next bit. */
  predicate Dividing(f: nat, ten: nat, k: nat, t: nat, r: nat, q: nat, bit: nat) {
    && k <= 32 && bit == (if k < 32 then Pow2(31 - k) else 0)
    && r < ten && f * Pow2(k) == t * ten + r
    && t < Pow2(k) && q == t * Pow2(32 - k)
  }

  lemma DivisionStart(f: nat, ten: nat)
    requires f < ten
    ensures Dividing(f, ten, 0, 0, f, 0, 0x8000_0000)
  {
    WordPowers();
  }

  lemma DivisionStep(f: nat, ten: nat, k: nat, t: nat, r: nat, q: nat, bit: nat)
    requires Dividing(f, ten, k, t, r, q, bit) && bit != 0
    ensures q + bit < TWO_TO_32 && r < ten
    ensures if r * 2 >= ten then Dividing(f, ten, k + 1, t * 2 + 1, r * 2 - ten, q + bit, bit / 2)
            else Dividing(f, ten, k + 1, t * 2, r * 2, q, bit / 2)
  {
    BitStep(f, ten, k, t, r);
    BitHalves(k);
  }

  lemma DivisionEnd(f: nat, ten: nat, k: nat, t: nat, r: nat, q: nat)
    requires Dividing(f, ten, k, t, r, q, 0) && f < ten < TWO_TO_32
    ensures f * TWO_TO_32 == q * ten + r && r < ten && q < TWO_TO_32 - 1
  {
    assert k == 32;
    WordPowers();
    QuotientBound(f, ten, t, r);
  }

  lemma ExactFraction(f: nat, d: nat, t: nat, r: nat)
    requires f * TWO_TO_32 == t * Pow10(d) + r && r < Pow10(d)
    ensures Fraction(f, d) == t + if r * 2 > Pow10(d) then 1 else 0
  {
    QuotientIsUnique(f * TWO_TO_32, Pow10(d), t, r);
  }

  lemma BitHalves(k: nat)
    requires k < 32
    ensures (if k < 31 then Pow2(30 - k) else 0) == Pow2(31 - k) / 2
    ensures Pow2(0) == 1
  {}

  /** One step: the remainder doubles and the next quotient bit is 0 or 1. */
  lemma BitStep(f: nat, ten: nat, k: nat, t: nat, r: nat)
    requires k < 32 && f * Pow2(k) == t * ten + r && t < Pow2(k)
    ensures f * Pow2(k + 1) == (t * 2) * ten + r * 2 == (t * 2 + 1) * ten + (r * 2 - ten)
    ensures t * 2 + 1 < Pow2(k + 1)
    ensures t * Pow2(32 - k) == (t * 2) * Pow2(31 - k)
    ensures (t * 2 + 1) * Pow2(31 - k) == t * Pow2(32 - k) + Pow2(31 - k) < TWO_TO_32
  {
    var p, w := Pow2(k), Pow2(31 - k);
    assert Pow2(k + 1) == 2 * p && Pow2(32 - k) == 2 * w;
    Pow2Sum(k, 32 - k);
    WordPowers();
    Doubled(f, ten, p, t, r);
    BitWeight(p, w, t);
  }

  lemma Doubled(f: nat, ten: nat, p: nat, t: nat, r: nat)
    requires f * p == t * ten + r
    ensures f * (2 * p) == (t * 2) * ten + r * 2 == (t * 2 + 1) * ten + (r * 2 - ten)
  {
    assert f * (2 * p) == 2 * (f * p);
    assert (t * 2) * ten == 2 * (t * ten);
    assert (t * 2 + 1) * ten == 2 * (t * ten) + ten;
  }

  lemma BitWeight(p: nat, w: nat, t: nat)
    requires t < p && w > 0 && p * (2 * w) == TWO_TO_32
    ensures t * (2 * w) == (t * 2) * w
    ensures (t * 2 + 1) * w == t * (2 * w) + w < TWO_TO_32
  {
    assert (t * 2 + 1) * w == 2 * (t * w) + w;
    assert (p - t) * (2 * w) >= 2 * w;
    assert p * (2 * w) - t * (2 * w) == (p - t) * (2 * w);
  }


  /** Fewer than nine nines leave room for rounding up. */
  lemma QuotientBound(f: nat, ten: nat, t: nat, r: nat)
    requires f < ten < TWO_TO_32 && f * TWO_TO_32 == t * ten + r
    ensures t < TWO_TO_32 - 1
  {
    assert TWO_TO_32 * ten - TWO_TO_32 * f >= TWO_TO_32 > ten;
    var d := TWO_TO_32 - t;
    assert t * ten == TWO_TO_32 * ten - d * ten;
  }
}
