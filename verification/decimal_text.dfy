/** Decimal numerals: what a digit string denotes, and the canonical text of a fixed-point number. */
module DecimalText {

  import opened Division

  function Pow10(n: nat): (r: nat)
    ensures r > 0
  {
    if n == 0 then 1 else 10 * Pow10(n - 1)
  }

  lemma {:induction false} Pow10Sum(m: nat, n: nat)
    ensures Pow10(m + n) == Pow10(m) * Pow10(n)
  {
    if n > 0 {
      Pow10Sum(m, n - 1);
      assert Pow10(m + n) == 10 * Pow10(m + (n - 1));
    }
  }

  lemma SmallPowers()
    ensures Pow10(1) == 10 && Pow10(2) == 100 && Pow10(3) == 1000
    ensures Pow10(4) == 10000 && Pow10(5) == 100000 && Pow10(6) == 1000000
    ensures Pow10(7) == 10000000 && Pow10(8) == 100000000 && Pow10(9) == 1000000000
    ensures Pow10(10) == 10000000000
  {
    assert Pow10(2) == 10 * Pow10(1);
    assert Pow10(3) == 10 * Pow10(2);
    assert Pow10(4) == 10 * Pow10(3);
    assert Pow10(5) == 10 * Pow10(4);
    assert Pow10(6) == 10 * Pow10(5);
    assert Pow10(7) == 10 * Pow10(6);
    assert Pow10(8) == 10 * Pow10(7);
    assert Pow10(9) == 10 * Pow10(8);
  }

  /** n without its last p digits. */
  function Whole(n: nat, p: nat): nat {
    QuotientIsNatural(n, Pow10(p));
    n / Pow10(p)
  }

  /** The last p digits of n. */
  function Part(n: nat, p: nat): nat { n % Pow10(p) }

  lemma WholeAndPart(n: nat, p: nat)
    ensures n == Pow10(p) * Whole(n, p) + Part(n, p) && Part(n, p) < Pow10(p)
    ensures p == 0 ==> Whole(n, p) == n && Part(n, p) == 0
  {}

  lemma PartsAreUnique(n: nat, p: nat, q: nat, r: nat)
    requires n == Pow10(p) * q + r && r < Pow10(p)
    ensures Whole(n, p) == q && Part(n, p) == r
  {
    QuotientIsUnique(n, Pow10(p), q, r);
  }

  lemma WholeStep(n: nat, p: nat)
    requires 0 < p
    ensures Whole(n, p) == Whole(n / 10, p - 1)
    ensures Part(n, p) == Part(n / 10, p - 1) * 10 + n % 10
  {
    hide Whole, Part;
    var k, m := Pow10(p - 1), n / 10;
    WholeAndPart(m, p - 1);
    assert n == 10 * (k * Whole(m, p - 1)) + (Part(m, p - 1) * 10 + n % 10);
    assert Pow10(p) * Whole(m, p - 1) == 10 * (k * Whole(m, p - 1));
    PartsAreUnique(n, p, Whole(m, p - 1), Part(m, p - 1) * 10 + n % 10);
  }

  lemma {:induction false} Pow10Monotone(m: nat, n: nat)
    requires m <= n
    ensures Pow10(m) <= Pow10(n)
    decreases n
  {
    if m < n { Pow10Monotone(m, n - 1); }
  }

  // ---- digits and characters --------------------------------------------------------------

  predicate IsDigit(c: char) { '0' <= c <= '9' }

  /** isspace in the C locale. */
  predicate IsSpace(c: char) { c == ' ' || '\t' <= c <= '\r' }

  function DigitChar(d: nat): (c: char)
    requires d < 10
    ensures IsDigit(c)
  {
    '0' + d as char
  }

  function DigitValue(c: char): (d: nat)
    requires IsDigit(c)
    ensures d < 10
  {
    c as int - '0' as int
  }

  predicate AllDigits(s: string) { forall i | 0 <= i < |s| :: IsDigit(s[i]) }

  /** The number a digit string denotes. */
  function Decimal(s: string): nat
    requires AllDigits(s)
  {
    if |s| == 0 then 0 else Decimal(s[..|s| - 1]) * 10 + DigitValue(s[|s| - 1])
  }

  lemma SliceStep(s: string, a: nat, b: nat)
    requires a <= b < |s|
    ensures s[a..b + 1] == s[a..b] + [s[b]]
  {}

  lemma DecimalStep(s: string, c: char)
    requires AllDigits(s) && IsDigit(c)
    ensures AllDigits(s + [c]) && Decimal(s + [c]) == Decimal(s) * 10 + DigitValue(c)
  {
    assert (s + [c])[..|s|] == s;
  }

  lemma {:induction false} DecimalBound(s: string)
    requires AllDigits(s)
    ensures Decimal(s) < Pow10(|s|)
  {
    if |s| > 0 { DecimalBound(s[..|s| - 1]); }
  }

  // ---- canonical numerals -----------------------------------------------------------------

  /** n without leading zeros. */
  function Numeral(n: nat): (s: string)
    ensures AllDigits(s) && |s| > 0
  {
    if n < 10 then [DigitChar(n)] else Numeral(n / 10) + [DigitChar(n % 10)]
  }

  /** The last k digits of n, with leading zeros. */
  function Padded(n: nat, k: nat): (s: string)
    ensures AllDigits(s) && |s| == k
  {
    if k == 0 then "" else Padded(n / 10, k - 1) + [DigitChar(n % 10)]
  }

  lemma {:induction false} NumeralDenotes(n: nat)
    ensures Decimal(Numeral(n)) == n
  {
    if n >= 10 {
      NumeralDenotes(n / 10);
      DecimalStep(Numeral(n / 10), DigitChar(n % 10));
    } else {
      DecimalStep("", DigitChar(n));
    }
  }

  /** Only zero begins with a zero, and it is that digit alone. */
  lemma {:induction false} NumeralIsCanonical(n: nat)
    ensures if n == 0 then Numeral(n) == "0" else Numeral(n)[0] != '0'
  {
    if n >= 10 { NumeralIsCanonical(n / 10); }
  }

  lemma {:induction false} PaddedDenotes(n: nat, k: nat)
    ensures Decimal(Padded(n, k)) == Part(n, k)
  {
    hide Part;
    WholeAndPart(n, k);
    if k > 0 {
      PaddedDenotes(n / 10, k - 1);
      DecimalStep(Padded(n / 10, k - 1), DigitChar(n % 10));
      WholeStep(n, k);
    }
  }

  lemma {:induction false} PaddedSplit(n: nat, a: nat, b: nat)
    ensures Padded(n, a + b) == Padded(Whole(n, b), a) + Padded(n, b)
  {
    hide Whole, Part;
    WholeAndPart(n, b);
    if b > 0 {
      PaddedSplit(n / 10, a, b - 1);
      WholeStep(n, b);
      assert Padded(n, a + b) == Padded(n / 10, a + (b - 1)) + [DigitChar(n % 10)];
      assert Padded(n, b) == Padded(n / 10, b - 1) + [DigitChar(n % 10)];
    }
  }

  /** A numeral that is long enough ends in the padded digits. */
  lemma {:induction false} NumeralSplit(n: nat, k: nat)
    requires n >= Pow10(k)
    ensures Numeral(n) == Numeral(Whole(n, k)) + Padded(n, k)
  {
    hide Whole, Part;
    WholeAndPart(n, k);
    if k > 0 {
      WholeStep(n, k);
      NumeralSplit(n / 10, k - 1);
    }
  }

  /** A shorter numeral is padded with zeros. */
  lemma {:induction false} NumeralPadded(n: nat, k: nat)
    requires n < Pow10(k) && 0 < k
    ensures |Numeral(n)| <= k
    ensures Padded(n, k) == seq(k - |Numeral(n)|, _ => '0') + Numeral(n)
  {
    if n < 10 {
      PaddedZeros(k - 1);
    } else {
      NumeralPadded(n / 10, k - 1);
    }
  }

  lemma {:induction false} PaddedZeros(k: nat)
    ensures Padded(0, k) == seq(k, _ => '0')
  {
    if k > 0 { PaddedZeros(k - 1); }
  }

  // ---- fixed-point texts ------------------------------------------------------------------

  function Sign(neg: bool): string { if neg then "-" else "" }

  /** The canonical text of plus or minus n / 10^p with p decimals. */
  function FixedText(neg: bool, n: nat, p: nat): string {
    Sign(neg) + Numeral(Whole(n, p)) + if p > 0 then "." + Padded(n, p) else ""
  }

  /** What the text denotes determines sign and digits. */
  lemma FixedTextIsInjective(neg: bool, n: nat, neg': bool, n': nat, p: nat)
    requires FixedText(neg, n, p) == FixedText(neg', n', p)
    ensures neg == neg' && n == n'
  {
    hide FixedText, Whole, Numeral, Padded;
    TextParts(neg, n, p);
    TextParts(neg', n', p);
    NumeralDenotes(Whole(n, p));
    NumeralDenotes(Whole(n', p));
    SameNumber(n, n', p);
  }

  /** Sign, integer digits and decimals can be read off the text. */
  lemma TextParts(neg: bool, n: nat, p: nat)
    ensures var t, s, e := FixedText(neg, n, p), |Sign(neg)|, if p > 0 then p + 1 else 0;
      && |t| > s + e && (neg <==> t[0] == '-')
      && Numeral(Whole(n, p)) == t[s..|t| - e] && (p > 0 ==> Padded(n, p) == t[|t| - p..])
  {
    hide Whole, Numeral, Padded;
    var t, s, i := FixedText(neg, n, p), |Sign(neg)|, Numeral(Whole(n, p));
    assert IsDigit(i[0]) && t[s] == i[0];
    assert neg ==> t[0] == Sign(neg)[0];
  }

  lemma SameNumber(n: nat, n': nat, p: nat)
    requires Whole(n, p) == Whole(n', p) && (p > 0 ==> Padded(n, p) == Padded(n', p))
    ensures n == n'
  {
    hide Whole, Part;
    PaddedDenotes(n, p);
    PaddedDenotes(n', p);
    WholeAndPart(n, p);
    WholeAndPart(n', p);
  }
}
