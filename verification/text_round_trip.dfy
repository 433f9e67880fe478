/** Printer and parser of fixed-point numbers undo each other. */
module TextRoundTrip {

  import opened MachineWords
  import opened Division
  import opened DecimalText
  import opened Dolfptoa
  import opened Atolfp
  import opened Options
  import opened Mstolfp

  /** n / 10^p in units of 2^-32, as the parser rounds it. */
  function Scaled(n: nat, p: nat): nat { Whole(n, p) * TWO_TO_32 + Fraction(Part(n, p), p) }

  /** What dolfptoa prints for an unsigned value. */
  function UnsignedText(v: nat, ndec: int, msec: bool): string {
    FixedText(false, Rounded(v, Generated(ndec, msec)), Shown(ndec, msec))
  }

  // ---- parsing canonical text -------------------------------------------------------------

  lemma {:induction false} DigitEndIs(s: string, k: nat, e: nat)
    requires k <= e <= |s| && AllDigits(s[k..e]) && (e < |s| ==> !IsDigit(s[e]))
    ensures DigitEnd(s, k) == e
    decreases e - k
  {
    if k < e {
      assert s[k] == s[k..e][0];
      assert s[k + 1..e] == s[k..e][1..];
      DigitEndIs(s, k + 1, e);
    }
  }

  /** The layout of a canonical text. */
  lemma Layout(neg: bool, n: nat, p: nat)
    ensures var s, c := FixedText(neg, n, p), |Sign(neg)|;
      var d := c + |Numeral(Whole(n, p))|;
      && s[..c] == Sign(neg) && SpaceEnd(s, 0) == 0
      && c < d <= |s| && s[c..d] == Numeral(Whole(n, p)) && IsDigit(s[c])
      && DigitEnd(s, c) == d
      && if p == 0 then d == |s|
         else d < |s| && s[d] == '.' && s[d + 1..] == Padded(n, p) && DigitEnd(s, d + 1) == |s|
  {
    hide Whole, Numeral, Padded;
    var s, c := FixedText(neg, n, p), |Sign(neg)|;
    var d := c + |Numeral(Whole(n, p))|;
    assert s[c..d] == Numeral(Whole(n, p));
    assert s[c] == s[c..d][0] && (neg ==> s[0] == '-');
    assert IsDigit(s[c]) && (s[0] == '-' || s[0] == s[c]);
    FirstIsNoSpace(s);
    DigitEndIs(s, c, d);
    if p > 0 {
      assert s[d + 1..] == Padded(n, p) == s[d + 1..|s|];
      DigitEndIs(s, d + 1, |s|);
    }
  }

  lemma FirstIsNoSpace(s: string)
    requires |s| > 0 && (s[0] == '-' || IsDigit(s[0]))
    ensures SpaceEnd(s, 0) == 0
  {}

  /** The parser reads back what a canonical text with up to nine decimals denotes. */
  lemma ParseOfFixedText(neg: bool, n: nat, p: nat)
    requires p <= 9
    ensures Parse(FixedText(neg, n, p)) == Some(Negated(neg, Scaled(n, p)))
  {
    hide Whole, Part, Numeral, Padded, FixedText, Fraction, Decimal, DigitEnd;
    var s, c := FixedText(neg, n, p), |Sign(neg)|;
    Layout(neg, n, p);
    assert SignEnd(s, 0) == c by { assert s[..c] == Sign(neg); SignOfText(s, neg); }
    NumeralDenotes(Whole(n, p));
    WholeAndPart(n, p);
    if p > 0 {
      PaddedDenotes(n, p);
      var d := DigitEnd(s, c);
      assert Decimals(s, d + 1) == s[d + 1..|s|] == Padded(n, p);
    } else {
      NoDecimals("");
    }
  }

  lemma SignOfText(s: string, neg: bool)
    requires |Sign(neg)| < |s| && s[..|Sign(neg)|] == Sign(neg) && IsDigit(s[|Sign(neg)|])
    ensures SignEnd(s, 0) == |Sign(neg)| && (s[0] == '-' <==> neg)
  {
    if neg { assert s[0] == s[..1][0]; }
  }

  // ---- rounding both ways -----------------------------------------------------------------

  /** Parsing loses at most half a unit of 2^-32. */
  lemma FractionError(f: nat, p: nat)
    requires f < Pow10(p) && p <= 9
    ensures Pow10(p) <= 1_000_000_000
    ensures 2 * Fraction(f, p) * Pow10(p) - 2 * f * TWO_TO_32 <= Pow10(p)
    ensures 2 * f * TWO_TO_32 - 2 * Fraction(f, p) * Pow10(p) <= Pow10(p)
    ensures Fraction(f, p) < TWO_TO_32
    ensures f > 0 ==> Fraction(f, p) > 0
  {
    hide Pow10, Nearest;
    SmallPowers();
    Pow10Monotone(p, 9);
    NearestError(f, Pow10(p));
  }

  lemma NearestError(f: nat, ten: nat)
    requires f < ten < TWO_TO_32
    ensures var x := Nearest(f * TWO_TO_32, ten);
      && 2 * x * ten - 2 * f * TWO_TO_32 <= ten
      && 2 * f * TWO_TO_32 - 2 * x * ten <= ten
      && x < TWO_TO_32
      && (f > 0 ==> x > 0)
  {
    var q, r := f * TWO_TO_32 / ten, f * TWO_TO_32 % ten;
    QuotientIsNatural(f * TWO_TO_32, ten);
    assert f * TWO_TO_32 == ten * q + r;
    QuotientBound(f, ten, q, r);
    assert 2 * q * ten == 2 * (ten * q);
    assert 2 * (q + 1) * ten == 2 * (ten * q) + 2 * ten;
    assert f > 0 ==> q > 0;
  }

  /** Printing with the same number of decimals takes the loss back. */
  lemma PrintUndoesParse(n: nat, p: nat)
    requires p <= 9
    ensures Rounded(Scaled(n, p), p) == n
  {
    hide Whole, Part, Fraction, Pow10;
    WholeAndPart(n, p);
    var w, f, ten := Whole(n, p), Part(n, p), Pow10(p);
    FractionError(f, p);
    var e := Fraction(f, p) * ten - f * TWO_TO_32;
    assert 2 * Fraction(f, p) * ten == 2 * (Fraction(f, p) * ten);
    assert Scaled(n, p) * ten == w * TWO_TO_32 * ten + Fraction(f, p) * ten;
    assert w * TWO_TO_32 * ten == ten * w * TWO_TO_32;
    assert Scaled(n, p) * ten == n * TWO_TO_32 + e;
    QuotientIsUnique(Scaled(n, p) * ten + 0x8000_0000, TWO_TO_32, n, e + 0x8000_0000);
  }

  /** Reducing the value modulo 2^64 reduces the integer part modulo 2^32. */
  lemma ScaledModulo(n: nat, p: nat, k: nat)
    requires p <= 9 && Scaled(n, p) >= k * TWO_TO_64
    ensures k * TWO_TO_32 * Pow10(p) <= n
    ensures Scaled(n - k * TWO_TO_32 * Pow10(p), p) == Scaled(n, p) - k * TWO_TO_64
  {
    hide Whole, Part, Fraction, Pow10;
    WholeAndPart(n, p);
    var w, f, ten := Whole(n, p), Part(n, p), Pow10(p);
    FractionError(f, p);
    assert w >= k * TWO_TO_32;
    Subtracted(n, w, f, ten, k * TWO_TO_32);
    PartsAreUnique(n - k * TWO_TO_32 * ten, p, w - k * TWO_TO_32, f);
  }

  lemma Subtracted(n: nat, w: nat, f: nat, ten: nat, k: nat)
    requires n == ten * w + f && k <= w
    ensures k * ten <= n && n - k * ten == ten * (w - k) + f
  {
    assert ten * (w - k) == ten * w - k * ten;
    assert ten * (w - k) >= 0;
  }

  lemma ScaledBounds(n: nat, p: nat)
    requires p <= 9
    ensures Scaled(n, p) < TWO_TO_64 <==> n < TWO_TO_32 * Pow10(p)
    ensures Scaled(n, p) < TWO_TO_64 / 2 <==> n < 0x8000_0000 * Pow10(p)
    ensures Scaled(n, p) <= TWO_TO_64 / 2 <==> n <= 0x8000_0000 * Pow10(p)
    ensures Scaled(n, p) == 0 <==> n == 0
  {
    hide Whole, Part, Fraction, Pow10;
    WholeAndPart(n, p);
    FractionError(Part(n, p), p);
    NoDecimalsScaled(p);
    WholeBound(n, Whole(n, p), Part(n, p), Pow10(p), TWO_TO_32);
    WholeBound(n, Whole(n, p), Part(n, p), Pow10(p), 0x8000_0000);
  }

  lemma NoDecimalsScaled(p: nat)
    ensures Fraction(0, p) == 0
  {
    QuotientIsUnique(0, Pow10(p), 0, 0);
  }

  lemma WholeBound(n: nat, w: nat, f: nat, ten: nat, k: nat)
    requires n == ten * w + f && f < ten
    ensures n < k * ten <==> w < k
    ensures n == k * ten <==> w == k && f == 0
    ensures n == 0 <==> w == 0 && f == 0
  {
    if w < k {
      ProductMonotone(ten, w + 1, k);
    } else {
      ProductMonotone(ten, k, w);
      if w > k { ProductMonotone(ten, k + 1, w); }
    }
    if w > 0 { ProductMonotone(ten, 1, w); }
    assert ten * (w + 1) == ten * w + ten && ten * (k + 1) == ten * k + ten;
  }

  lemma ProductMonotone(a: nat, x: int, y: int)
    requires x <= y
    ensures a * x <= a * y
  {
    assert a * (y - x) >= 0;
    assert a * (y - x) == a * y - a * x;
  }

  // ---- text to number to text -------------------------------------------------------------

  /** dolfptoa prints back a parsed text with up to nine decimals exactly when its integer part is
      below 2^32. */
  lemma UnsignedRoundTrip(n: nat, p: nat)
    requires p <= 9
    ensures var text := FixedText(false, n, p);
      && Parse(text).Some?
      && (UnsignedText(Parse(text).value, p, false) == text <==> n < TWO_TO_32 * Pow10(p))
  {
    hide FixedText, Parse, Rounded, Scaled, Pow10;
    ParseOfFixedText(false, n, p);
    ScaledBounds(n, p);
    var k := Scaled(n, p) / TWO_TO_64;
    QuotientIsNatural(Scaled(n, p), TWO_TO_64);
    ScaledModulo(n, p, k);
    var m := n - k * TWO_TO_32 * Pow10(p);
    PrintUndoesParse(m, p);
    if UnsignedText(Wrap64(Scaled(n, p)), p, false) == FixedText(false, n, p) {
      FixedTextIsInjective(false, m, false, n, p);
    }
    assert k > 0 ==> m < n by { Smaller(k, Pow10(p)); }
  }

  lemma Smaller(k: nat, ten: nat)
    requires ten > 0
    ensures k > 0 ==> k * TWO_TO_32 * ten > 0
  {}

  /** Which numbers with sign have a 64-bit two's complement value that keeps the sign: all but
      minus zero that fit 32 bits of integer part. */
  predicate Representable(neg: bool, n: nat, d: nat) {
    if neg then 0 < n <= 0x8000_0000 * Pow10(d) else n < 0x8000_0000 * Pow10(d)
  }

  /** The sign and magnitude the printer finds are those of the text exactly when it is
      representable; d decimals are generated and the last p shown. */
  lemma SignedCore(neg: bool, n: nat, d: nat, p: nat)
    requires d <= 9
    ensures var v: int := Negated(neg, Scaled(n, d));
      var minus := v >= TWO_TO_64 / 2;
      FixedText(minus, Rounded(if minus then TWO_TO_64 - v else v, d), p) == FixedText(neg, n, p)
      <==> Representable(neg, n, d)
  {
    hide FixedText, Rounded, Scaled, Pow10;
    var s := Scaled(n, d);
    var v: int := Negated(neg, s);
    var minus := v >= TWO_TO_64 / 2;
    var mag := if minus then TWO_TO_64 - v else v;
    ScaledBounds(n, d);
    if minus == neg {
      var k := WholeTurns(neg, s, mag);
      ScaledModulo(n, d, k);
      var m := n - k * TWO_TO_32 * Pow10(d);
      PrintUndoesParse(m, d);
      if FixedText(minus, m, p) == FixedText(neg, n, p) {
        FixedTextIsInjective(minus, m, neg, n, p);
      }
      assert k > 0 ==> m < n by { Smaller(k, Pow10(d)); }
    } else {
      if FixedText(minus, Rounded(mag, d), p) == FixedText(neg, n, p) {
        FixedTextIsInjective(minus, Rounded(mag, d), neg, n, p);
      }
      SignKept(neg, s);
    }
  }

  /** The magnitude found is the magnitude given, less some multiple of 2^64. */
  lemma WholeTurns(neg: bool, s: nat, mag: int) returns (k: nat)
    requires var v: int := Negated(neg, s);
      (v >= TWO_TO_64 / 2) == neg && mag == if neg then TWO_TO_64 - v else v
    ensures s == k * TWO_TO_64 + mag
    ensures k == 0 <==> if neg then 0 < s <= TWO_TO_64 / 2 else s < TWO_TO_64 / 2
  {
    if neg {
      var q := -(s as int) / TWO_TO_64;
      assert -(s as int) == q * TWO_TO_64 + (TWO_TO_64 - mag);
      k := -q - 1;
    } else {
      k := s / TWO_TO_64;
    }
  }

  lemma SignKept(neg: bool, s: nat)
    requires var v: int := Negated(neg, s); (v >= TWO_TO_64 / 2) != neg
    ensures !(if neg then 0 < s <= TWO_TO_64 / 2 else s < TWO_TO_64 / 2)
  {
    if neg && 0 < s <= TWO_TO_64 / 2 {
      QuotientIsUnique(-(s as int), TWO_TO_64, -1, TWO_TO_64 - s);
    }
  }

  /** mfptoa prints back a parsed text with up to nine decimals exactly when it is representable. */
  lemma SignedRoundTrip(neg: bool, n: nat, p: nat)
    requires p <= 9
    ensures var text := FixedText(neg, n, p);
      && Parse(text).Some?
      && (SignedText(Parse(text).value, p, false) == text <==> Representable(neg, n, p))
  {
    hide FixedText, Parse, Rounded, Scaled, Pow10, Negated;
    ParseOfFixedText(neg, n, p);
    SignedCore(neg, n, p, p);
  }

  // ---- milliseconds -----------------------------------------------------------------------

  /** Moving the decimal point divides by a thousand: the rewritten text is canonical again. */
  lemma PointMoves(neg: bool, n: nat, p: nat)
    ensures SecondsText(FixedText(neg, n, p)) == Some(FixedText(neg, n, p + 3))
  {
    hide Whole, Part, Numeral, Padded, FixedText, Shifted, DigitEnd;
    var s, c := FixedText(neg, n, p), |Sign(neg)|;
    Layout(neg, n, p);
    SignOfText(s, neg);
    assert SignText(s, 0) == Sign(neg);
    ShiftedNumeral(n, p);
    var d := c + |Numeral(Whole(n, p))|;
    assert p > 0 ==> s[d + 1..|s|] == Padded(n, p);
    NumberShifts(s, c, d, n, p);
    SignInFront(neg, n, p + 3);
  }

  lemma NumberShifts(s: string, c: nat, d: nat, n: nat, p: nat)
    requires c < d <= |s| && IsDigit(s[c]) && DigitEnd(s, c) == d && s[c..d] == Numeral(Whole(n, p))
    requires if p == 0 then d == |s|
             else d < |s| && s[d] == '.' && s[d + 1..|s|] == Padded(n, p) && DigitEnd(s, d + 1) == |s|
    requires Shifted(Numeral(Whole(n, p))) + Padded(n, p) == Numeral(Whole(n, p + 3)) + "." + Padded(n, p + 3)
    ensures var t := FixedText(false, n, p + 3); ShiftedNumber(s, c) == Some(t)
  {
    hide Whole, Part, Numeral, Padded, Shifted, DigitEnd;
    NoPadding(n);
    SignInFront(false, n, p + 3);
    assert Numeral(Whole(n, p + 3)) + "." + Padded(n, p + 3) == FixedText(false, n, p + 3);
    assert Shifted(s[c..d]) + Padded(n, p) == FixedText(false, n, p + 3);
    assert Shifted(s[c..d]) + "" == Shifted(s[c..d]);
  }

  lemma SignInFront(neg: bool, n: nat, p: nat)
    ensures Sign(neg) + FixedText(false, n, p) == FixedText(neg, n, p)
  {
    hide Whole, Numeral, Padded;
    var rest := if p > 0 then "." + Padded(n, p) else "";
    assert Sign(false) + Numeral(Whole(n, p)) + rest == Numeral(Whole(n, p)) + rest;
    assert Sign(neg) + (Numeral(Whole(n, p)) + rest) == Sign(neg) + Numeral(Whole(n, p)) + rest;
  }

  lemma NoPadding(n: nat)
    ensures Padded(n, 0) == ""
  {}

  lemma ShiftedNumeral(n: nat, p: nat)
    ensures Shifted(Numeral(Whole(n, p))) + Padded(n, p) == Numeral(Whole(n, p + 3)) + "." + Padded(n, p + 3)
  {
    hide Whole, Part, Numeral, Padded, Pow10, Shifted;
    var w := Whole(n, p);
    SmallPowers();
    WholeOfWhole(n, p);
    PaddedSplit(n, 3, p);
    WholeAndPart(w, 3);
    if w >= Pow10(3) {
      NumeralSplit(w, 3);
      MoreThanThree(Numeral(Whole(w, 3)), Padded(w, 3));
    } else {
      NumeralPadded(w, 3);
      PartsAreUnique(w, 3, 0, w);
      AtMostThree(Numeral(w), Padded(w, 3));
      ZeroNumeral();
    }
  }

  lemma ZeroNumeral()
    ensures Numeral(0) == "0"
  {}

  lemma MoreThanThree(a: string, b: string)
    requires |a| > 0 && |b| == 3
    ensures Shifted(a + b) == a + "." + b
  {
    assert (a + b)[..|a + b| - 3] == a && (a + b)[|a + b| - 3..] == b;
  }

  lemma AtMostThree(a: string, b: string)
    requires |a| <= 3 && b == seq(3 - |a|, _ => '0') + a
    ensures Shifted(a) == "0." + b
  {
    assert "0." + seq(3 - |a|, _ => '0') + a == "0." + (seq(3 - |a|, _ => '0') + a);
  }

  lemma WholeOfWhole(n: nat, p: nat)
    ensures Whole(n, p + 3) == Whole(Whole(n, p), 3)
  {
    hide Whole, Part;
    var a, b := Pow10(p), Pow10(3);
    WholeAndPart(n, p);
    WholeAndPart(Whole(n, p), 3);
    Pow10Sum(p, 3);
    Nested(n, a, b, Whole(n, p), Part(n, p), Whole(Whole(n, p), 3), Part(Whole(n, p), 3));
    PartsAreUnique(n, p + 3, Whole(Whole(n, p), 3), a * Part(Whole(n, p), 3) + Part(n, p));
  }

  lemma Nested(n: nat, a: nat, b: nat, w: nat, r: nat, v: nat, s: nat)
    requires n == a * w + r && r < a && w == b * v + s && s < b
    ensures n == (a * b) * v + (a * s + r) && a * s + r < a * b
  {
    Distributed(a, b, v, s);
    ProductMonotone(a, s + 1, b);
    assert a * (s + 1) == a * s + a;
  }

  lemma Distributed(a: nat, b: nat, v: nat, s: nat)
    ensures a * (b * v + s) == (a * b) * v + a * s
  {
    assert a * (b * v) == (a * b) * v;
  }

  /** mfptoms undoes mstolfp on texts with up to six decimals, exactly when the number of seconds
      is representable. */
  lemma MillisecondsRoundTrip(neg: bool, n: nat, p: nat)
    requires p <= 6
    ensures var text := FixedText(neg, n, p);
      && SecondsText(text).Some? && Parse(SecondsText(text).value).Some?
      && (SignedText(Parse(SecondsText(text).value).value, p, true) == text <==> Representable(neg, n, p + 3))
  {
    hide FixedText, Parse, Rounded, Scaled, Pow10, Negated, SecondsText;
    PointMoves(neg, n, p);
    ParseOfFixedText(neg, n, p + 3);
    SignedCore(neg, n, p + 3, p);
  }

  // ---- number to text to number -----------------------------------------------------------

  /** The two values differ by at most two units in the last place, modulo 2^64. */
  predicate Close(v: int, w: int) { Wrap64(w - v + 2) <= 4 }

  /** Printing at nine decimals and parsing again moves a value by at most two units. */
  lemma NineDecimals(v: nat)
    ensures -2 <= Scaled(Rounded(v, 9), 9) - v <= 2
  {
    hide Whole, Part, Fraction, Pow10;
    SmallPowers();
    var n := Rounded(v, 9);
    WholeAndPart(n, 9);
    var w, f := Whole(n, 9), Part(n, 9);
    FractionError(f, 9);
    var s := Scaled(n, 9);
    assert s * 1_000_000_000 == n * TWO_TO_32 + (Fraction(f, 9) * 1_000_000_000 - f * TWO_TO_32);
    assert -0x8000_0000 <= n * TWO_TO_32 - v * 1_000_000_000 <= 0x8000_0000;
  }

  lemma UnsignedNearlyReturns(v: nat)
    ensures var text := UnsignedText(v, 9, false);
      Parse(text).Some? && Close(v, Parse(text).value)
  {
    hide FixedText, Parse, Rounded, Scaled;
    NineDecimals(v);
    var n := Rounded(v, 9);
    ParseOfFixedText(false, n, 9);
    CloseAfterWrap(v, Scaled(n, 9));
  }

  lemma SignedNearlyReturns(v: nat)
    requires v < TWO_TO_64
    ensures var text := SignedText(v, 9, false);
      Parse(text).Some? && Close(v, Parse(text).value)
  {
    hide FixedText, Parse, Rounded, Scaled;
    var neg := v >= TWO_TO_64 / 2;
    var mag := if neg then TWO_TO_64 - v else v;
    NineDecimals(mag);
    var n := Rounded(mag, 9);
    ParseOfFixedText(neg, n, 9);
    if neg {
      CloseAfterWrap(v - TWO_TO_64, -(Scaled(n, 9) as int));
      ShiftedQuotient(Negated(neg, Scaled(n, 9)) - v + 2, TWO_TO_64, 1);
    } else {
      CloseAfterWrap(v, Scaled(n, 9));
    }
  }

  lemma CloseAfterWrap(v: int, x: int)
    requires -2 <= x - v <= 2
    ensures Close(v, Wrap64(x))
  {
    ShiftedQuotient(x - v + 2, TWO_TO_64, -(x / TWO_TO_64));
  }
}
