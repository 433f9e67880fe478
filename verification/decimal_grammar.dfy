/** The texts the parsers accept, by what they look like: independent of how they are scanned. */
module DecimalGrammar {

  import opened MachineWords
  import opened DecimalText
  import opened Options
  import opened Atolfp
  import opened Mstolfp
  import opened TextRoundTrip

  /** [spaces][-][+][digits][.][digits] and anything after a space. */
  datatype Number = Number(spaces: string, minus: bool, plus: bool,
                           whole: string, point: bool, decimals: string, rest: string)

  /** The white space of the C locale. */
  lemma SpacesOfC(c: char)
    ensures IsSpace(c) <==> c in [' ', '\t', '\n', 11 as char, 12 as char, '\r']
    ensures IsDigit(c) <==> c in "0123456789"
  {}

  predicate AllSpaces(s: string) { forall i | 0 <= i < |s| :: IsSpace(s[i]) }

  /** A number has a digit or a point, and decimals only after a point. */
  predicate IsNumber(n: Number) {
    && AllSpaces(n.spaces) && AllDigits(n.whole) && AllDigits(n.decimals)
    && (n.whole != "" || n.point) && (n.decimals != "" ==> n.point)
    && (n.rest != "" ==> IsSpace(n.rest[0]))
  }

  function Signs(n: Number): string { (if n.minus then "-" else "") + if n.plus then "+" else "" }

  function Written(n: Number): string { n.spaces + Signs(n) + n.whole + Fractional(n) + n.rest }

  function Fractional(n: Number): string { (if n.point then "." else "") + n.decimals }

  /** The decimals that count. */
  function NineDecimalsOf(n: Number): string
  {
    if |n.decimals| <= 9 then n.decimals else n.decimals[..9]
  }

  lemma NineAreDigits(n: Number)
    requires IsNumber(n)
    ensures AllDigits(NineDecimalsOf(n))
  {}

  /** The whole part and the first nine decimals, these to the nearest 2^-32, negated in two's
      complement after a minus sign. */
  function ValueOf(n: Number): u64
    requires IsNumber(n)
  {
    NineAreDigits(n);
    Negated(n.minus, Decimal(n.whole) * TWO_TO_32 + Fraction(Decimal(NineDecimalsOf(n)), |NineDecimalsOf(n)|))
  }

  // ---- where the parts end ----------------------------------------------------------------

  lemma {:induction false} SpaceEndIs(s: string, k: nat, e: nat)
    requires k <= e <= |s| && AllSpaces(s[k..e]) && (e < |s| ==> !IsSpace(s[e]))
    ensures SpaceEnd(s, k) == e
    decreases e - k
  {
    if k < e {
      assert s[k] == s[k..e][0];
      assert s[k + 1..e] == s[k..e][1..];
      SpaceEndIs(s, k + 1, e);
    }
  }

  lemma {:induction false} SpacesSkipped(s: string, k: nat)
    requires k <= |s|
    ensures AllSpaces(s[k..SpaceEnd(s, k)])
    decreases |s| - k
  {
    if k < |s| && IsSpace(s[k]) {
      SpacesSkipped(s, k + 1);
      assert s[k..SpaceEnd(s, k)] == [s[k]] + s[k + 1..SpaceEnd(s, k)];
    }
  }

  lemma FiveParts(a: string, b: string, c: string, d: string, e: string)
    ensures var s, i, j := a + b + c + d + e, |a|, |a| + |b|;
      var k := j + |c|;
      var m := k + |d|;
      && |s| == m + |e| && s[..i] == a && s[i..j] == b && s[j..k] == c && s[k..m] == d && s[m..] == e
  {}

  lemma SliceFront(s: string, d: nat, e: nat)
    requires d < e <= |s|
    ensures s[d] == s[d..e][0] && s[d + 1..e] == s[d..e][1..]
  {}

  /** The positions of the parts in the written number. */
  lemma Positions(n: Number)
    requires IsNumber(n)
    ensures var s, a := Written(n), |n.spaces|;
      var c := a + |Signs(n)|;
      var d := c + |n.whole|;
      var e := d + |Fractional(n)|;
      && c < |s| && e <= |s| && s[..a] == n.spaces && s[a..c] == Signs(n) && s[c..d] == n.whole
      && (n.point ==> d < e && s[d] == '.' && s[d + 1..e] == n.decimals) && s[e..] == n.rest
      && (!n.point ==> d == e)
  {
    hide Signs, IsSpace, IsDigit;
    var d := |n.spaces| + |Signs(n)| + |n.whole|;
    FiveParts(n.spaces, Signs(n), n.whole, Fractional(n), n.rest);
    if n.point {
      assert Fractional(n)[1..] == n.decimals;
      SliceFront(Written(n), d, d + |Fractional(n)|);
    }
  }

  /** What the scans look at: the character where each part begins. */
  lemma FirstCharacters(n: Number)
    requires IsNumber(n)
    ensures var s, a := Written(n), |n.spaces|;
      var c := a + |Signs(n)|;
      var d := c + |n.whole|;
      var e := d + |Fractional(n)|;
      && c < |s| && e <= |s| && (s[c] == '.' || IsDigit(s[c])) && (n.whole == "" ==> s[c] == '.')
      && (d < |s| ==> !IsDigit(s[d])) && (n.point ==> d < e && s[d] == '.')
      && (e < |s| ==> IsSpace(s[e]) && !IsDigit(s[e]))
  {
    hide Written, Signs, Fractional, IsSpace;
    Positions(n);
    var s, c := Written(n), |n.spaces| + |Signs(n)|;
    var e := c + |n.whole| + |Fractional(n)|;
    if n.whole != "" { SliceFront(s, c, c + |n.whole|); }
    if e < |s| {
      SliceFront(s, e, |s|);
      NoSpaceIsADigit(s[e]);
    }
  }

  lemma NoSpaceIsADigit(c: char)
    ensures IsSpace(c) ==> !IsDigit(c) && c != '-' && c != '+' && c != '.'
  {}

  /** The signs are read as they are written. */
  lemma SignsRead(n: Number)
    requires IsNumber(n)
    ensures var s, a := Written(n), |n.spaces|;
      && a < |s| && !IsSpace(s[a]) && SignEnd(s, a) == a + |Signs(n)| && (s[a] == '-' <==> n.minus)
  {
    hide Written, Fractional;
    Positions(n);
    FirstCharacters(n);
    var s, a := Written(n), |n.spaces|;
    var c := a + |Signs(n)|;
    if n.minus || n.plus { SliceFront(s, a, c); }
    if n.minus && n.plus { SliceFront(s, a + 1, c); }
  }

  /** Spaces, signs, digits and decimals end where the scans stop. */
  lemma Scans(n: Number)
    requires IsNumber(n)
    ensures var s, a := Written(n), |n.spaces|;
      var c := a + |Signs(n)|;
      var d := c + |n.whole|;
      var e := d + |Fractional(n)|;
      && e <= |s| && SpaceEnd(s, 0) == a && SignEnd(s, a) == c && DigitEnd(s, c) == d
      && (s[a] == '-' <==> n.minus) && StartsNumber(s, c)
      && NumberEnd(s, c) == e && AtEnd(s, e) && (AtEnd(s, d) <==> !n.point)
  {
    hide SpaceEnd, DigitEnd, SignEnd, Written, Signs, IsDigit, Fractional;
    var s, a := Written(n), |n.spaces|;
    var c := a + |Signs(n)|;
    var d := c + |n.whole|;
    var e := d + |Fractional(n)|;
    Positions(n);
    FirstCharacters(n);
    SignsRead(n);
    assert s[0..a] == s[..a];
    SpaceEndIs(s, 0, a);
    DigitEndIs(s, c, d);
    if n.point {
      DigitEndIs(s, d + 1, e);
    }
  }

  // ---- atolfp -----------------------------------------------------------------------------

  /** Every number is accepted, with its value. */
  lemma ParseOfNumber(n: Number)
    requires IsNumber(n)
    ensures Parse(Written(n)) == Some(ValueOf(n))
  {
    hide Written, SpaceEnd, DigitEnd, SignEnd, Decimal, Fraction, Signs, Fractional, IsSpace, IsDigit;
    NineAreDigits(n);
    Positions(n);
    Scans(n);
    if n.point {
      DecimalsOfNumber(n);
    } else {
      NoDecimals(NineDecimalsOf(n));
    }
  }

  lemma DecimalsOfNumber(n: Number)
    requires IsNumber(n) && n.point
    ensures var d := |n.spaces| + |Signs(n)| + |n.whole|;
      d < |Written(n)| && Decimals(Written(n), d + 1) == NineDecimalsOf(n)
  {
    hide Written, DigitEnd, Signs, IsSpace, IsDigit, Fractional;
    Positions(n);
    FirstCharacters(n);
    var s, d := Written(n), |n.spaces| + |Signs(n)| + |n.whole|;
    DecimalsEnd(n);
    if |n.decimals| > 9 {
      ShorterSlice(s, d + 1, d + 1 + |n.decimals|);
    }
  }

  lemma DecimalsEnd(n: Number)
    requires IsNumber(n) && n.point
    ensures var d := |n.spaces| + |Signs(n)| + |n.whole|;
      d < |Written(n)| && DigitEnd(Written(n), d + 1) == d + 1 + |n.decimals|
  {
    hide Written, DigitEnd, Signs, IsDigit;
    Positions(n);
    FirstCharacters(n);
    var d := |n.spaces| + |Signs(n)| + |n.whole|;
    DigitEndIs(Written(n), d + 1, d + 1 + |n.decimals|);
  }

  lemma ShorterSlice(s: string, k: nat, e: nat)
    requires k + 9 <= e <= |s|
    ensures s[k..k + 9] == s[k..e][..9]
  {}

  /** Everything accepted is a number: the one read off by the scans. */
  function Scanned(s: string): Number {
    var a := SpaceEnd(s, 0);
    var c := SignEnd(s, a);
    var d := DigitEnd(s, c);
    var e := NumberEnd(s, c);
    Number(s[..a], a < c && s[a] == '-', a < c && s[c - 1] == '+',
           s[c..d], d < e, if d < e then s[d + 1..e] else "", s[e..])
  }

  lemma NumberOfParse(s: string)
    requires Parse(s).Some?
    ensures IsNumber(Scanned(s)) && Written(Scanned(s)) == s
  {
    hide SpaceEnd, DigitEnd, SignEnd, NumberEnd, Parse, Scanned;
    var a := SpaceEnd(s, 0);
    var c := SignEnd(s, a);
    ParseEnds(s);
    SignsScanned(s, a);
    ScannedIsNumber(s);
    Joined(s, a, c, DigitEnd(s, c), NumberEnd(s, c));
    ScannedText(s);
  }

  lemma ParseEnds(s: string)
    requires Parse(s).Some?
    ensures var c := SignEnd(s, SpaceEnd(s, 0)); StartsNumber(s, c) && AtEnd(s, NumberEnd(s, c))
  {
    hide SpaceEnd, DigitEnd, SignEnd, Decimals, Fraction, Decimal;
  }

  lemma SignsScanned(s: string, a: nat)
    requires a <= |s|
    ensures var c := SignEnd(s, a);
      s[a..c] == (if a < c && s[a] == '-' then "-" else "") + if a < c && s[c - 1] == '+' then "+" else ""
  {}

  lemma ScannedIsNumber(s: string)
    requires var c := SignEnd(s, SpaceEnd(s, 0)); StartsNumber(s, c) && AtEnd(s, NumberEnd(s, c))
    ensures IsNumber(Scanned(s))
  {
    hide SpaceEnd, DigitEnd, SignEnd;
    SpacesSkipped(s, 0);
    var a := SpaceEnd(s, 0);
    assert s[0..a] == s[..a];
  }

  lemma ScannedParts(s: string)
    ensures var n, a := Scanned(s), SpaceEnd(s, 0);
      var c := SignEnd(s, a);
      && n.spaces == s[..a] && n.whole == s[c..DigitEnd(s, c)] && n.rest == s[NumberEnd(s, c)..]
      && Signs(n) == (if a < c && s[a] == '-' then "-" else "") + (if a < c && s[c - 1] == '+' then "+" else "")
      && Fractional(n) == s[DigitEnd(s, c)..NumberEnd(s, c)]
  {
    hide SpaceEnd, DigitEnd, SignEnd;
    var c := SignEnd(s, SpaceEnd(s, 0));
    var d, e := DigitEnd(s, c), NumberEnd(s, c);
    assert d < e ==> s[d..e] == "." + s[d + 1..e];
  }

  lemma Joined(s: string, a: nat, c: nat, d: nat, e: nat)
    requires a <= c <= d <= e <= |s|
    ensures s == s[..a] + s[a..c] + s[c..d] + s[d..e] + s[e..]
  {}

  /** atolfp accepts the numbers and nothing else. */
  lemma GrammarIsExact(s: string)
    ensures Parse(s).Some? <==> exists n | IsNumber(n) :: Written(n) == s
  {
    hide Parse, Written, IsNumber;
    if Parse(s).Some? {
      NumberOfParse(s);
    }
    if n :| IsNumber(n) && Written(n) == s {
      ParseOfNumber(n);
    }
  }

  // ---- mstolfp ----------------------------------------------------------------------------

  /** In milliseconds there may be only one sign. */
  predicate IsMilliseconds(n: Number) { IsNumber(n) && !(n.minus && n.plus) }

  /** The last three digits, with zeros in front where there are fewer. */
  function Tail(digits: string): string {
    if |digits| > 3 then digits[|digits| - 3..] else seq(3 - |digits|, _ => '0') + digits
  }

  /** The number with its point three places to the left. */
  function Thousandth(n: Number): Number {
    Number("", n.minus, n.plus, Lead(n.whole), true, Tail(n.whole) + n.decimals, "")
  }

  lemma {:induction false} DecimalConcat(a: string, b: string)
    requires AllDigits(a) && AllDigits(b)
    ensures AllDigits(a + b) && Decimal(a + b) == Decimal(a) * Pow10(|b|) + Decimal(b)
  {
    if |b| == 0 {
      assert a + b == a;
    } else {
      var k := |b| - 1;
      DecimalConcat(a, b[..k]);
      assert a + b == (a + b[..k]) + [b[k]];
      DecimalStep(a + b[..k], b[k]);
      Grouped(Decimal(a), Pow10(k), Decimal(b[..k]), DigitValue(b[k]));
    }
  }

  lemma Grouped(n: nat, p: nat, m: nat, d: nat)
    ensures (n * p + m) * 10 + d == n * (10 * p) + (m * 10 + d)
  {}

  lemma {:induction false} DecimalOfZeros(k: nat)
    ensures Decimal(seq(k, _ => '0')) == 0
  {
    if k > 0 {
      assert seq(k, _ => '0')[..k - 1] == seq(k - 1, _ => '0');
      DecimalOfZeros(k - 1);
    }
  }

  /** Moving the point loses nothing, whatever the digits. */
  lemma ThousandthIsExact(digits: string)
    requires AllDigits(digits)
    ensures Shifted(digits) == Lead(digits) + "." + Tail(digits)
    ensures AllDigits(Lead(digits)) && AllDigits(Tail(digits)) && |Tail(digits)| == 3 && Lead(digits) != ""
    ensures Decimal(Lead(digits)) * 1000 + Decimal(Tail(digits)) == Decimal(digits)
  {
    hide Decimal;
    SmallPowers();
    var k := |digits| - 3;
    if k > 0 {
      DecimalConcat(digits[..k], digits[k..]);
      assert digits == digits[..k] + digits[k..];
    } else {
      DecimalConcat(seq(-k, _ => '0'), digits);
      DecimalOfZeros(-k);
      DecimalOfZeros(1);
      assert Lead(digits) == seq(1, _ => '0');
    }
  }

  /** mstolfp reads every number in milliseconds as its thousandth in seconds. */
  lemma SecondsOfNumber(n: Number)
    requires IsMilliseconds(n)
    ensures IsNumber(Thousandth(n)) && SecondsText(Written(n)) == Some(Written(Thousandth(n)))
    ensures Parse(SecondsText(Written(n)).value) == Some(ValueOf(Thousandth(n)))
  {
    hide Parse, ValueOf, Written, SecondsText, Thousandth, IsNumber;
    ThousandthIsNumber(n);
    SecondsTextOfNumber(n);
    ParseOfNumber(Thousandth(n));
  }

  lemma ThousandthIsNumber(n: Number)
    requires IsNumber(n)
    ensures IsNumber(Thousandth(n))
  {
    hide Lead, Tail, IsDigit;
    ThousandthIsExact(n.whole);
  }

  lemma SecondsTextOfNumber(n: Number)
    requires IsMilliseconds(n)
    ensures SecondsText(Written(n)) == Some(Written(Thousandth(n)))
  {
    hide SpaceEnd, DigitEnd, SignEnd, NumberEnd, Thousandth, ShiftedText, StartsNumber, AtEnd, SignText, Signs, Written;
    Scans(n);
    SignOfNumber(n);
    TextOfThousandth(n);
  }

  lemma SignOfNumber(n: Number)
    requires IsMilliseconds(n)
    ensures |n.spaces| <= |Written(n)| && SignText(Written(n), |n.spaces|) == Signs(n)
  {
    hide Written, Fractional, IsSpace;
    Positions(n);
    FirstCharacters(n);
    var s, a := Written(n), |n.spaces|;
    if n.minus || n.plus { SliceFront(s, a, a + 1); }
  }

  lemma TextOfThousandth(n: Number)
    requires IsMilliseconds(n)
    ensures var c := |n.spaces| + |Signs(n)|;
      && c <= |Written(n)| && Signs(n) + ShiftedText(Written(n), c) == Written(Thousandth(n))
  {
    hide Shifted, Lead, Tail, Written, ShiftedText, Signs, Thousandth, Fractional;
    NumberShiftedText(n);
    ThousandthIsExact(n.whole);
    WrittenThousandth(n);
  }

  lemma NumberShiftedText(n: Number)
    requires IsNumber(n)
    ensures var c := |n.spaces| + |Signs(n)|;
      c <= |Written(n)| && ShiftedText(Written(n), c) == Shifted(n.whole) + n.decimals
  {
    hide SpaceEnd, SignEnd, DigitEnd, NumberEnd, Shifted, Written, ShiftedText, Signs, IsSpace, IsDigit;
    var s, c := Written(n), |n.spaces| + |Signs(n)|;
    var d := c + |n.whole|;
    Positions(n);
    Scans(n);
    TextOfNumber(s, c);
    if n.point {
      DecimalsEnd(n);
    } else if d < |s| {
      NoSpaceIsADigit(s[d]);
    }
  }

  lemma WrittenThousandth(n: Number)
    ensures Written(Thousandth(n)) == Signs(n) + (Lead(n.whole) + "." + Tail(n.whole) + n.decimals)
  {
    hide Lead, Tail;
    var m := Thousandth(n);
    assert Signs(m) == Signs(n) && Fractional(m) == "." + (Tail(n.whole) + n.decimals);
    assert Written(m) == "" + Signs(n) + Lead(n.whole) + ("." + (Tail(n.whole) + n.decimals)) + "";
  }

  /** mstolfp accepts the numbers with at most one sign and nothing else. */
  lemma MillisecondsAreExact(s: string)
    ensures SecondsText(s).Some? <==> exists n | IsMilliseconds(n) :: Written(n) == s
  {
    hide SecondsText, Written, IsNumber;
    if SecondsText(s).Some? {
      NumberOfSeconds(s);
    }
    if n :| IsMilliseconds(n) && Written(n) == s {
      SecondsOfNumber(n);
    }
  }

  lemma NumberOfSeconds(s: string)
    requires SecondsText(s).Some?
    ensures IsMilliseconds(Scanned(s)) && Written(Scanned(s)) == s
  {
    hide SpaceEnd, DigitEnd, NumberEnd, Scanned, Written, IsNumber;
    OneSign(s);
    var a := SpaceEnd(s, 0);
    var c := SignEnd(s, a);
    SignsScanned(s, a);
    ScannedIsNumber(s);
    Joined(s, a, c, DigitEnd(s, c), NumberEnd(s, c));
    ScannedParts(s);
    ScannedText(s);
  }

  lemma OneSign(s: string)
    requires SecondsText(s).Some?
    ensures var a := SpaceEnd(s, 0);
      var c := SignEnd(s, a);
      StartsNumber(s, c) && AtEnd(s, NumberEnd(s, c)) && c <= a + 1
      && !(Scanned(s).minus && Scanned(s).plus)
  {
    hide SpaceEnd, DigitEnd, NumberEnd, ShiftedText;
  }

  lemma ScannedText(s: string)
    requires var n, a := Scanned(s), SpaceEnd(s, 0);
      var c := SignEnd(s, a);
      s == s[..a] + s[a..c] + s[c..DigitEnd(s, c)] + s[DigitEnd(s, c)..NumberEnd(s, c)] + s[NumberEnd(s, c)..]
    ensures Written(Scanned(s)) == s
  {
    hide SpaceEnd, DigitEnd, SignEnd, NumberEnd, Scanned;
    SignsScanned(s, SpaceEnd(s, 0));
    ScannedParts(s);
  }
}
