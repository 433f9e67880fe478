/** Printing a 32.32 fixed-point number: digits are generated by shift and add into a 24-byte
    buffer, rounded there, and copied out. */
module Dolfptoa {

  import opened MachineWords
  import opened FixedPoint
  import opened DecimalText

  const BUFFER_SIZE := 24
  const POINT := 10

  /** The number a run of digits stands for. */
  function Number(ds: seq<u8>): nat {
    if |ds| == 0 then 0 else Number(ds[..|ds| - 1]) * 10 + ds[|ds| - 1]
  }

  predicate Digits(ds: seq<u8>) { forall i | 0 <= i < |ds| :: ds[i] < 10 }

  predicate Zeros(ds: seq<u8>) { forall i | 0 <= i < |ds| :: ds[i] == 0 }

  lemma {:induction false} NumberConcat(a: seq<u8>, b: seq<u8>)
    ensures Number(a + b) == Number(a) * Pow10(|b|) + Number(b)
  {
    if |b| == 0 {
      assert a + b == a;
    } else {
      var b', d := b[..|b| - 1], b[|b| - 1];
      NumberConcat(a, b');
      assert (a + b)[..|a + b| - 1] == a + b' && (a + b)[|a + b| - 1] == d;
      OneMoreDigit(Number(a), Pow10(|b'|), Number(b'), d);
    }
  }

  lemma OneMoreDigit(n: nat, p: nat, m: nat, d: nat)
    ensures (n * p + m) * 10 + d == n * (10 * p) + (m * 10 + d)
  {}

  lemma {:induction false} NumberOfZeros(ds: seq<u8>)
    requires Zeros(ds)
    ensures Number(ds) == 0
  {
    if |ds| > 0 { NumberOfZeros(ds[..|ds| - 1]); }
  }

  lemma {:induction false} NumberBound(ds: seq<u8>)
    requires Digits(ds)
    ensures Number(ds) < Pow10(|ds|)
  {
    if |ds| > 0 { NumberBound(ds[..|ds| - 1]); }
  }

  // ---- what is to be printed --------------------------------------------------------------

  /** Decimals generated: negative counts are zero, milliseconds take three more, and the buffer
      holds fourteen. */
  function Generated(ndec: int, msec: bool): nat {
    var dec := (if ndec < 0 then 0 else ndec) + if msec then 3 else 0;
    if dec > BUFFER_SIZE - POINT then BUFFER_SIZE - POINT else dec
  }

  /** Decimals after the printed point. */
  function Shown(ndec: int, msec: bool): nat { Generated(ndec, msec) - if msec then 3 else 0 }

  /** v / 2^32 in units of 10^-d, rounded half up. */
  function Rounded(v: nat, d: nat): nat { (v * Pow10(d) + 0x8000_0000) / 0x1_0000_0000 }

  /** The nearest multiple of 10^-d, the greater one for an exact half. */
  lemma RoundedIsHalfUp(v: nat, d: nat)
    ensures -0x1_0000_0000 < 2 * (Rounded(v, d) * 0x1_0000_0000 - v * Pow10(d)) <= 0x1_0000_0000
  {}

  /** As many decimals are shown as asked for, but none for a negative count and no more than fit the
      fourteen places behind the point; milliseconds take three of these. */
  lemma DecimalsShown(ndec: int, msec: bool)
    ensures Generated(ndec, msec) == Shown(ndec, msec) + if msec then 3 else 0
    ensures ndec <= 0 ==> Shown(ndec, msec) == 0
    ensures 0 <= ndec <= (if msec then 11 else 14) ==> Shown(ndec, msec) == ndec
    ensures ndec > (if msec then 11 else 14) ==> Generated(ndec, msec) == 14
  {}

  // ---- the phases -------------------------------------------------------------------------

  method IntegerDigits(cbuf: array<u8>, fpi: u32) returns (cp: nat)
    requires cbuf.Length == BUFFER_SIZE && Zeros(cbuf[..])
    modifies cbuf
    ensures cp <= POINT
    ensures Digits(cbuf[..]) && Zeros(cbuf[..cp]) && Zeros(cbuf[POINT..])
    ensures Number(cbuf[..POINT]) == fpi
  {
    hide Number, Pow10;
    var rest: u32 := fpi;
    cp := POINT;
    NoDigits(cbuf[cp..POINT]);
    while cp > 0 && rest != 0
      invariant cp <= POINT
      invariant Digits(cbuf[..]) && Zeros(cbuf[..cp]) && Zeros(cbuf[POINT..])
      invariant fpi == rest * Pow10(POINT - cp) + Number(cbuf[cp..POINT])
    {
      ghost var was, tail := rest, cbuf[cp..POINT];
      var digit := rest;
      rest := rest / 10;
      digit := digit - (rest * 8 + rest * 2);
      cp := cp - 1;
      cbuf[cp] := digit;
      assert cbuf[cp..POINT] == [digit] + tail;
      DigitInFront(was, digit, tail);
    }
    assert cbuf[..POINT] == cbuf[..cp] + cbuf[cp..POINT];
    AllDigitsFound(fpi, rest, cbuf[..cp], cbuf[cp..POINT]);
  }

  lemma NoDigits(ds: seq<u8>)
    requires |ds| == 0
    ensures Number(ds) == 0 && Pow10(0) == 1
  {}

  lemma SingleDigit(digit: u8)
    ensures Number([digit]) == digit
  {
    assert [digit][..0] == [];
  }

  lemma PowerStep(n: nat)
    ensures Pow10(n + 1) == 10 * Pow10(n)
  {}

  /** The last digit of v moves in front of the tail. */
  lemma DigitInFront(v: nat, digit: u8, tail: seq<u8>)
    requires digit == v % 10
    ensures v * Pow10(|tail|) + Number(tail) == v / 10 * Pow10(|tail| + 1) + Number([digit] + tail)
  {
    hide Number, Pow10;
    NumberConcat([digit], tail);
    SingleDigit(digit);
    PowerStep(|tail|);
    MoreDigits(v, Pow10(|tail|), Number(tail));
  }

  /** Ten digits are enough for 32 bits. */
  lemma AllDigitsFound(v: u32, rest: u32, zeros: seq<u8>, ds: seq<u8>)
    requires |zeros| + |ds| == POINT && Zeros(zeros) && (|zeros| == 0 || rest == 0)
    requires v == rest * Pow10(|ds|) + Number(ds)
    ensures Number(zeros + ds) == v
  {
    hide Number;
    SmallPowers();
    TooLarge(rest, Pow10(|ds|));
    NumberConcat(zeros, ds);
    NumberOfZeros(zeros);
  }

  lemma MoreDigits(v: nat, p: nat, low: nat)
    ensures v * p + low == v / 10 * (10 * p) + (v % 10 * p + low)
  {
    assert v * p == (v / 10 * 10 + v % 10) * p;
  }

  lemma TooLarge(v: nat, p: nat)
    ensures v > 0 ==> v * p >= p
  {}

  method FractionDigits(cbuf: array<u8>, fpv: u32, decimals: nat) returns (cpend: nat, rest: u32, dec: nat)
    requires cbuf.Length == BUFFER_SIZE && decimals <= BUFFER_SIZE - POINT
    requires Digits(cbuf[..]) && Zeros(cbuf[POINT..])
    modifies cbuf
    ensures cpend + dec == POINT + decimals && cpend >= POINT && (dec > 0 ==> rest == 0)
    ensures cbuf[..POINT] == old(cbuf[..POINT])
    ensures Digits(cbuf[..]) && Zeros(cbuf[cpend..])
    ensures fpv * Pow10(cpend - POINT) == Number(cbuf[POINT..cpend]) * TWO_TO_32 + rest
  {
    cpend, rest, dec := POINT, fpv, decimals;
    while dec > 0 && rest != 0
      invariant cpend + dec == POINT + decimals && cpend >= POINT
      invariant cbuf[..POINT] == old(cbuf[..POINT])
      invariant Digits(cbuf[..]) && Zeros(cbuf[cpend..])
      invariant fpv * Pow10(cpend - POINT) == Number(cbuf[POINT..cpend]) * TWO_TO_32 + rest
    {
      ghost var was, head := rest, cbuf[POINT..cpend];
      var digit: u32;
      digit, rest := TimesTen(rest);
      cbuf[cpend] := digit;
      cpend := cpend + 1;
      assert cbuf[POINT..cpend] == head + [digit];
      assert (head + [digit])[..|head|] == head;
      NextFraction(fpv, Pow10(cpend - 1 - POINT), Number(head), was, digit, rest);
      dec := dec - 1;
    }
  }

  lemma NextFraction(f: nat, p: nat, n: nat, was: nat, digit: nat, rest: nat)
    requires f * p == n * TWO_TO_32 + was && was * 10 == digit * TWO_TO_32 + rest
    ensures f * (10 * p) == (n * 10 + digit) * TWO_TO_32 + rest
  {
    assert f * (10 * p) == 10 * (f * p);
  }

  /** The fraction times ten by shifts and one addition in two words; the digit overflows into the
      units. */
  method TimesTen(fpv: u32) returns (digit: u32, rest: u32)
    ensures digit < 10 && fpv * 10 == digit * TWO_TO_32 + rest
  {
    hide Wrap64;
    NothingLost(fpv);
    digit := 0;
    rest := fpv;
    digit, rest := MLShift(digit, rest);
    var tmph, tmpl := digit, rest;
    digit, rest := MLShift(digit, rest);
    digit, rest := MLShift(digit, rest);
    digit, rest := MAdd(digit, rest, tmph, tmpl);
  }

  lemma NothingLost(f: u32)
    ensures Wrap64(2 * Value(0, f)) == 2 * f && Wrap64(2 * (2 * f)) == 4 * f
    ensures Wrap64(2 * (4 * f)) == 8 * f && Wrap64(8 * f + 2 * f) == 10 * f
  {}

  /** Adds the rounding carry at the end of the digits. It dies before the front of the buffer. */
  method RippleCarry(cbuf: array<u8>, cpend: nat, round: bool) returns (tp: nat)
    requires cbuf.Length == BUFFER_SIZE && cpend <= BUFFER_SIZE
    requires Digits(cbuf[..]) && Number(cbuf[..cpend]) + 1 < Pow10(cpend)
    modifies cbuf
    ensures tp <= cpend && forall i | 0 <= i < tp || cpend <= i < BUFFER_SIZE :: cbuf[i] == old(cbuf[i])
    ensures Digits(cbuf[..])
    ensures Number(cbuf[..cpend]) == old(Number(cbuf[..cpend])) + if round then 1 else 0
  {
    hide Number, Rippling;
    tp := cpend;
    var carry := round;
    ghost var n := Number(cbuf[..cpend]);
    assert cbuf[..][..cpend] == cbuf[..cpend];
    RippleStart(cbuf[..], cpend, n);
    while carry && tp > 0
      invariant tp <= cpend && forall i | 0 <= i < tp || cpend <= i < BUFFER_SIZE :: cbuf[i] == old(cbuf[i])
      invariant if round then Rippling(cbuf[..], tp, cpend, n, carry) else !carry && cbuf[..] == old(cbuf[..])
    {
      RippleStep(cbuf[..], tp, cpend, n);
      ghost var before := cbuf[..];
      tp := tp - 1;
      cbuf[tp] := cbuf[tp] + 1;
      if cbuf[tp] == 10 {
        cbuf[tp] := 0;
        assert cbuf[..] == before[tp := 0];
      } else {
        carry := false;
        assert cbuf[..] == before[tp := before[tp] + 1];
      }
    }
    assert cbuf[..][..cpend] == cbuf[..cpend];
    if round { RippleEnd(cbuf[..], tp, cpend, n, carry); }
  }

  /** While the carry is on its way the digits it has passed are zero; n is the number before. */
  predicate Rippling(buf: seq<u8>, tp: nat, cpend: nat, n: nat, carry: bool) {
    && tp <= cpend <= |buf| <= BUFFER_SIZE && Digits(buf)
    && if carry then n + 1 == (Number(buf[..tp]) + 1) * Pow10(cpend - tp) && Zeros(buf[tp..cpend])
       else Number(buf[..cpend]) == n + 1
  }

  lemma RippleStart(buf: seq<u8>, cpend: nat, n: nat)
    requires cpend <= |buf| == BUFFER_SIZE && Digits(buf) && Number(buf[..cpend]) == n
    ensures Rippling(buf, cpend, cpend, n, true)
  {}

  lemma RippleStep(buf: seq<u8>, tp: nat, cpend: nat, n: nat)
    requires 0 < tp && Rippling(buf, tp, cpend, n, true)
    ensures buf[tp - 1] == 9 ==> Rippling(buf[tp - 1 := 0], tp - 1, cpend, n, true)
    ensures buf[tp - 1] != 9 ==> Rippling(buf[tp - 1 := buf[tp - 1] + 1], tp - 1, cpend, n, false)
  {
    hide Number;
    var head, d, tail := buf[..tp - 1], buf[tp - 1], buf[tp..cpend];
    assert buf[..tp] == head + [d];
    NumberSnoc(head, d);
    if d == 9 {
      var next := buf[tp - 1 := 0];
      assert next[..tp - 1] == head && next[tp - 1..cpend] == [0] + tail;
      CarryStep(Number(head), Pow10(|tail|));
    } else {
      assert buf[tp - 1 := d + 1][..cpend] == head + [d + 1] + tail;
      NumberSnoc(head, d + 1);
      NumberConcat(head + [d + 1], tail);
      NumberOfZeros(tail);
    }
  }

  lemma RippleEnd(buf: seq<u8>, tp: nat, cpend: nat, n: nat, carry: bool)
    requires Rippling(buf, tp, cpend, n, carry) && (carry ==> tp == 0) && n + 1 < Pow10(cpend)
    ensures Digits(buf) && Number(buf[..cpend]) == n + 1
  {
    hide Pow10;
    NoDigits(buf[..0]);
  }

  lemma NumberSnoc(ds: seq<u8>, d: u8)
    ensures Number(ds + [d]) == Number(ds) * 10 + d
  {
    assert (ds + [d])[..|ds|] == ds;
  }

  lemma CarryStep(n: nat, p: nat)
    ensures (n * 10 + 9 + 1) * p == (n + 1) * (10 * p)
  {}

  /** Strips leading zeros up to the last digit before the point and copies the digits out. */
  method Format(cbuf: array<u8>, first: nat, cpdec: nat, cpend: nat, neg: bool) returns (text: string)
    requires cbuf.Length == BUFFER_SIZE && POINT <= cpdec <= cpend <= BUFFER_SIZE && first <= cpend
    requires Digits(cbuf[..]) && Zeros(cbuf[..first])
    ensures text == FixedText(neg, Number(cbuf[..cpend]), cpend - cpdec)
  {
    hide Number, Numeral, Padded, Copied;
    var cp := StripZeros(cbuf, first, cpdec, cpend);
    text := "";
    if neg {
      text := text + ['-'];
    }
    var digits := CopyOut(cbuf, cp, cpdec, cpend);
    text := text + digits;
    DigitsAreText(cbuf[..], cp, cpdec, cpend);
    assert cbuf[..][..cpend] == cbuf[..cpend];
  }

  /** Skips leading zeros, but not the last digit before the point. */
  method StripZeros(cbuf: array<u8>, first: nat, cpdec: nat, cpend: nat) returns (cp: nat)
    requires cbuf.Length == BUFFER_SIZE && POINT <= cpdec <= cpend <= BUFFER_SIZE && first <= cpend
    requires Zeros(cbuf[..first])
    ensures cp < cpdec && Zeros(cbuf[..cp]) && (cp == cpdec - 1 || cbuf[cp] != 0)
  {
    cp := first;
    while cp < cpdec && cbuf[cp] == 0
      invariant cp <= cpend && Zeros(cbuf[..cp])
    {
      cp := cp + 1;
    }
    if cp >= cpdec {
      cp := cpdec - 1;
    }
  }

  method CopyOut(cbuf: array<u8>, start: nat, cpdec: nat, cpend: nat) returns (text: string)
    requires start < cpdec <= cpend <= cbuf.Length && Digits(cbuf[..])
    ensures text == Copied(cbuf[..], start, cpdec, cpend)
  {
    hide Copied;
    var cp := start;
    text := "";
    NothingCopied(cbuf[..], start, cpdec);
    while cp < cpend
      invariant start <= cp <= cpend && text == Copied(cbuf[..], start, cpdec, cp)
    {
      CopyStep(cbuf[..], start, cpdec, cp);
      if cp == cpdec {
        text := text + ['.'];
      }
      text := text + [DigitChar(cbuf[cp])];
      cp := cp + 1;
    }
  }

  /** The text of the digits from start to cp, with the point in front of cpdec. */
  function Copied(buf: seq<u8>, start: nat, cpdec: nat, cp: nat): string
    requires Digits(buf) && start < cpdec && start <= cp <= |buf|
  {
    if cp <= cpdec then Chars(buf[start..cp]) else Chars(buf[start..cpdec]) + "." + Chars(buf[cpdec..cp])
  }

  lemma NothingCopied(buf: seq<u8>, start: nat, cpdec: nat)
    requires Digits(buf) && start < cpdec <= |buf|
    ensures Copied(buf, start, cpdec, start) == ""
  {}

  lemma CopyStep(buf: seq<u8>, start: nat, cpdec: nat, cp: nat)
    requires Digits(buf) && start < cpdec && start <= cp < |buf|
    ensures Copied(buf, start, cpdec, cp + 1) ==
      Copied(buf, start, cpdec, cp) + (if cp == cpdec then ['.'] else []) + [DigitChar(buf[cp])]
  {
    var from := if cp < cpdec then start else cpdec;
    assert buf[from..cp + 1] == buf[from..cp] + [buf[cp]];
    CharsStep(buf[from..cp], buf[cp]);
  }

  function Chars(ds: seq<u8>): (s: string)
    requires Digits(ds)
    ensures |s| == |ds|
  {
    seq(|ds|, i requires 0 <= i < |ds| => DigitChar(ds[i]))
  }

  lemma CharsStep(ds: seq<u8>, d: u8)
    requires Digits(ds) && d < 10
    ensures Chars(ds + [d]) == Chars(ds) + [DigitChar(d)]
  {}

  lemma DigitsAreText(buf: seq<u8>, start: nat, cpdec: nat, cpend: nat)
    requires Digits(buf) && start < cpdec <= cpend <= |buf|
    requires Zeros(buf[..start]) && (start == cpdec - 1 || buf[start] != 0)
    ensures var n, p := Number(buf[..cpend]), cpend - cpdec;
      Copied(buf, start, cpdec, cpend) == Numeral(Whole(n, p)) + if p > 0 then "." + Padded(n, p) else ""
  {
    hide Whole, Part, Number, Numeral, Padded, Chars;
    var lead, whole, frac := buf[..start], buf[start..cpdec], buf[cpdec..cpend];
    assert buf[..cpend] == lead + (whole + frac);
    NumberConcat(lead, whole + frac);
    NumberOfZeros(lead);
    TextOfParts(whole, frac);
  }

  lemma TextOfParts(whole: seq<u8>, frac: seq<u8>)
    requires Digits(whole) && Digits(frac) && |whole| > 0 && (|whole| == 1 || whole[0] != 0)
    ensures var n, p := Number(whole + frac), |frac|;
      Chars(whole) == Numeral(Whole(n, p)) && Chars(frac) == Padded(n, p)
  {
    hide Whole, Part, Number, Numeral, Padded, Chars;
    var n, p := Number(whole + frac), |frac|;
    NumberConcat(whole, frac);
    NumberBound(frac);
    assert n == Pow10(p) * Number(whole) + Number(frac);
    PartsAreUnique(n, p, Number(whole), Number(frac));
    NumeralOfDigits(whole);
    PaddedOfDigits(frac);
    PaddedLowDigits(Number(frac), n, p);
  }

  lemma {:induction false} NumeralOfDigits(ds: seq<u8>)
    requires Digits(ds) && |ds| > 0 && (|ds| == 1 || ds[0] != 0)
    ensures Chars(ds) == Numeral(Number(ds))
    ensures |ds| > 1 ==> Number(ds) >= 10
  {
    var n := |ds| - 1;
    CharsStep(ds[..n], ds[n]);
    assert ds == ds[..n] + [ds[n]];
    if n == 0 {
      assert Number(ds[..0]) == 0;
    } else {
      NumeralOfDigits(ds[..n]);
      if n == 1 {
        assert ds[..1][..0] == [];
        assert Number(ds[..1]) == ds[0];
      }
    }
  }

  lemma {:induction false} PaddedOfDigits(ds: seq<u8>)
    requires Digits(ds)
    ensures Chars(ds) == Padded(Number(ds), |ds|)
  {
    if |ds| > 0 {
      var n := |ds| - 1;
      PaddedOfDigits(ds[..n]);
      CharsStep(ds[..n], ds[n]);
      assert ds == ds[..n] + [ds[n]];
    }
  }

  /** Padding looks at the last digits only. */
  lemma {:induction false} PaddedLowDigits(m: nat, n: nat, p: nat)
    requires m == Part(n, p)
    ensures Padded(m, p) == Padded(n, p)
  {
    if p > 0 {
      WholeStep(n, p);
      PaddedLowDigits(m / 10, n / 10, p - 1);
    }
  }

  // ---- dolfptoa, mfptoa, mfptoms ----------------------------------------------------------

  /** The text is the value rounded half up at the generated decimals, in canonical form. */
  method DolfpToA(fpi: u32, fpv: u32, neg: bool, ndec: int, msec: bool) returns (text: string)
    ensures text == FixedText(neg, Rounded(Value(fpi, fpv), Generated(ndec, msec)), Shown(ndec, msec))
  {
    hide Number, Rounded, Value, FixedText;
    var cbuf := new u8[BUFFER_SIZE](_ => 0);
    var cp := IntegerDigits(cbuf, fpi);
    var cpdec := POINT;
    var dec := if ndec < 0 then 0 else ndec;
    if msec {
      dec := dec + 3;
      cpdec := cpdec + 3;
    }
    if dec > BUFFER_SIZE - POINT {
      dec := BUFFER_SIZE - POINT;
    }
    ghost var ipart := cbuf[..POINT];
    assert Zeros(ipart[..cp]) by { assert ipart[..cp] == cbuf[..cp]; }
    var cpend, rest;
    cpend, rest, dec := FractionDigits(cbuf, fpv, dec);
    assert cbuf[..cp] == ipart[..cp];
    cp, cpend := RoundOrExtend(cbuf, fpi, fpv, cp, cpend, rest, dec);
    text := Format(cbuf, cp, cpdec, cpend, neg);
  }

  /** Zeros are left to fill up, or the rest of the fraction decides on a rounding carry. */
  method RoundOrExtend(cbuf: array<u8>, ghost fpi: u32, ghost fpv: u32, first: nat, last: nat, rest: u32, dec: nat)
    returns (cp: nat, cpend: nat)
    requires cbuf.Length == BUFFER_SIZE && first <= POINT <= last && last + dec <= BUFFER_SIZE
    requires Digits(cbuf[..]) && Zeros(cbuf[..first]) && Zeros(cbuf[last..]) && (dec > 0 ==> rest == 0)
    requires Number(cbuf[..POINT]) == fpi
    requires fpv * Pow10(last - POINT) == Number(cbuf[POINT..last]) * TWO_TO_32 + rest
    modifies cbuf
    ensures cpend == last + dec && cp <= POINT && Digits(cbuf[..]) && Zeros(cbuf[..cp])
    ensures Number(cbuf[..cpend]) == Rounded(Value(fpi, fpv), cpend - POINT)
  {
    hide Number, Value, Rounded;
    cp, cpend := first, last;
    BufferValue(cbuf[..], fpi, fpv, cpend, rest);
    assert cbuf[..][..cpend] == cbuf[..cpend];
    if dec > 0 {
      assert cbuf[..][cpend..] == cbuf[cpend..];
      ExtendedByZeros(cbuf[..], fpi, fpv, cpend, dec);
      cpend := cpend + dec;
      assert cbuf[..][..cpend] == cbuf[..cpend];
    } else {
      BufferBound(cbuf[..], fpi, fpv, cpend, rest);
      ghost var before := cbuf[..first];
      var tp := RippleCarry(cbuf, cpend, rest >= SIGN_BIT);
      if tp < cp {
        cp := tp;
      }
      assert forall i | 0 <= i < cp :: cbuf[i] == before[i];
    }
  }

  /** The digits so far and the rest of the fraction hold the whole value. */
  lemma BufferValue(buf: seq<u8>, fpi: u32, fpv: u32, cpend: nat, rest: u32)
    requires |buf| == BUFFER_SIZE && POINT <= cpend <= BUFFER_SIZE
    requires Number(buf[..POINT]) == fpi
    requires fpv * Pow10(cpend - POINT) == Number(buf[POINT..cpend]) * TWO_TO_32 + rest
    ensures Value(fpi, fpv) * Pow10(cpend - POINT) == Number(buf[..cpend]) * TWO_TO_32 + rest
    ensures Rounded(Value(fpi, fpv), cpend - POINT) == Number(buf[..cpend]) + if rest >= SIGN_BIT then 1 else 0
  {
    var p, n := Pow10(cpend - POINT), Number(buf[..cpend]);
    assert buf[..cpend] == buf[..POINT] + buf[POINT..cpend];
    NumberConcat(buf[..POINT], buf[POINT..cpend]);
    ScaledParts(fpi, fpv, p);
    assert Value(fpi, fpv) * p == n * TWO_TO_32 + rest;
  }

  lemma ScaledParts(fpi: u32, fpv: u32, p: nat)
    ensures Value(fpi, fpv) * p == fpi * p * TWO_TO_32 + fpv * p
  {}

  lemma ExtendedByZeros(buf: seq<u8>, fpi: u32, fpv: u32, cpend: nat, dec: nat)
    requires |buf| == BUFFER_SIZE && POINT <= cpend && cpend + dec <= BUFFER_SIZE
    requires Zeros(buf[cpend..])
    requires Value(fpi, fpv) * Pow10(cpend - POINT) == Number(buf[..cpend]) * TWO_TO_32
    ensures Rounded(Value(fpi, fpv), cpend - POINT + dec) == Number(buf[..cpend + dec])
  {
    var v, n := Value(fpi, fpv), Number(buf[..cpend]);
    assert buf[..cpend + dec] == buf[..cpend] + buf[cpend..cpend + dec];
    NumberConcat(buf[..cpend], buf[cpend..cpend + dec]);
    NumberOfZeros(buf[cpend..cpend + dec]);
    Pow10Sum(cpend - POINT, dec);
    Regroup(v, Pow10(cpend - POINT), Pow10(dec), n);
  }

  lemma Regroup(v: nat, p: nat, q: nat, n: nat)
    requires v * p == n * TWO_TO_32
    ensures v * (p * q) == n * q * TWO_TO_32
  {
    assert v * (p * q) == v * p * q;
  }

  /** Ten integer digits are enough even when rounding carries into them. */
  lemma BufferBound(buf: seq<u8>, fpi: u32, fpv: u32, cpend: nat, rest: u32)
    requires |buf| == BUFFER_SIZE && POINT <= cpend <= BUFFER_SIZE
    requires Value(fpi, fpv) * Pow10(cpend - POINT) == Number(buf[..cpend]) * TWO_TO_32 + rest
    ensures Number(buf[..cpend]) + 1 < Pow10(cpend)
  {
    var p, n := Pow10(cpend - POINT), Number(buf[..cpend]);
    SmallPowers();
    Pow10Sum(POINT, cpend - POINT);
    WordBound(Value(fpi, fpv), p, n);
  }

  lemma WordBound(v: nat, p: nat, n: nat)
    requires v < TWO_TO_64 && p > 0 && v * p >= n * TWO_TO_32
    ensures n + 1 < 10000000000 * p
  {
    assert (TWO_TO_64 - v) * p > 0;
    assert TWO_TO_64 * p > v * p;
  }

  /** What mfptoa and mfptoms print: the sign and magnitude of a 64-bit two's complement value. */
  function SignedText(v: nat, ndec: int, msec: bool): string
    requires v < TWO_TO_64
  {
    var neg := v >= TWO_TO_64 / 2;
    FixedText(neg, Rounded(if neg then TWO_TO_64 - v else v, Generated(ndec, msec)), Shown(ndec, msec))
  }

  method MfpToA(fpi: u32, fpf: u32, ndec: int) returns (text: string)
    ensures text == SignedText(Value(fpi, fpf), ndec, false)
  {
    text := SignedDolfp(fpi, fpf, ndec, false);
  }

  method MfpToMs(fpi: u32, fpf: u32, ndec: int) returns (text: string)
    ensures text == SignedText(Value(fpi, fpf), ndec, true)
  {
    text := SignedDolfp(fpi, fpf, ndec, true);
  }

  lemma NegatedQuad(v: int)
    requires 0 < v < TWO_TO_64
    ensures Wrap64(-v) == TWO_TO_64 - v
  {}

  /** The common body of mfptoa and mfptoms. */
  method SignedDolfp(fpi: u32, fpf: u32, ndec: int, msec: bool) returns (text: string)
    ensures text == SignedText(Value(fpi, fpf), ndec, msec)
  {
    hide FixedText, Rounded, Generated, Shown, Wrap64;
    var i, f := fpi, fpf;
    var isneg := MIsNeg(i);
    if isneg {
      i, f := MNeg(i, f);
      NegatedQuad(Value(fpi, fpf));
    }
    text := DolfpToA(i, f, isneg, ndec, msec);
  }
}
