/** Arithmetic on seconds with a fraction in nanoseconds (struct timespec) or microseconds (struct
    timeval). The two headers differ in the unit alone, which is a parameter here. */
module TimeIntervals {

  import opened MachineWords
  import opened Division
  import opened FixedPoint

  const NANOSECONDS: Unit := 1_000_000_000
  const MICROSECONDS: Unit := 1_000_000

  /** Units of the fraction per second. */
  type Unit = u: int | u == 1_000_000_000 || u == 1_000_000 witness 1_000_000

  datatype Time = Time(sec: i64, frac: i64)

  /** timespec_isnormal, timeval_isnormal. */
  predicate IsNormal(x: Time, unit: Unit) { 0 <= x.frac < unit }

  /** The instant, in units of the fraction. */
  function Instant(x: Time, unit: Unit): int { x.sec * unit + x.frac }

  /** The seconds of the normal form fit. */
  predicate Fits(sec: int, frac: int, unit: Unit) {
    InInt64(sec) && InInt64(frac) && InInt64(sec + frac / unit)
  }

  /** Without the division, a long and so the fraction has 32 bits. */
  predicate FractionFits(frac: int, divide: bool) { if divide then InInt64(frac) else InInt32(frac) }

  /** No two normal times denote the same instant. */
  lemma NormalFormIsUnique(x: Time, y: Time, unit: Unit)
    requires IsNormal(x, unit) && IsNormal(y, unit) && Instant(x, unit) == Instant(y, unit)
    ensures x == y
  {
    QuotientIsUnique(Instant(x, unit), unit, x.sec, x.frac);
    QuotientIsUnique(Instant(x, unit), unit, y.sec, y.frac);
  }

  /** The C quotient, which is truncated. */
  function TruncatedQuotient(a: int, k: int): int
    requires 0 < k
  {
    if a >= 0 then a / k else -(-a / k)
  }

  /** normalize_tspec, normalize_tval: one division where the fraction is far out of range, which
      the code for a 32-bit long leaves out, and then loops. */
  method Normalize(x: Time, unit: Unit, divide: bool) returns (r: Time)
    requires Fits(x.sec, x.frac, unit)
    ensures IsNormal(r, unit) && Instant(r, unit) == Instant(x, unit)
  {
    hide SameTime, TruncatedQuotient;
    var sec: i64, frac: i64 := x.sec, x.frac;
    ghost var instant, final := Instant(x, unit), x.sec + x.frac / unit;
    Bounds(sec, frac, unit, instant, final);
    if divide && (frac < -3 * unit || frac > 3 * unit) {
      var z := TruncatedQuotient(frac, unit);
      DivideOut(sec, frac, unit, instant, final);
      frac := frac - z * unit;
      sec := sec + z;
    }
    if frac < 0 {
      sec, frac := Borrow(sec, frac, unit, instant, final);
    } else if frac >= unit {
      sec, frac := CarryOver(sec, frac, unit, instant, final);
    }
    Bounds(sec, frac, unit, instant, final);
    r := Time(sec, frac);
  }

  /** The loop for a negative fraction. */
  method Borrow(s: i64, f: i64, unit: Unit, ghost instant: int, ghost final: i64) returns (sec: i64, frac: i64)
    requires f < 0 && SameTime(s, f, unit, instant, final)
    ensures 0 <= frac < unit && SameTime(sec, frac, unit, instant, final)
  {
    hide SameTime;
    sec, frac := s, f;
    while frac < 0
      invariant frac < unit && SameTime(sec, frac, unit, instant, final)
    {
      Bounds(sec, frac, unit, instant, final);
      Carry(sec, frac, unit, -1, instant, final);
      frac := frac + unit;
      sec := sec - 1;
    }
  }

  /** The loop for a fraction of a second and more. */
  method CarryOver(s: i64, f: i64, unit: Unit, ghost instant: int, ghost final: i64) returns (sec: i64, frac: i64)
    requires f >= unit && SameTime(s, f, unit, instant, final)
    ensures 0 <= frac < unit && SameTime(sec, frac, unit, instant, final)
  {
    hide SameTime;
    sec, frac := s, f;
    while frac >= unit
      invariant 0 <= frac && SameTime(sec, frac, unit, instant, final)
    {
      Bounds(sec, frac, unit, instant, final);
      Carry(sec, frac, unit, 1, instant, final);
      frac := frac - unit;
      sec := sec + 1;
    }
  }

  /** The same instant, on the way to the same normal form. */
  predicate SameTime(sec: int, frac: int, unit: Unit, instant: int, final: int) {
    sec * unit + frac == instant && sec + frac / unit == final
  }

  lemma Bounds(sec: int, frac: int, unit: Unit, instant: int, final: int)
    ensures SameTime(sec, frac, unit, instant, final) <==> sec * unit + frac == instant && sec + frac / unit == final
    ensures SameTime(sec, frac, unit, instant, final) ==>
      && (frac < 0 ==> final < sec)
      && (frac >= unit ==> sec < final)
      && (0 <= frac < unit ==> sec == final)
      && (0 < frac + unit < unit ==> sec == final + 1)
  {}

  lemma Carry(sec: int, frac: int, unit: Unit, z: int, instant: int, final: int)
    requires SameTime(sec, frac, unit, instant, final)
    ensures SameTime(sec + z, frac - z * unit, unit, instant, final)
  {
    ShiftedQuotient(frac, unit, -z);
    assert unit * -z == -(z * unit);
  }

  lemma Truncation(a: int, k: int)
    requires 0 < k
    ensures var z := TruncatedQuotient(a, k);
      && (a >= 0 ==> 0 <= z && 0 <= a - z * k < k)
      && (a < 0 ==> z <= 0 && -k < a - z * k <= 0)
  {
    if a < 0 {
      QuotientIsNatural(-a, k);
      assert -a == k * (-a / k) + -a % k;
    } else {
      QuotientIsNatural(a, k);
      assert a == k * (a / k) + a % k;
    }
  }

  /** The truncating division leaves less than one second and goes nowhere out of range. */
  lemma DivideOut(sec: i64, frac: i64, unit: Unit, instant: int, final: i64)
    requires SameTime(sec, frac, unit, instant, final)
    ensures var z := TruncatedQuotient(frac, unit);
      && SameTime(sec + z, frac - z * unit, unit, instant, final)
      && InInt64(sec + z) && InInt64(z * unit) && -(unit as int) < frac - z * unit < unit
  {
    hide TruncatedQuotient;
    var z := TruncatedQuotient(frac, unit);
    Truncation(frac, unit);
    Carry(sec, frac, unit, z, instant, final);
    Bounds(sec, frac, unit, instant, final);
    Bounds(sec + z, frac - z * unit, unit, instant, final);
  }

  // ---- arithmetic -------------------------------------------------------------------------

  /** add_tspec, add_tval */
  method Add(a: Time, b: Time, unit: Unit, divide: bool) returns (r: Time)
    requires Fits(a.sec + b.sec, a.frac + b.frac, unit) && FractionFits(a.frac + b.frac, divide)
    ensures IsNormal(r, unit) && Instant(r, unit) == Instant(a, unit) + Instant(b, unit)
  {
    r := Normalize(Time(a.sec + b.sec, a.frac + b.frac), unit, divide);
  }

  /** sub_tspec, sub_tval */
  method Subtract(a: Time, b: Time, unit: Unit, divide: bool) returns (r: Time)
    requires Fits(a.sec - b.sec, a.frac - b.frac, unit) && FractionFits(a.frac - b.frac, divide)
    ensures IsNormal(r, unit) && Instant(r, unit) == Instant(a, unit) - Instant(b, unit)
  {
    r := Normalize(Time(a.sec - b.sec, a.frac - b.frac), unit, divide);
  }

  /** neg_tspec, neg_tval */
  method Negate(a: Time, unit: Unit, divide: bool) returns (r: Time)
    requires Fits(-(a.sec as int), -(a.frac as int), unit) && FractionFits(-(a.frac as int), divide)
    ensures IsNormal(r, unit) && Instant(r, unit) == -Instant(a, unit)
  {
    r := Normalize(Time(-(a.sec as int), -(a.frac as int)), unit, divide);
  }

  /** abs_tspec, abs_tval: the complement of a normal time without another normalisation. */
  method Absolute(a: Time, unit: Unit, divide: bool) returns (c: Time)
    requires Fits(a.sec, a.frac, unit)
    requires a.sec + a.frac / unit > -0x8000_0000_0000_0000
    ensures IsNormal(c, unit)
    ensures Instant(c, unit) == if Instant(a, unit) < 0 then -Instant(a, unit) else Instant(a, unit)
  {
    c := Normalize(a, unit, divide);
    NormalSeconds(a, c, unit);
    if c.sec < 0 {
      if c.frac != 0 {
        c := Time(-(c.sec as int) - 1, unit - c.frac);
      } else {
        c := Time(-(c.sec as int), 0);
      }
    }
  }

  lemma NormalSeconds(x: Time, y: Time, unit: Unit)
    requires IsNormal(y, unit) && Instant(x, unit) == Instant(y, unit)
    ensures y.sec == x.sec + x.frac / unit
  {
    ShiftedQuotient(x.frac, unit, x.sec);
    QuotientIsUnique(Instant(y, unit), unit, y.sec, y.frac);
  }

  /** cmp_tspec, cmp_tval: 1, 0 or -1 as a is later than, the same as or earlier than b. */
  function Compare(a: Time, b: Time): (r: int)
    ensures forall unit: Unit | IsNormal(a, unit) && IsNormal(b, unit) ::
      && (r == 1 <==> Instant(a, unit) > Instant(b, unit))
      && (r == 0 <==> Instant(a, unit) == Instant(b, unit))
      && (r == -1 <==> Instant(a, unit) < Instant(b, unit))
  {
    if a.sec > b.sec then 1 else if a.sec < b.sec then -1
    else if a.frac > b.frac then 1 else if a.frac < b.frac then -1
    else 0
  }

  // ---- conversion to and from fixed point -------------------------------------------------

  /** TVNTOF, TVUTOTSF: fraction to units of 2^-32, rounded half up. */
  function FractionToFixed(frac: i64, unit: Unit): (f: u32)
    requires 0 <= frac < unit
    ensures -(unit as int) < 2 * (f * unit - frac * TWO_TO_32) <= unit
  {
    (frac * TWO_TO_32 + unit / 2) / unit
  }

  /** FTOTVN, TSFTOTVU: the other way round; close to one second it answers a whole second. */
  function FixedToFraction(f: u32, unit: Unit): (r: i32)
    ensures 0 <= r <= unit
    ensures -0x8000_0000 < r * TWO_TO_32 - f * unit <= 0x8000_0000
  {
    (f * unit + 0x8000_0000) / TWO_TO_32
  }

  /** tspec_intv_to_lfp, tval_intv_to_lfp of a normal time: the integer part is cast to 32 bits. */
  function ToFixed(x: Time, unit: Unit): (u32, u32)
    requires IsNormal(x, unit)
  {
    (Wrap32(x.sec), FractionToFixed(x.frac, unit))
  }

  method IntervalToFixed(x: Time, unit: Unit, divide: bool) returns (ui: u32, uf: u32)
    requires Fits(x.sec, x.frac, unit)
    ensures exists v: Time | IsNormal(v, unit) ::
      Instant(v, unit) == Instant(x, unit) && (ui, uf) == ToFixed(v, unit)
    ensures ui == Wrap32(Instant(x, unit) / unit)
    ensures -(unit as int) < 2 * (uf * unit - Instant(x, unit) % unit * TWO_TO_32) <= unit
  {
    hide FractionToFixed;
    var v := Normalize(x, unit, divide);
    uf := FractionToFixed(v.frac, unit);
    ui := Wrap32(v.sec);
    assert (ui, uf) == ToFixed(v, unit);
    QuotientIsUnique(Instant(x, unit), unit, v.sec, v.frac);
  }

  /** What lfp_intv_to_tspec, lfp_intv_to_tval compute before normalising: magnitude, then sign. */
  function Unsigned(ui: u32, uf: u32): (u32, u32) {
    if !MIsNeg(ui) then (ui, uf)
    else if uf == 0 then (Wrap32(TWO_TO_32 - ui), 0)
    else (TWO_TO_32 - 1 - ui, TWO_TO_32 - uf)
  }

  /** The normal time that denotes an instant. */
  function NormalForm(instant: int, unit: Unit): (x: Time)
    requires InInt64(instant / unit)
    ensures IsNormal(x, unit) && Instant(x, unit) == instant
  {
    Time(instant / unit, instant % unit)
  }

  /** The time a fixed-point value is converted to: its magnitude is rounded, and a negative value
      is then brought to normal form, while others are not. */
  function FromFixed(ui: u32, uf: u32, unit: Unit): Time {
    var (i, f) := Unsigned(ui, uf);
    var sec, frac: int := TwosComplementToInt32(i), FixedToFraction(f, unit);
    if MIsNeg(ui) then NormalForm(-(sec * unit + frac), unit) else Time(sec, frac)
  }

  /** lfp_intv_to_tspec, lfp_intv_to_tval. */
  method FixedToInterval(ui: u32, uf: u32, unit: Unit, divide: bool) returns (out: Time)
    ensures out == FromFixed(ui, uf, unit)
    ensures IsNearest(out, ui, uf, unit) <==> !(ui == 0x8000_0000 && uf == 0)
  {
    hide IsNearest, FixedToFraction, FromFixed, Unsigned, Value;
    ConversionIsNearest(ui, uf, unit);
    FromFixedCases(ui, uf, unit);
    var neg := MIsNeg(ui);
    var i, f := ui, uf;
    if neg {
      i, f := MNeg(i, f);
      NegatedWords(ui, uf, i, f);
    }
    out := Time(TwosComplementToInt32(i), FixedToFraction(f, unit));
    if neg {
      out := Time(-(out.sec as int), -(out.frac as int));
      out := Normalize(out, unit, divide);
      NormalFormIsUnique(out, FromFixed(ui, uf, unit), unit);
    }
  }

  lemma FromFixedCases(ui: u32, uf: u32, unit: Unit)
    ensures var x, (i, f) := FromFixed(ui, uf, unit), Unsigned(ui, uf);
      if MIsNeg(ui) then
        IsNormal(x, unit) && Instant(x, unit) == -(TwosComplementToInt32(i) * unit + FixedToFraction(f, unit))
      else (i, f) == (ui, uf) && x == Time(TwosComplementToInt32(ui), FixedToFraction(uf, unit))
  {
    hide FixedToFraction, NormalForm;
  }

  /** The time is within half a unit of the signed fixed-point value, halves away from zero. */
  predicate IsNearest(x: Time, ui: u32, uf: u32, unit: Unit) {
    var error := Instant(x, unit) * TWO_TO_32 - Signed64(Value(ui, uf)) * unit;
    if MIsNeg(ui) then -0x8000_0000 <= error < 0x8000_0000 else -0x8000_0000 < error <= 0x8000_0000
  }

  /** The conversion from fixed point is off by at most half a unit, with one exception: the least
      value of all, whose magnitude does not fit. */
  lemma ConversionIsNearest(ui: u32, uf: u32, unit: Unit)
    ensures IsNearest(FromFixed(ui, uf, unit), ui, uf, unit) <==> !(ui == 0x8000_0000 && uf == 0)
  {
    hide FixedToFraction, NormalForm, Value;
    var (i, f) := Unsigned(ui, uf);
    SignedParts(ui, uf);
    var x, v := FromFixed(ui, uf, unit), Signed64(Value(ui, uf)) as int;
    var sec, frac: int := TwosComplementToInt32(i), FixedToFraction(f, unit);
    if !MIsNeg(ui) {
      assert Instant(x, unit) * TWO_TO_32 == sec * TWO_TO_32 * unit + frac * TWO_TO_32;
      assert v * unit == sec * TWO_TO_32 * unit + f * unit;
    } else {
      assert Instant(x, unit) * TWO_TO_32 == -(sec * TWO_TO_32 * unit) - frac * TWO_TO_32;
      MagnitudeParts(ui, uf);
      assert v * unit == -(i * TWO_TO_32 * unit) - f * unit;
    }
  }

  lemma MagnitudeParts(ui: u32, uf: u32)
    requires MIsNeg(ui)
    ensures var (i, f) := Unsigned(ui, uf);
      && (ui - TWO_TO_32) * TWO_TO_32 + uf == -(i * TWO_TO_32) - f
      && TwosComplementToInt32(i) == (if ui == 0x8000_0000 && uf == 0 then -0x8000_0000 else i)
      && (ui == 0x8000_0000 && uf == 0 ==> i == 0x8000_0000 && f == 0)
  {}

  lemma NegatedWords(ui: u32, uf: u32, i: u32, f: u32)
    requires MIsNeg(ui) && Value(i, f) == Wrap64(-Value(ui, uf))
    ensures (i, f) == Unsigned(ui, uf)
  {
    var v := Value(ui, uf);
    QuotientIsUnique(-v, TWO_TO_64, -1, TWO_TO_64 - v);
    var (j, g) := Unsigned(ui, uf);
    assert Value(j, g) == TWO_TO_64 - v;
    WordsAreUnique(i, f, j, g);
  }

  lemma WordsAreUnique(i: u32, f: u32, j: u32, g: u32)
    requires Value(i, f) == Value(j, g)
    ensures i == j && f == g
  {}

  /** Rounding to 2^-32 and back is the identity on fractions. */
  lemma FractionRoundTrip(frac: i64, unit: Unit)
    requires 0 <= frac < unit
    ensures FixedToFraction(FractionToFixed(frac, unit), unit) == frac
    ensures FixedToFraction(Wrap32(TWO_TO_32 - FractionToFixed(frac, unit)), unit) == if frac == 0 then 0 else unit - frac
    ensures FractionToFixed(frac, unit) == 0 <==> frac == 0
  {
    RoundsBack(frac, unit, FractionToFixed(frac, unit));
  }

  lemma RoundsBack(frac: int, unit: int, f: int)
    requires unit == 1_000_000 || unit == 1_000_000_000
    requires 0 <= frac < unit && f == (frac * TWO_TO_32 + unit / 2) / unit
    ensures 0 <= f < TWO_TO_32 && (f == 0 <==> frac == 0)
    ensures (f * unit + 0x8000_0000) / TWO_TO_32 == frac
    ensures f > 0 ==> ((TWO_TO_32 - f) * unit + 0x8000_0000) / TWO_TO_32 == unit - frac
  {
    var e := f * unit - frac * TWO_TO_32;
    assert -0x4000_0000 < e < 0x4000_0000;
    QuotientIsUnique(f * unit + 0x8000_0000, TWO_TO_32, frac, e + 0x8000_0000);
    assert (TWO_TO_32 - f) * unit == TWO_TO_32 * unit - f * unit;
    QuotientIsUnique((TWO_TO_32 - f) * unit + 0x8000_0000, TWO_TO_32, unit - frac, 0x8000_0000 - e);
  }

  /** Converting a normal time within 32 bits of seconds and back gives the time itself, in spite
      of the rounding both ways. The one exception is the whole second -2^31, whose magnitude does
      not fit. */
  lemma IntervalRoundTrip(x: Time, unit: Unit)
    requires IsNormal(x, unit) && InInt32(x.sec)
    ensures var (ui, uf) := ToFixed(x, unit);
      FromFixed(ui, uf, unit) == x <==> !(x.sec == -0x8000_0000 && x.frac == 0)
  {
    hide FractionToFixed, FixedToFraction, NormalForm;
    var (ui, uf) := ToFixed(x, unit);
    FractionRoundTrip(x.frac, unit);
    TwosComplementInverse(x.sec);
    if x.sec < 0 {
      var (i, f) := Unsigned(ui, uf);
      NegativeWords(x.sec, uf);
      var sec, frac: int := TwosComplementToInt32(i), FixedToFraction(f, unit);
      if !(x.sec == -0x8000_0000 && x.frac == 0) {
        assert -(sec * unit + frac) == Instant(x, unit);
        NormalFormIsUnique(x, FromFixed(ui, uf, unit), unit);
      }
    }
  }

  lemma NegativeWords(sec: i32, uf: u32)
    requires sec < 0
    ensures var (i, f) := Unsigned(Wrap32(sec), uf);
      && MIsNeg(Wrap32(sec)) && f == Wrap32(TWO_TO_32 - uf)
      && TwosComplementToInt32(i) ==
         if uf != 0 then -(sec as int) - 1 else if sec == -0x8000_0000 then sec else -(sec as int)
  {
    hide Wrap32, TwosComplementToInt32;
    SmallWrap(sec);
    SmallWrap(TWO_TO_32 - uf);
    SmallWrap(TWO_TO_32 - Wrap32(sec));
    PositiveWord(if uf != 0 then -(sec as int) - 1 else -(sec as int));
  }

  lemma PositiveWord(x: int)
    requires 0 <= x <= 0x8000_0000
    ensures TwosComplementToInt32(x) == if x == 0x8000_0000 then -0x8000_0000 else x
  {}

  /** The greatest fraction that does not round up to a whole second. */
  function LargestFraction(unit: Unit): u32 { if unit == 1_000_000_000 then 0xFFFF_FFFD else 0xFFFF_F79C }

  /** The result of the conversion from fixed point is normal, unless the value is not negative and
      its fraction rounds up to a whole second. */
  lemma ConversionIsNormal(ui: u32, uf: u32, unit: Unit)
    ensures IsNormal(FromFixed(ui, uf, unit), unit) <==> MIsNeg(ui) || uf <= LargestFraction(unit)
  {
    hide NormalForm;
    if unit == 1_000_000 {
      assert FixedToFraction(uf, unit) == (uf * 1_000_000 + 0x8000_0000) / TWO_TO_32;
    } else {
      assert FixedToFraction(uf, unit) == (uf * 1_000_000_000 + 0x8000_0000) / TWO_TO_32;
    }
  }
}
