/** Seconds and days in 64 bits: the splitting and joining of time stamps. Where the code has a second
    path for targets without 64-bit integers, a method follows it word by word and is proved equal to
    the 64-bit function. */
module TimeScale {

  import opened MachineWords
  import opened Division
  import opened FixedPoint
  import opened NtpCalendar
  import G = Gregorian

  const SECSPERDAY := 86400
  const NTP_TO_UNIX_DAYS := 25567
  const JAN_1970: u32 := 2_208_988_800

  /** The epochs are 1 January 1900 and 1 January 1970. */
  lemma EpochsOfScales()
    ensures NTP_TO_UNIX_DAYS == G.DaysIn(1969) - G.DaysIn(1899)
    ensures JAN_1970 == NTP_TO_UNIX_DAYS * 24 * 60 * 60 && SECSPERDAY == 24 * 60 * 60
  {}

  /** vint64: two words that also read as one signed or unsigned quad. */
  datatype VInt64 = VInt64(hi: u32, lo: u32)

  function Unsigned(v: VInt64): int { Value(v.hi, v.lo) }

  function Signed(v: VInt64): i64 { Signed64(Unsigned(v)) }

  /** The quad congruent to x. */
  function Quad(x: int): (v: VInt64)
    ensures Unsigned(v) == Wrap64(x)
    ensures InInt64(x) ==> Signed(v) == x
  {
    hide Wrap64, Signed64;
    SignedOfWrap(x);
    VInt64(Wrap64(x) / TWO_TO_32, Wrap64(x) % TWO_TO_32)
  }

  lemma QuadsAreValues(v: VInt64, w: VInt64)
    requires Unsigned(v) == Unsigned(w)
    ensures v == w
  {}

  lemma QuadOfSigned(v: VInt64)
    ensures Quad(Signed(v)) == v
  {
    QuadsAreValues(Quad(Signed(v)), v);
  }

  /** The low word is congruent to the quad. */
  lemma LowWord(v: VInt64)
    ensures Wrap32(Signed(v)) == v.lo && Wrap32(Unsigned(v)) == v.lo
  {
    ShiftedQuotient(v.lo, TWO_TO_32, v.hi);
    ShiftedQuotient(v.lo, TWO_TO_32, v.hi - TWO_TO_32);
  }

  // ---- days and seconds -------------------------------------------------------------------

  /** ntpcal_daysplit with 64-bit integers is floor division by the length of a day; the day is
      kept modulo 2^32. */
  function Daysplit(ts: VInt64): (r: Split)
    ensures r.hi == TwosComplementToInt32(Wrap32(Signed(ts) / SECSPERDAY))
    ensures r.lo == Signed(ts) % SECSPERDAY
  {
    var Q: u32 :=
      if Signed(ts) < 0 then ALL_ONES - Wrap32((TWO_TO_64 - 1 - Unsigned(ts)) / SECSPERDAY)
      else Wrap32(Unsigned(ts) / SECSPERDAY);
    DayNumberWord(ts);
    DaysplitRemainder(ts, Q);
    Split(TwosComplementToInt32(Q), Wrap32(ts.lo - Wrap32(Q * SECSPERDAY)))
  }

  lemma DayNumberWord(ts: VInt64)
    ensures Signed(ts) < 0 ==>
      ALL_ONES - Wrap32((TWO_TO_64 - 1 - Unsigned(ts)) / SECSPERDAY) == Wrap32(Signed(ts) / SECSPERDAY)
    ensures Signed(ts) >= 0 ==> Wrap32(Unsigned(ts) / SECSPERDAY) == Wrap32(Signed(ts) / SECSPERDAY)
  {
    if Signed(ts) < 0 {
      assert TWO_TO_64 - 1 - Unsigned(ts) == -(Signed(ts) as int) - 1;
      ComplementQuotient(Signed(ts), SECSPERDAY);
      ComplementWord(Signed(ts) / SECSPERDAY);
    }
  }

  lemma ComplementWord(x: int)
    ensures ALL_ONES - Wrap32(-x - 1) == Wrap32(x)
  {
    ComplementQuotient(x, TWO_TO_32);
    assert -x - 1 == TWO_TO_32 * (-(x / TWO_TO_32) - 1) + (TWO_TO_32 - 1 - Wrap32(x));
    QuotientIsUnique(-x - 1, TWO_TO_32, -(x / TWO_TO_32) - 1, TWO_TO_32 - 1 - Wrap32(x));
  }

  lemma DaysplitRemainder(ts: VInt64, Q: u32)
    requires Q == Wrap32(Signed(ts) / SECSPERDAY)
    ensures Wrap32(ts.lo - Wrap32(Q * SECSPERDAY)) == Signed(ts) % SECSPERDAY
  {
    LowWord(ts);
    RemainderWord(Signed(ts), SECSPERDAY, Signed(ts) / SECSPERDAY, Signed(ts) % SECSPERDAY);
  }

  /** ntpcal_daysplit without 64-bit integers: a long division by 675 in three steps, since
      86400 == 128 * 675. It answers what the 64-bit path answers for every input. */
  method DaysplitWords(ts: VInt64) returns (r: Split)
    ensures r == Daysplit(ts)
  {
    hide Daysplit, Signed, Unsigned, Value, TwosComplementToInt32, Wrap32;
    var sflag: Mask := if ts.hi >= 0x8000_0000 then ALL_ONES else 0;
    var ah := XorMask(sflag, ts.hi);
    var al := XorMask(sflag, ts.lo);
    // load the top 13 bits; their quotient would be shifted out again
    var A: u32 := ah / 0x8_0000;
    if A >= 675 {
      A := A % 675;
    }
    // bits 29..50 give the upper part of the quotient
    A := A * 0x8_0000 + ah % 0x8_0000;
    A := A * 8 + al / 0x2000_0000;
    assert A == ah / 0x8_0000 % 675 * 0x40_0000 + (ah % 0x8_0000 * 8 + al / 0x2000_0000);
    var Q: u32 := A / 675;
    A := A % 675;
    // bits 7..28 give the lower 22 bits
    ShiftedWord(Q);
    A := A * 0x40_0000 + al / 128 % 0x40_0000;
    Q := Wrap32(Q * 0x40_0000) + A / 675;
    LongDivision(ah, al, Q);
    FlippedQuotient(ts, sflag, ah, al);
    Q := XorMask(sflag, Q);
    DaysplitRemainder(ts, Q);
    r := Split(TwosComplementToInt32(Q), Wrap32(ts.lo - Wrap32(Q * SECSPERDAY)));
  }

  /** The three division steps compute the quotient of the whole 64-bit numerator. */
  lemma LongDivision(ah: u32, al: u32, Q: u32)
    requires var a1 := ah / 0x8_0000 % 675 * 0x40_0000 + (ah % 0x8_0000 * 8 + al / 0x2000_0000);
      var a2 := a1 % 675 * 0x40_0000 + al / 128 % 0x40_0000;
      Q == Wrap32(a1 / 675 * 0x40_0000) + a2 / 675
    ensures Q == Wrap32(Value(ah, al) / SECSPERDAY)
  {
    var a, b, c := ah / 0x8_0000, ah % 0x8_0000 * 8 + al / 0x2000_0000, al / 128 % 0x40_0000;
    hide Value, Wrap32;
    Numerator(ah, al);
    ThreeSteps(a, b, c);
    SevenBitsDropped((a * 0x40_0000 + b) * 0x40_0000 + c, al % 128);
  }

  lemma SevenBitsDropped(n: nat, low: nat)
    requires low < 128
    ensures (n * 128 + low) / SECSPERDAY == n / 675
  {
    QuotientIsUnique(n * 128 + low, SECSPERDAY, n / 675, n % 675 * 128 + low);
  }

  /** The numerator without its last seven bits, cut into 13, 22 and 22 bits. */
  lemma Numerator(ah: u32, al: u32)
    ensures var a, b, c := ah / 0x8_0000, ah % 0x8_0000 * 8 + al / 0x2000_0000, al / 128 % 0x40_0000;
      && b < 0x40_0000
      && Value(ah, al) == ((a * 0x40_0000 + b) * 0x40_0000 + c) * 128 + al % 128
  {
    assert al == al / 0x2000_0000 * 0x2000_0000 + al / 128 % 0x40_0000 * 128 + al % 128;
  }

  lemma ThreeSteps(a: nat, b: nat, c: nat)
    requires a < 0x2000 && b < 0x40_0000 && c < 0x40_0000
    ensures var a1 := a % 675 * 0x40_0000 + b;
      var a2 := a1 % 675 * 0x40_0000 + c;
      Wrap32(a1 / 675 * 0x40_0000) + a2 / 675 == Wrap32(((a * 0x40_0000 + b) * 0x40_0000 + c) / 675)
  {
    var a1 := a % 675 * 0x40_0000 + b;
    var a2 := a1 % 675 * 0x40_0000 + c;
    var high, q1, q2 := a / 675, a1 / 675, a2 / 675;
    var q := high * 0x1000_0000_0000 + q1 * 0x40_0000 + q2;
    QuotientIsUnique((a * 0x40_0000 + b) * 0x40_0000 + c, 675, q, a2 % 675);
    ShiftedWord(q1);
    assert q2 < 0x40_0000;
    QuotientIsUnique(q, TWO_TO_32, high * 0x1000 + q1 / 0x400, q1 % 0x400 * 0x40_0000 + q2);
  }

  /** Shifting a word left by 22 keeps its low ten bits. */
  lemma ShiftedWord(q: nat)
    ensures Wrap32(q * 0x40_0000) == q % 0x400 * 0x40_0000 <= 0xFFC0_0000
  {
    QuotientIsUnique(q * 0x40_0000, TWO_TO_32, q / 0x400, q % 0x400 * 0x40_0000);
  }

  lemma FlippedQuotient(ts: VInt64, sflag: Mask, ah: u32, al: u32)
    requires sflag == if ts.hi >= 0x8000_0000 then ALL_ONES else 0
    requires ah == XorMask(sflag, ts.hi) && al == XorMask(sflag, ts.lo)
    ensures XorMask(sflag, Wrap32(Value(ah, al) / SECSPERDAY)) == Wrap32(Signed(ts) / SECSPERDAY)
  {
    SignBitIsSign(ts.hi, ts.lo);
    DayNumberWord(ts);
    if sflag != 0 {
      assert Value(ah, al) == TWO_TO_64 - 1 - Unsigned(ts);
    }
  }

  /** ntpcal_dayjoin with 64-bit integers. */
  function Dayjoin(days: i32, secs: i32): (v: VInt64)
    ensures Signed(v) == days * SECSPERDAY + secs
  {
    Quad(days * SECSPERDAY + secs)
  }

  /** ntpcal_dayjoin without 64-bit integers: 16-bit multiplications by 675, a shift by seven and
      two-word additions. Negating INT32_MIN would overflow in the source. */
  method DayjoinWords(days: i32, secs: i32) returns (v: VInt64)
    requires -0x8000_0000 < days && -0x8000_0000 < secs
    ensures v == Dayjoin(days, secs)
  {
    hide Value, Wrap64, Wrap32, Dayjoin;
    var isneg := days < 0;
    var d: i32 := if isneg then -(days as int) else days;
    // assemble d * 675
    var lo: u32 := d % 0x1_0000 * 675;
    var hi: u32 := 0;
    var p1: u32 := d / 0x1_0000 * 675;
    var p2: u32 := p1 / 0x1_0000;
    p1 := Wrap32(p1 * 0x1_0000);
    PartialProduct(d, p2, p1);
    hi, lo := MAdd(hi, lo, p2, p1);
    WrapNothing(d, secs);
    assert Value(hi, lo) == d * 675;
    // multiply by 128
    ShiftBySeven(hi, lo);
    hi := hi * 128 + lo / 0x200_0000;
    lo := Wrap32(lo * 128);
    assert Value(hi, lo) == d * SECSPERDAY;
    if isneg {
      hi, lo := MNeg(hi, lo);
    }
    assert Value(hi, lo) == Wrap64(days * SECSPERDAY);
    p2 := 0;
    if secs < 0 {
      p1 := -(secs as int);
      p2, p1 := MNeg(p2, p1);
    } else {
      p1 := secs;
    }
    assert Value(p2, p1) == Wrap64(secs);
    hi, lo := MAdd(hi, lo, p2, p1);
    v := VInt64(hi, lo);
    Wrap64Sum(days * SECSPERDAY, secs);
    JoinIsQuad(days, secs);
    QuadsAreValues(v, Dayjoin(days, secs));
  }

  lemma JoinIsQuad(days: i32, secs: i32)
    ensures Unsigned(Dayjoin(days, secs)) == Wrap64(days * SECSPERDAY + secs)
  {}

  lemma WrapNothing(d: int, secs: i32)
    requires 0 <= d < 0x8000_0000
    ensures Wrap64(d * 675) == d * 675 && Wrap64(d * SECSPERDAY) == d * SECSPERDAY
    ensures secs >= 0 ==> Wrap64(secs) == secs == Value(0, secs)
    ensures Value(0, d % 0x1_0000 * 675) == d % 0x1_0000 * 675
    ensures secs < 0 ==> -0x8000_0000 < secs ==> Value(0, -(secs as int)) == -(secs as int)
  {}

  lemma PartialProduct(d: int, p2: u32, p1: u32)
    requires 0 <= d < 0x8000_0000
    requires p2 == d / 0x1_0000 * 675 / 0x1_0000 && p1 == Wrap32(d / 0x1_0000 * 675 * 0x1_0000)
    ensures Value(p2, p1) + d % 0x1_0000 * 675 == d * 675
  {
    var p := d / 0x1_0000 * 675;
    QuotientIsUnique(p * 0x1_0000, TWO_TO_32, p / 0x1_0000, p % 0x1_0000 * 0x1_0000);
  }

  lemma ShiftBySeven(hi: u32, lo: u32)
    requires Value(hi, lo) < 0x8000_0000 * 675
    ensures hi * 128 + lo / 0x200_0000 < TWO_TO_32
    ensures Value(hi * 128 + lo / 0x200_0000, Wrap32(lo * 128)) == Value(hi, lo) * 128
  {
    QuotientIsUnique(lo * 128, TWO_TO_32, lo / 0x200_0000, lo % 0x200_0000 * 128);
  }

  lemma Wrap64Sum(x: int, y: int)
    ensures Wrap64(Wrap64(x) + Wrap64(y)) == Wrap64(x + y)
  {
    ShiftedQuotient(Wrap64(x) + Wrap64(y), TWO_TO_64, x / TWO_TO_64 + y / TWO_TO_64);
  }

  /** Splitting undoes joining. */
  lemma SplitOfJoin(days: i32, secs: i32)
    requires 0 <= secs < SECSPERDAY
    ensures Daysplit(Dayjoin(days, secs)) == Split(days, secs)
  {
    QuotientIsUnique(days * SECSPERDAY + secs, SECSPERDAY, days, secs);
    TwosComplementInverse(days);
  }

  /** Joining undoes splitting exactly when the day number fits 32 bits. */
  lemma JoinOfSplit(ts: VInt64)
    ensures Dayjoin(Daysplit(ts).hi, Daysplit(ts).lo) == ts <==> InInt32(Signed(ts) / SECSPERDAY)
  {
    hide Daysplit, Dayjoin, Signed;
    var day := Signed(ts) / SECSPERDAY;
    var s := Daysplit(ts);
    if InInt32(day) {
      TwosComplementInverse(day);
      QuadOfSigned(ts);
      QuadOfSigned(Dayjoin(s.hi, s.lo));
    } else if Dayjoin(s.hi, s.lo) == ts {
      QuotientIsUnique(Signed(ts), SECSPERDAY, s.hi, s.lo);
    }
  }
}
