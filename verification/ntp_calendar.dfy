/** The Gregorian half of the NTP calendar: conversions in 32-bit arithmetic, each proved to
    compute what the plain definitions of module Gregorian say. */
module NtpCalendar {

  import opened MachineWords
  import opened Division
  import G = Gregorian

  const GREGORIAN_CYCLE_DAYS := 146097
  const GREGORIAN_NORMAL_LEAP_CYCLE_DAYS := 1461

  /** UINT32_MAX / 4, the largest operand that may be multiplied by four. */
  const SATURATION_LIMIT: u32 := 0x3FFF_FFFF

  function Clamp(x: int): int {
    if x < -0x4000_0000 then -0x4000_0000 else if x > 0x3FFF_FFFF then 0x3FFF_FFFF else x
  }

  /** uint32_saturate; the second result tells that errno was set to EDOM. */
  function Saturate(vu: u32, mu: Mask): (r: (u32, bool)) {
    if XorMask(mu, vu) > SATURATION_LIMIT then (XorMask(mu, SATURATION_LIMIT), true) else (vu, false)
  }

  lemma SaturateClamps(v: i32)
    ensures -0x4000_0000 <= Clamp(v) <= 0x3FFF_FFFF && SignMask(Clamp(v)) == SignMask(v)
    ensures Saturate(Wrap32(v), SignMask(v)) == (Wrap32(Clamp(v)), v != Clamp(v))
  {
    hide XorMask;
  }

  // ---- elapsed years to elapsed days ------------------------------------------------------

  /** ntpcal_leapyears_in_years: three chained unsigned divisions and one complement count the
      leap years, for negative year counts too. */
  function LeapyearsInYears(years: i32): (r: i32)
    ensures r == G.LeapsIn(years)
  {
    hide XorMask, Wrap32;
    var sflag := SignMask(years);
    var uyear := XorMask(sflag, Int32ToTwosComplement(years));
    var sum := InOutIn(uyear);
    LeapsComplement(years);
    TwosComplementInverse(G.LeapsIn(years));
    TwosComplementToInt32(XorMask(sflag, sum))
  }

  /** The division chain by 4, 25 and 4 with alternating signs. */
  function InOutIn(uyear: u32): (sum: u32)
    ensures sum == G.LeapsIn(uyear) && sum <= uyear / 2
  {
    hide Wrap32;
    var fours: u32 := uyear / 4;
    var hundreds: u32 := fours / 25;
    var fourHundreds: u32 := hundreds / 4;
    ChainedQuotients(uyear);
    SmallWrap(fours - hundreds);
    SmallWrap(fours - hundreds + fourHundreds);
    Wrap32(Wrap32(fours - hundreds) + fourHundreds)
  }

  /** The alternation of signs lets one complement stand for three. */
  lemma LeapsComplement(years: int)
    ensures G.LeapsIn(-years - 1) == -G.LeapsIn(years) - 1
  {
    ComplementQuotient(years, 4);
    ComplementQuotient(years, 100);
    ComplementQuotient(years, 400);
  }

  lemma ChainedQuotients(x: int)
    ensures x / 100 == x / 4 / 25 && x / 400 == x / 4 / 25 / 4
  {}

  /** ntpcal_days_in_years, where the result does not overflow. */
  function DaysInYears(years: i32): (r: i32)
    requires InInt32(G.DaysIn(years))
    ensures r == G.DaysIn(years)
  {
    LeapsHaveTheSign(years);
    var common: i32 := years * 365;
    common + LeapyearsInYears(years)
  }

  lemma LeapsHaveTheSign(years: int)
    ensures years >= 0 ==> G.LeapsIn(years) >= 0
    ensures years < 0 ==> G.LeapsIn(years) < 0
  {
    G.LeapsInMonotone(0, if years < 0 then 0 else years);
    G.LeapsInMonotone(if years < 0 then years else -1, -1);
  }

  // ---- elapsed days to elapsed years ------------------------------------------------------

  datatype EraSplit = EraSplit(years: i32, day: i32, leap: bool, edom: bool)

  /** ntpcal_split_eradays undoes DaysInYears on the clamped day count: two divisions find the
      century and the year in the century, and the leap flag is that of the year found. */
  function SplitEradays(days: i32): (r: EraSplit)
    ensures Clamp(days) == G.DaysIn(r.years) + r.day
    ensures 0 <= r.day < 365 + G.LeapDay(r.years + 1)
    ensures r.leap == G.IsLeap(r.years + 1)
    ensures r.edom == (days != Clamp(days))
    ensures -3_000_000 < r.years < 3_000_000
  {
    hide G.DaysIn, G.IsLeap, G.LeapDay, SplitCenturies, SplitYears, TwosComplementToInt32, Wrap32, Clamp;
    var (Q, rest, edom) := SplitCenturies(days);
    var n100 := TwosComplementToInt32(Q);
    var (n001, day) := SplitYears(rest);
    var leap := (n001 + 1) % 4 == 0 && (n001 != 99 || Wrap32(Q + 1) % 4 == 0);
    SaturateClamps(days);
    CyclesAreExact(Clamp(days), Q, rest, n100, n001, day, leap);
    EraSplit(n100 * 100 + n001, day, leap, edom)
  }

  lemma CyclesAreExact(d: int, Q: u32, rest: u32, n100: i32, n001: i32, day: i32, leap: bool)
    requires -0x4000_0000 <= d <= 0x3FFF_FFFF
    requires Q == Wrap32((4 * d + 3) / 146097) && rest == (4 * d + 3) % 146097
    requires n100 == TwosComplementToInt32(Q) && (n001, day) == SplitYears(rest)
    requires leap == ((n001 + 1) % 4 == 0 && (n001 != 99 || Wrap32(Q + 1) % 4 == 0))
    ensures d == G.DaysIn(n100 * 100 + n001) + day
    ensures 0 <= day < 365 + G.LeapDay(n100 * 100 + n001 + 1)
    ensures leap == G.IsLeap(n100 * 100 + n001 + 1)
    ensures -30_000 < n100 < 30_000 && 0 <= n001 <= 99
  {
    hide SplitYears, G.DaysIn, G.IsLeap, Wrap32, TwosComplementToInt32;
    TwosComplementInverse((4 * d + 3) / 146097);
    CenturyOfDay(d);
    YearOfCentury(d, n100);
    LeapInCentury(n100, n001);
    MaskedCentury(n100);
  }

  /** The first cycle split: the century in two's complement and what is left of 4 * days + 3. */
  function SplitCenturies(days: i32): (r: (u32, u32, bool))
    ensures var s := 4 * Clamp(days) + 3;
      r == (Wrap32(s / GREGORIAN_CYCLE_DAYS), s % GREGORIAN_CYCLE_DAYS, days != Clamp(days))
  {
    var sflag := SignMask(days);
    var (uday, edom) := Saturate(Int32ToTwosComplement(days), sflag);
    SaturateClamps(days);
    ScaledByFour(Clamp(days));
    var scaled: u32 := Wrap32(4 * uday) + 3;
    var Q := XorMask(sflag, XorMask(sflag, scaled) / GREGORIAN_CYCLE_DAYS);
    var rest := Wrap32(scaled - Wrap32(Q * GREGORIAN_CYCLE_DAYS));
    SplitIsExact(Clamp(days), sflag, scaled, Q, rest);
    (Q, rest, edom)
  }

  /** The second cycle split: the year in the century and the day in the year. */
  function SplitYears(rest: u32): (r: (i32, i32))
    requires rest < GREGORIAN_CYCLE_DAYS
    ensures var fixed := rest - rest % 4 + 3; r == (fixed / 1461, fixed % 1461 / 4)
  {
    var fixed: u32 := rest - rest % 4 + 3;
    var n001: i32 := fixed / GREGORIAN_NORMAL_LEAP_CYCLE_DAYS;
    var day: u32 := fixed % GREGORIAN_NORMAL_LEAP_CYCLE_DAYS;
    (n001, day / 4)
  }

  /** Masking the unsigned word gives the floor remainder of the signed century. */
  lemma MaskedCentury(q: i32)
    requires q < 0x7FFF_FFFF
    ensures Wrap32(Wrap32(q) + 1) % 4 == (q + 1) % 4
  {
    if q < -1 { ShiftedQuotient(q + 1, 4, 0x4000_0000); }
  }

  /** The unsigned words of the first step of SplitEradays hold a floor division. */
  lemma SplitIsExact(d: i32, sflag: Mask, scaled: u32, Q: u32, rest: u32)
    requires -0x4000_0000 <= d <= 0x3FFF_FFFF && sflag == SignMask(d)
    requires scaled == Wrap32(4 * Wrap32(d)) + 3
    requires Q == XorMask(sflag, XorMask(sflag, scaled) / GREGORIAN_CYCLE_DAYS)
    requires rest == Wrap32(scaled - Wrap32(Q * GREGORIAN_CYCLE_DAYS))
    ensures Q == Wrap32((4 * d + 3) / GREGORIAN_CYCLE_DAYS)
    ensures rest == (4 * d + 3) % GREGORIAN_CYCLE_DAYS
  {
    var s := 4 * d + 3;
    var q := s / GREGORIAN_CYCLE_DAYS;
    ScaledByFour(d);
    OnesComplementFloorDivision(sflag, s, GREGORIAN_CYCLE_DAYS);
    RemainderWord(s, GREGORIAN_CYCLE_DAYS, q, s % GREGORIAN_CYCLE_DAYS);
  }

  lemma ScaledByFour(d: i32)
    requires -0x4000_0000 <= d <= 0x3FFF_FFFF
    ensures Wrap32(4 * Wrap32(d)) <= 0xFFFF_FFFC
    ensures Wrap32(4 * Wrap32(d)) + 3 == Wrap32(4 * d + 3)
    ensures Wrap32(4 * Wrap32(d)) + 2 == Wrap32(4 * d + 2)
  {
    hide Wrap32;
    WrapProduct(d, 4);
    SmallWrap(4 * d);
    SmallWrap(4 * d + 2);
    SmallWrap(4 * d + 3);
  }

  /** Subtracting the product of quotient and divisor in 32 bits leaves the floor remainder. */
  lemma RemainderWord(s: int, k: int, q: int, r: u32)
    requires s == q * k + r
    ensures Wrap32(Wrap32(s) - Wrap32(Wrap32(q) * k)) == r
  {
    WrapProduct(q, k);
    WrapDifference(s, q * k);
  }

  /** The first division finds the century q; with the low bits set its remainder is 4 * c + 3
      for the day c in that century. */
  lemma CenturyOfDay(d: int)
    ensures var q, rest := (4 * d + 3) / 146097, (4 * d + 3) % 146097;
      var c := d - 36524 * q - q / 4;
      rest - rest % 4 + 3 == 4 * c + 3 && 0 <= c <= 36523 + (if q % 4 == 3 then 1 else 0)
  {
    var q, rest := (4 * d + 3) / 146097, (4 * d + 3) % 146097;
    var c := d - 36524 * q - q / 4;
    assert rest == 4 * d + 3 - 146097 * q;
    assert q == 4 * (q / 4) + q % 4;
    assert rest == 4 * (c - q % 4) + 3 * (q % 4) + 3;
    assert rest == 4 * c + 3 - q % 4;
    assert rest == 4 * c + (3 - q % 4);
    QuotientIsUnique(rest, 4, c, 3 - q % 4);
  }

  /** The second division finds the year n in the century and the day in that year. */
  lemma YearOfCentury(d: int, q: int)
    requires var c := d - 36524 * q - q / 4; 0 <= c <= 36523 + (if q % 4 == 3 then 1 else 0)
    ensures var fixed := 4 * (d - 36524 * q - q / 4) + 3;
      var n, day := fixed / 1461, fixed % 1461 / 4;
      && 0 <= n <= 99
      && d == G.DaysIn(100 * q + n) + day
      && 0 <= day < 365 + G.LeapDay(100 * q + n + 1)
  {
    hide G.DaysIn, G.IsLeap;
    var c := d - 36524 * q - q / 4;
    var fixed := 4 * c + 3;
    var n, rem := fixed / 1461, fixed % 1461;
    CenturyStart(q, n);
    DayInYear(c);
    LeapInCentury(q, n);
  }

  lemma DayInYear(c: int)
    requires 0 <= c <= 36524
    ensures var n, rem := (4 * c + 3) / 1461, (4 * c + 3) % 1461;
      && 0 <= n <= 99
      && c == 365 * n + n / 4 + rem / 4
      && 0 <= rem / 4 <= 365
      && (rem / 4 == 365 ==> n % 4 == 3)
      && (n == 99 && rem / 4 == 365 ==> c == 36524)
  {
    var n, rem := (4 * c + 3) / 1461, (4 * c + 3) % 1461;
    assert rem == 4 * (c - 365 * n - n / 4) + 3 - n % 4;
    QuotientIsUnique(rem, 4, c - 365 * n - n / 4, 3 - n % 4);
  }

  /** Days before the year n of the century q. */
  lemma CenturyStart(q: int, n: int)
    requires 0 <= n <= 99
    ensures G.DaysIn(100 * q + n) == 36524 * q + q / 4 + 365 * n + n / 4
  {
    CenturyQuotients(q, n);
  }

  lemma CenturyQuotients(q: int, n: int)
    requires 0 <= n <= 99
    ensures (100 * q + n) / 4 == 25 * q + n / 4
    ensures (100 * q + n) / 100 == q && (100 * q + n) % 100 == n
    ensures (100 * q + n) / 400 == q / 4 && (100 * q + n) % 400 == 100 * (q % 4) + n
    ensures (100 * q + n) % 4 == n % 4
  {
    ShiftedQuotient(n, 4, 25 * q);
    QuotientIsUnique(100 * q + n, 100, q, n);
    QuotientIsUnique(100 * q + n, 400, q / 4, 100 * (q % 4) + n);
  }

  lemma LeapInCentury(q: int, n: int)
    requires 0 <= n <= 99
    ensures G.IsLeap(100 * q + n + 1) == ((n + 1) % 4 == 0 && (n != 99 || (q + 1) % 4 == 0))
  {
    if n < 99 {
      CenturyQuotients(q, n + 1);
    } else {
      CenturyQuotients(q + 1, 0);
    }
  }

  /** Floor division and remainder of a signed value by a positive constant, as the calendar
      code computes both from one unsigned division. */
  lemma FloorDivMod(v: i32, k: i32)
    requires 0 < k
    ensures var Q := XorMask(SignMask(v), Divide(XorMask(SignMask(v), Int32ToTwosComplement(v)), k));
      TwosComplementToInt32(Q) == v / k && Wrap32(Int32ToTwosComplement(v) - Wrap32(Q * k)) == v % k
  {
    hide XorMask, Wrap32, TwosComplementToInt32;
    OnesComplementFloorDivision(SignMask(v), v, k);
    QuotientInRange(v, k);
    TwosComplementInverse(v / k);
    RemainderWord(v, k, v / k, v % k);
  }

  lemma QuotientInRange(v: i32, k: i32)
    requires 0 < k
    ensures InInt32(v / k)
  {
    if v / k > v && v >= 0 {
      MultipleIsAtLeast(k, v / k);
    }
  }

  // ---- months -----------------------------------------------------------------------------

  datatype Split = Split(hi: i32, lo: i32)

  /** Month table for a year starting with 1 March. */
  function ShiftMonthTable(): (t: seq<i32>)
    ensures |t| == 13
    ensures forall m | 0 <= m < 13 :: 0 <= t[m] <= 366
  {
    [0, 31, 61, 92, 122, 153, 184, 214, 245, 275, 306, 337, 366]
  }

  /** Month tables for years starting with 1 January. */
  function RealMonthTable(leap: bool): (t: seq<i32>)
    ensures |t| == 13
  {
    if leap then [0, 31, 60, 91, 121, 152, 182, 213, 244, 274, 305, 335, 366]
    else [0, 31, 59, 90, 120, 151, 181, 212, 243, 273, 304, 334, 365]
  }

  /** Both tables hold the accumulated month lengths; March starts the shifted one. */
  lemma TablesAccumulateLengths(leap: bool, m: nat)
    requires m <= 12
    ensures RealMonthTable(leap)[m] == G.MonthStart(leap, m)
    ensures m >= 2 ==> ShiftMonthTable()[m - 2] == G.MonthStart(leap, m) - G.MonthStart(leap, 2)
    ensures m < 2 ==> ShiftMonthTable()[m + 10] == 306 + G.MonthStart(leap, m)
  {
    G.MonthTable(leap);
    if m < 2 {
    } else if leap {
      assert RealMonthTable(true)[m] == RealMonthTable(false)[m] + 1;
    }
  }

  /** ntpcal_split_yeardays undoes the month table; out of range it answers {-1, -1}. */
  function SplitYeardays(eyd: i32, leap: bool): (r: Split)
    ensures 0 <= eyd < 365 + (if leap then 1 else 0) ==>
      && 0 <= r.hi < 12
      && eyd == G.MonthStart(leap, r.hi) + r.lo
      && 0 <= r.lo < G.MonthLength(leap, r.hi)
    ensures !(0 <= eyd < 365 + (if leap then 1 else 0)) ==> r == Split(-1, -1)
  {
    var lt := RealMonthTable(leap);
    if 0 <= eyd < lt[12] then
      var approx := eyd / 32;
      MonthApproximation(eyd, leap);
      var month := if lt[approx + 1] <= eyd then approx + 1 else approx;
      Split(month, eyd - lt[month])
    else Split(-1, -1)
  }

  /** A 32nd of the day in the year is the month or one less. */
  lemma MonthApproximation(eyd: int, leap: bool)
    requires 0 <= eyd < RealMonthTable(leap)[12]
    ensures var m := eyd / 32;
      && 0 <= m < 12
      && G.MonthStart(leap, m) == RealMonthTable(leap)[m] <= eyd
      && G.MonthStart(leap, m + 1) == RealMonthTable(leap)[m + 1]
      && (RealMonthTable(leap)[m + 1] <= eyd ==>
          m + 1 < 12 && G.MonthStart(leap, m + 2) == RealMonthTable(leap)[m + 2] > eyd)
  {
    hide G.MonthStart;
    var m := eyd / 32;
    assert m <= 11;
    TablesAccumulateLengths(leap, m);
    TablesAccumulateLengths(leap, m + 1);
    if m < 11 { TablesAccumulateLengths(leap, m + 2); }
  }

  /** Floor quotient and remainder by a positive constant, from one division in one's complement. */
  function FloorSplit(v: i32, k: i32): (r: Split)
    requires 0 < k
    ensures r.hi == v / k && r.lo == v % k
  {
    hide XorMask, Wrap32, Int32ToTwosComplement, TwosComplementToInt32;
    var sflag := SignMask(v);
    var vu := Int32ToTwosComplement(v);
    var Q := XorMask(sflag, Divide(XorMask(sflag, vu), k));
    FloorDivMod(v, k);
    Split(TwosComplementToInt32(Q), Wrap32(vu - Wrap32(Q * k)))
  }

  /** ntpcal_days_in_months: months shifted to start in March, so no leap flag is needed. */
  function DaysInMonths(m: i32): (r: Split)
    requires m <= 0x7FFF_FFFF - 10
    ensures r.hi == (m + 10) / 12
    ensures r.lo == ShiftMonthTable()[(m + 10) % 12] - 306
  {
    hide *;
    var lo: i32 := m + 10;
    var hi := if lo >= 12 then 1 else 0;
    var lo := if hi == 1 then lo - 12 else lo;
    var (hi, lo) :=
      if lo < 0 || lo >= 12 then
        var whole := FloorSplit(lo, 12);
        ShiftedQuotient(lo, 12, hi);
        (hi + whole.hi, whole.lo)
      else (hi, lo);
    Split(hi, ShiftMonthTable()[lo] - 306)
  }

  /** The shifted-month algorithm places every month, on or off the scale. */
  lemma ShiftedMonthIsPlaced(years: int, m: int, hi: int, lo: int)
    requires hi == (m + 10) / 12 && lo == ShiftMonthTable()[(m + 10) % 12] - 306
    ensures G.DaysIn(years + hi) + lo == G.EraDays(years, m, 0)
  {
    hide ShiftMonthTable, RealMonthTable, G.MonthStart, G.DaysIn, G.IsLeap;
    var q, r := m / 12, m % 12;
    var leap := G.IsLeap(years + q + 1);
    TablesAccumulateLengths(leap, r);
    if r < 2 {
      QuotientIsUnique(m + 10, 12, q, r + 10);
    } else {
      QuotientIsUnique(m + 10, 12, q + 1, r - 2);
      G.DaysInStep(years + q);
      G.MonthTable(leap);
    }
  }

  // ---- elapsed dates ----------------------------------------------------------------------

  /** No intermediate sum of the era day computation overflows. */
  predicate EdateFits(years: int, mons: int, mdays: int) {
    var y := years + (mons + 10) / 12;
    && mons <= 0x7FFF_FFFF - 10 && InInt32(y) && InInt32(G.DaysIn(y))
    && InInt32(G.EraDays(years, mons, 0)) && InInt32(G.EraDays(years, mons, mdays))
  }

  /** ntpcal_edate_to_eradays, through the shifted months. */
  function EdateToEradays(years: i32, mons: i32, mdays: i32): (r: i32)
    requires EdateFits(years, mons, mdays)
    ensures r == G.EraDays(years, mons, mdays)
  {
    hide ShiftMonthTable, G.EraDays, G.DaysIn, DaysInMonths, DaysInYears;
    G.EraDaysParts(years, mons, mdays);
    var res: i32 :=
      if mons != 0 then
        var tmp := DaysInMonths(mons);
        ShiftedMonthIsPlaced(years, mons, tmp.hi, tmp.lo);
        DaysInYears(years + tmp.hi) + tmp.lo
      else DaysInYears(years);
    res + mdays
  }

  /** No intermediate sum of the year day computation overflows. */
  predicate YeardaysFit(years: int, mons: int, mdays: int) {
    if 0 <= mons < 12 then
      years < 0x7FFF_FFFF && InInt32(G.EraDays(years, mons, mdays) - G.DaysIn(years))
    else
      var y := years + (mons + 10) / 12;
      && mons <= 0x7FFF_FFFF - 10 && InInt32(y) && InInt32(G.DaysIn(y))
      && InInt32(G.EraDays(years, mons, 0)) && InInt32(G.DaysIn(years))
      && InInt32(G.EraDays(years, mons, 0) - G.DaysIn(years))
      && InInt32(G.EraDays(years, mons, mdays) - G.DaysIn(years))
  }

  /** ntpcal_edate_to_yeardays, through the leap year tables while the month is on the scale. */
  function EdateToYeardays(years: i32, mons: i32, mdays: i32): (r: i32)
    requires YeardaysFit(years, mons, mdays)
    ensures r == G.EraDays(years, mons, mdays) - G.DaysIn(years)
  {
    hide ShiftMonthTable, RealMonthTable, G.EraDays, G.DaysIn, G.MonthStart, DaysInMonths, DaysInYears;
    G.EraDaysParts(years, mons, mdays);
    if 0 <= mons < 12 then
      TablesAccumulateLengths(G.IsLeap(years + 1), mons);
      mdays + RealMonthTable(G.IsLeap(years + 1))[mons]
    else
      var tmp := DaysInMonths(mons);
      ShiftedMonthIsPlaced(years, mons, tmp.hi, tmp.lo);
      var start: i32 := tmp.lo + DaysInYears(years + tmp.hi);
      mdays + (start - DaysInYears(years))
  }

  /** The two algorithms agree for every month count, on or off the scale: the days in the year are
      the days in the era less those of the years before. */
  lemma AlgorithmsAgree(years: i32, mons: i32, mdays: i32)
    requires EdateFits(years, mons, mdays) && YeardaysFit(years, mons, mdays) && InInt32(G.DaysIn(years))
    ensures EdateToYeardays(years, mons, mdays) == EdateToEradays(years, mons, mdays) - DaysInYears(years)
  {
    hide EdateToYeardays, EdateToEradays, DaysInYears, G.EraDays, G.DaysIn;
  }

  /** Whole years in the month count carry over to the years. */
  lemma MonthsCarry(years: i32, mons: i32, mdays: i32)
    requires EdateFits(years, mons, mdays)
    requires InInt32(years + mons / 12) && EdateFits(years + mons / 12, mons % 12, mdays)
    ensures EdateToEradays(years, mons, mdays) == EdateToEradays(years + mons / 12, mons % 12, mdays)
  {
    hide EdateToEradays, G.DaysIn, G.MonthStart;
  }
}
