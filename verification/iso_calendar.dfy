/** The ISO 8601 week calendar (section 2.2.10 of ISO 8601:2004): years to weeks and back by linear
    interpolation over single centuries. */
module IsoCalendar {

  import opened MachineWords
  import opened Division
  import opened NtpCalendar
  import opened Unfolding
  import G = Gregorian

  const GREGORIAN_CYCLE_WEEKS := 20871

  /** Weeks elapsed before the Monday of an ISO year, by the plain Gregorian day count. */
  function WeeksIn(years: int): int { (G.DaysIn(years) + 3) / 7 }

  /** Week w (counted from 0) starts the ISO year that follows so many elapsed years when its
      Thursday is the first Thursday of the Gregorian year. Day 1 of the era is a Monday. */
  predicate HoldsFirstThursday(w: int, years: int) {
    G.DaysIn(years) + 1 <= 7 * w + 4 <= G.DaysIn(years) + 7
  }

  /** WeeksIn is the week chosen by the first-Thursday rule. */
  lemma FirstThursdayRule(w: int, years: int)
    ensures HoldsFirstThursday(w, years) <==> w == WeeksIn(years)
  {
    var d := G.DaysIn(years) + 3;
    if HoldsFirstThursday(w, years) {
      QuotientIsUnique(d, 7, w, d - 7 * w);
    }
  }

  /** An ISO year has 52 or 53 weeks. */
  lemma WeeksOfYear(years: int)
    ensures 52 <= WeeksIn(years + 1) - WeeksIn(years) <= 53
  {
    hide G.DaysIn;
    G.DaysInStep(years);
    var d := G.DaysIn(years) + 3;
    assert G.DaysIn(years + 1) + 3 == d + 365 || G.DaysIn(years + 1) + 3 == d + 366;
    assert 52 <= (d + 365) / 7 - d / 7 <= 53 && 52 <= (d + 366) / 7 - d / 7 <= 53;
  }

  // ---- years to weeks ---------------------------------------------------------------------

  /** No intermediate sum overflows: neither the weeks of the century nor of the year. */
  predicate IsoYearsFit(years: int) {
    InInt32(WeeksIn(years)) && InInt32(WeeksIn(years - years % 100))
  }

  function YearOffset(ci: int): u32
    requires 0 <= ci < 4
  {
    if ci == 0 then 157 else if ci == 1 then 449 else if ci == 2 then 597 else 889
  }

  /** isocal_weeks_in_years: within a century the weeks are (53431 * y + b) / 1024, with one of
      four magic offsets b; the answer is the week the first-Thursday rule picks. */
  function WeeksInYears(years: i32): (r: i32)
    requires IsoYearsFit(years)
    ensures HoldsFirstThursday(r, years)
  {
    hide WeeksIn, HoldsFirstThursday, Wrap32, TwosComplementToInt32, Int32ToTwosComplement, XorMask;
    var sflag := SignMask(years);
    var yu := Int32ToTwosComplement(years);
    var cc := XorMask(sflag, XorMask(sflag, yu) / 100);
    var yu := Wrap32(yu - Wrap32(cc * 100));
    FloorDivMod(years, 100);
    var ci := Wrap32(Wrap32(cc * 3) + 1);
    var cs := TwosComplementToInt32(XorMask(sflag, XorMask(sflag, ci) / 4));
    CycleShift(years, cc, ci);
    var ci := ci % 4;
    SmallWrap(yu * 53431);
    var cw: i32 := Wrap32(yu * 53431 + YearOffset(ci)) / 1024;
    SmallWrap(yu * 53431 + YearOffset(ci));
    WeeksOfCenturyYear(years / 100, years % 100);
    FirstThursdayRule(WeeksIn(years), years);
    TwosComplementToInt32(cc) * 5217 + cs + cw
  }

  /** The cycle shift and its index are floor quotient and remainder of 3 * century + 1 by 4. */
  lemma CycleShift(years: i32, cc: u32, ci: u32)
    requires TwosComplementToInt32(cc) == years / 100
    requires ci == Wrap32(Wrap32(cc * 3) + 1)
    ensures var sflag := SignMask(years);
      TwosComplementToInt32(XorMask(sflag, XorMask(sflag, ci) / 4)) == (3 * (years / 100) + 1) / 4
    ensures ci % 4 == (3 * (years / 100) + 1) % 4
  {
    hide Wrap32, TwosComplementToInt32, XorMask;
    var c := years / 100;
    var s := 3 * c + 1;
    assert cc == Wrap32(c);
    TripleWord(c);
    assert ci == Wrap32(s);
    OnesComplementFloorDivision(SignMask(years), s, 4);
    TwosComplementInverse(s / 4);
    LowBitsOfWord(s);
  }

  lemma LowBitsOfWord(s: int)
    ensures Wrap32(s) % 4 == s % 4
  {
    ShiftedQuotient(Wrap32(s), 4, s / TWO_TO_32 * 0x4000_0000);
  }

  lemma TripleWord(c: int)
    ensures Wrap32(Wrap32(Wrap32(c) * 3) + 1) == Wrap32(3 * c + 1)
  {
    WrapProduct(c, 3);
    WrapSum(3 * c, 1);
  }

  /** The interpolation is exact on all hundred years of every century. */
  lemma WeeksOfCenturyYear(c: int, n: int)
    requires 0 <= n < 100
    ensures 5217 * c + (3 * c + 1) / 4 + (53431 * n + YearOffset((3 * c + 1) % 4)) / 1024 == WeeksIn(100 * c + n)
    ensures 5217 * c + (3 * c + 1) / 4 == WeeksIn(100 * c)
  {
    hide WeeksIn, YearOffset;
    var g, k := c / 4, c % 4;
    QuotientIsUnique(3 * c + 1, 4, 3 * g + (3 * k + 1) / 4, (3 * k + 1) % 4);
    CenturyWeeks(c, n);
    CenturyWeeks(c, 0);
    Interpolation(k, n);
    Interpolation(k, 0);
    var b := YearOffset((3 * k + 1) % 4);
    ShiftedQuotient(183 * n + b, 1024, 52 * n);
  }

  lemma CenturyWeeks(c: int, n: int)
    requires 0 <= n < 100
    ensures WeeksIn(100 * c + n) == 5217 * c + 3 * (c / 4) + 52 * n + (n + n / 4 + 5 * (c % 4) + 3) / 7
  {
    hide G.DaysIn;
    CenturyStart(c, n);
    var rest := n + n / 4 + 5 * (c % 4) + 3;
    assert G.DaysIn(100 * c + n) + 3 == rest + 7 * (5217 * c + 3 * (c / 4) + 52 * n);
    ShiftedQuotient(rest, 7, 5217 * c + 3 * (c / 4) + 52 * n);
  }

  /** The tabulated core of the interpolation, for the four kinds of century. */
  lemma Interpolation(k: int, n: int)
    requires 0 <= k < 4 && 0 <= n < 100
    ensures (3 * k + 1) / 4 + (183 * n + YearOffset((3 * k + 1) % 4)) / 1024 == (n + n / 4 + 5 * k + 3) / 7
  {
    if k == 0 {
      assert (183 * n + 449) / 1024 == (n + n / 4 + 3) / 7;
    } else if k == 1 {
      assert 1 + (183 * n + 157) / 1024 == (n + n / 4 + 8) / 7;
    } else if k == 2 {
      assert 1 + (183 * n + 889) / 1024 == (n + n / 4 + 13) / 7;
    } else {
      assert 2 + (183 * n + 597) / 1024 == (n + n / 4 + 18) / 7;
    }
  }

  /** The week count is the Monday closest to 1 January, by the calendar's own functions. */
  lemma ClosestMonday(years: i32)
    requires InInt32(G.DaysIn(years) - 2) && InInt32(G.DaysIn(years) + 4)
    requires IsoYearsFit(years)
    ensures InInt32(Extension(G.DaysIn(years) - 2, CAL_MONDAY, 7))
    ensures 7 * WeeksInYears(years) + 1 == WeekdayClose(DaysInYears(years) + 1, CAL_MONDAY)
  {
    hide DaysInYears, WeeksInYears, WeekdayClose, G.DaysIn;
    var d := G.DaysIn(years) + 1;
    var monday := 7 * WeeksInYears(years) + 1;
    assert (monday - CAL_MONDAY) % 7 == 0 by { ShiftedQuotient(0, 7, WeeksInYears(years)); }
    ExtensionIsUnique(monday, d - 3, CAL_MONDAY, 7);
    ExtensionIsUnique(WeekdayClose(d, CAL_MONDAY), d - 3, CAL_MONDAY, 7);
  }

  // ---- weeks to years ---------------------------------------------------------------------

  datatype WeekSplit = WeekSplit(years: i32, week: i32, edom: bool)

  function WeekOffset(ci: int): u32
    requires 0 <= ci < 4
  {
    if ci == 0 then 85 else if ci == 1 then 130 else if ci == 2 then 17 else 62
  }

  /** isocal_split_eraweeks undoes WeeksInYears on the clamped week count. */
  function SplitEraweeks(weeks: i32): (r: WeekSplit)
    ensures Clamp(weeks) == WeeksIn(r.years) + r.week
    ensures 0 <= r.week < WeeksIn(r.years + 1) - WeeksIn(r.years)
    ensures r.edom == (weeks != Clamp(weeks))
    ensures -0x4000_0000 < r.years < 0x3FFF_FFFF
  {
    hide WeeksIn, SplitCycles, Clamp, TwosComplementToInt32;
    var (Q, sw, edom) := SplitCycles(weeks);
    var ci := Q % 4;
    var cc := TwosComplementToInt32(Q);
    WeekInCentury(Clamp(weeks), cc);
    var sw: u32 := sw / 4 * 157 + WeekOffset(ci);
    var cy: i32 := sw / 8192;
    var sw: u32 := sw % 8192;
    YearOfWeek(Clamp(weeks), cc);
    WeekSplit(100 * cc + cy, sw / 157, edom)
  }

  /** The first step: centuries and scaled weeks of the saturated week count. */
  function SplitCycles(weeks: i32): (r: (u32, u32, bool))
    ensures var s := 4 * Clamp(weeks) + 2;
      && TwosComplementToInt32(r.0) == s / GREGORIAN_CYCLE_WEEKS && r.1 == s % GREGORIAN_CYCLE_WEEKS
      && r.0 % 4 == s / GREGORIAN_CYCLE_WEEKS % 4 && r.2 == (weeks != Clamp(weeks))
      && -0x4000_0000 <= Clamp(weeks) <= 0x3FFF_FFFF
  {
    hide Wrap32, XorMask, Saturate, Clamp, SignMask, Int32ToTwosComplement, TwosComplementToInt32;
    var sflag := SignMask(weeks);
    SaturateClamps(weeks);
    var (sw, edom) := Saturate(Int32ToTwosComplement(weeks), sflag);
    ScaledByFour(Clamp(weeks));
    var sw: u32 := Wrap32(4 * sw) + 2;
    var Q := XorMask(sflag, XorMask(sflag, sw) / GREGORIAN_CYCLE_WEEKS);
    WeekCenturies(Clamp(weeks), sflag, sw, Q);
    (Q, Wrap32(sw - Wrap32(Q * GREGORIAN_CYCLE_WEEKS)), edom)
  }

  /** The unsigned words of the first step hold the floor division of 4 * weeks + 2. */
  lemma WeekCenturies(w: i32, sflag: Mask, sw: u32, Q: u32)
    requires -0x4000_0000 <= w <= 0x3FFF_FFFF && sflag == SignMask(w)
    requires sw == Wrap32(4 * Wrap32(w)) + 2
    requires Q == XorMask(sflag, XorMask(sflag, sw) / GREGORIAN_CYCLE_WEEKS)
    ensures var s := 4 * w + 2;
      && Wrap32(sw - Wrap32(Q * GREGORIAN_CYCLE_WEEKS)) == s % GREGORIAN_CYCLE_WEEKS
      && TwosComplementToInt32(Q) == s / GREGORIAN_CYCLE_WEEKS
      && Q % 4 == s / GREGORIAN_CYCLE_WEEKS % 4
  {
    var s := 4 * w + 2;
    var q := s / GREGORIAN_CYCLE_WEEKS;
    ScaledByFour(w);
    OnesComplementFloorDivision(sflag, s, GREGORIAN_CYCLE_WEEKS);
    RemainderWord(s, GREGORIAN_CYCLE_WEEKS, q, s % GREGORIAN_CYCLE_WEEKS);
    TwosComplementInverse(q);
    ShiftedQuotient(q, 4, if q < 0 then 0x4000_0000 else 0);
  }

  /** The remainder of the first division, divided by four, is the week in the century. */
  lemma WeekInCentury(w: int, q: int)
    requires q == (4 * w + 2) / 20871
    ensures var wc := w - 5217 * q - (3 * q + 1) / 4;
      && (4 * w + 2) % 20871 / 4 == wc
      && 0 <= wc <= 5216 + (if q % 4 == 1 then 0 else 1)
  {
    var rest := (4 * w + 2) % 20871;
    var shift, ci := (3 * q + 1) / 4, (3 * q + 1) % 4;
    var wc := w - 5217 * q - shift;
    assert rest == 4 * w + 2 - 20871 * q;
    assert rest == 4 * wc + (3 - ci);
    QuotientIsUnique(rest, 4, wc, 3 - ci);
    CycleIndex(q);
  }

  lemma CycleIndex(q: int)
    ensures (3 * q + 1) % 4 == (3 * (q % 4) + 1) % 4
    ensures (3 * q + 1) % 4 == 0 <==> q % 4 == 1
  {
    ShiftedQuotient(3 * (q % 4) + 1, 4, 3 * (q / 4));
  }

  /** Weeks before the year n of a century of kind k, from the start of the century. */
  function CenturyYearWeeks(k: int, n: int): int
    requires 0 <= k < 4
  {
    52 * n + (183 * n + YearOffset((3 * k + 1) % 4)) / 1024
  }

  /** What the inverse interpolation has left over at the start of each year is less than one
      scaled week, so it always finds the right year and week. */
  lemma InverseInterpolation(k: int, n: int)
    requires 0 <= k < 4 && 0 <= n < 100
    ensures 0 <= 157 * CenturyYearWeeks(k, n) + WeekOffset(k) - 8192 * n < 157
  {
    ScaledRemainder(449, 85, n);
    ScaledRemainder(157, 130, n);
    ScaledRemainder(889, 17, n);
    ScaledRemainder(597, 62, n);
  }

  lemma ScaledRemainder(b: int, c: int, n: int)
    requires (b, c) == (449, 85) || (b, c) == (157, 130) || (b, c) == (889, 17) || (b, c) == (597, 62)
    requires 0 <= n < 100
    ensures 0 <= 157 * ((183 * n + b) / 1024) + c - 28 * n < 157
  {
    var q := (183 * n + b) / 1024;
    assert 0 <= q <= 18;
    if q == 0 {
    } else if q == 1 {
    } else if q == 2 {
    } else if q == 3 {
    } else if q == 4 {
    } else if q == 5 {
    } else if q == 6 {
    } else if q == 7 {
    } else if q == 8 {
    } else if q == 9 {
    } else if q == 10 {
    } else if q == 11 {
    } else if q == 12 {
    } else if q == 13 {
    } else if q == 14 {
    } else if q == 15 {
    } else if q == 16 {
    } else if q == 17 {
    } else {
    }
  }

  lemma YearWeeksInCentury(q: int, n: int)
    requires 0 <= n < 100
    ensures WeeksIn(100 * q + n) == 5217 * q + (3 * q + 1) / 4 + CenturyYearWeeks(q % 4, n)
  {
    WeeksOfCenturyYear(q, n);
    CycleIndex(q);
    ShiftedQuotient(183 * n + YearOffset((3 * (q % 4) + 1) % 4), 1024, 52 * n);
  }

  /** The second division finds the year in the century and the week in that year. */
  lemma YearOfWeek(w: int, q: int)
    requires var wc := w - 5217 * q - (3 * q + 1) / 4; 0 <= wc <= 5216 + (if q % 4 == 1 then 0 else 1)
    ensures var s := (w - 5217 * q - (3 * q + 1) / 4) * 157 + WeekOffset(q % 4);
      var y := 100 * q + s / 8192;
      && 0 <= s / 8192 < 100
      && w == WeeksIn(y) + s % 8192 / 157
      && 0 <= s % 8192 / 157 < WeeksIn(y + 1) - WeeksIn(y)
  {
    hide WeeksIn, CenturyYearWeeks;
    var k := q % 4;
    var wc := w - 5217 * q - (3 * q + 1) / 4;
    var s := wc * 157 + WeekOffset(k);
    var n, r := s / 8192, s % 8192;
    assert s < 819200;
    InverseInterpolation(k, n);
    YearWeeksInCentury(q, n);
    var t := wc - CenturyYearWeeks(k, n);
    var e := 157 * CenturyYearWeeks(k, n) + WeekOffset(k) - 8192 * n;
    assert r == 157 * t + e;
    QuotientIsUnique(r, 157, t, e);
    if n < 99 {
      InverseInterpolation(k, n + 1);
      YearWeeksInCentury(q, n + 1);
    } else {
      NextCentury(q);
    }
  }

  lemma NextCentury(q: int)
    ensures WeeksIn(100 * q + 100) == 5217 * q + (3 * q + 1) / 4 + 5217 + (if q % 4 == 1 then 0 else 1)
  {
    WeeksOfCenturyYear(q + 1, 0);
    CycleIndex(q);
    assert 3 * (q + 1) + 1 == 3 * q + 1 + 3;
    assert (3 * q + 4) / 4 == (3 * q + 1) / 4 + if (3 * q + 1) % 4 == 0 then 0 else 1;
  }
}
