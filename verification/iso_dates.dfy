/** Time stamps to ISO week dates and back: struct isodate and its round trips. */
module IsoDates {

  import opened MachineWords
  import opened Division
  import opened NtpCalendar
  import opened TimeScale
  import opened IsoCalendar
  import opened GregorianDates
  import G = Gregorian

  /** The fields of struct isodate. */
  datatype WeekDate = WeekDate(year: u16, week: u8, weekday: u8, hour: u8, minute: u8, second: u8)

  predicate OnIsoScale(id: WeekDate) {
    && id.year >= 1
    && 1 <= id.week <= WeeksIn(id.year) - WeeksIn(id.year - 1)
    && 1 <= id.weekday <= 7
    && id.hour < 24 && id.minute < 60 && id.second < 60
  }

  /** The day number of an ISO date, by the plain definitions. */
  function IsoRd(id: WeekDate): int { 7 * (WeeksIn(id.year - 1) + id.week - 1) + id.weekday }

  /** isocal_date_to_ntp64; whatever the fields hold, nothing overflows. */
  function IsoToNtp64(id: WeekDate): (v: VInt64)
    ensures v == Dayjoin(IsoRd(id) - DAY_NTP_STARTS, EtimeToSeconds(id.hour, id.minute, id.second))
  {
    hide WeeksIn, WeeksInYears, Dayjoin;
    IsoYearsOfDates(id.year - 1);
    var weeks: i32 := WeeksInYears(id.year - 1) + id.week - 1;
    var days: i32 := weeks * 7 + id.weekday;
    FirstThursdayRule(WeeksInYears(id.year - 1), id.year - 1);
    Dayjoin(days - DAY_NTP_STARTS, EtimeToSeconds(id.hour, id.minute, id.second))
  }

  /** Seconds from 1 January 1900, 0h, to an ISO date, by the plain definitions. */
  function IsoSecondsSince1900(id: WeekDate): int {
    (IsoRd(id) - 1 - G.DaysIn(1899)) * 86400 + (id.hour * 60 + id.minute) * 60 + id.second
  }

  lemma IsoScaleStartsIn1900(id: WeekDate)
    ensures Signed(IsoToNtp64(id)) == IsoSecondsSince1900(id)
  {
    hide G.DaysIn, IsoRd, IsoToNtp64, Dayjoin, Signed;
    NtpEpoch();
  }

  lemma IsoYearsOfDates(years: int)
    requires -1 <= years < 0x1_0000
    ensures IsoYearsFit(years) && -100 < WeeksIn(years) < 0x100_0000
  {
    YearsAreBounded(years);
    YearsAreBounded(years - years % 100);
  }

  lemma YearsAreBounded(y: int)
    requires -100 <= y <= 0x1_0000
    ensures -37000 < G.DaysIn(y) < 0x1F0_0000
  {
    var q := y / 4;
    assert -25 <= q && q - q / 25 <= 0x4000;
  }

  /** The day shifted from the NTP to the common era fits 32 bits. */
  predicate IsoDayFits(ntp: VInt64) {
    var day := Signed(ntp) / SECSPERDAY;
    InInt32(day) && InInt32(day + DAY_NTP_STARTS - 1)
  }

  /** What isocal_ntp64_to_date leaves in a struct isodate, and its result. */
  function IsoOfNtp64(ntp: VInt64): (r: (WeekDate, bool))
    requires IsoDayFits(ntp)
  {
    var t := Timesplit(Signed(ntp) % SECSPERDAY);
    var day := RdOf(ntp) - 1;
    WeekNumberFits(day);
    var split := SplitEraweeks(day / 7);
    WeeksOfYear(split.years);
    (WeekDate(Word16(Word16(split.years) + 1), split.week + 1, day % 7 + 1, t.hour, t.minute, t.second),
     0 <= split.years < 0xFFFF)
  }

  lemma WeekNumberFits(day: i32)
    ensures InInt32(day / 7)
  {
    QuotientInRange(day, 7);
  }

  /** Where the first ISO year begins and the last one that fits ends. */
  predicate IsoRdInRange(rd: int) { 7 * WeeksIn(0) < rd <= 7 * WeeksIn(0xFFFF) }

  /** From time stamp to ISO date and back: success means exactly that the ISO year fits, and then
      the date is on the scale, denotes the day and leads back to the time stamp. */
  lemma IsoRoundTrip(ntp: VInt64)
    requires IsoDayFits(ntp)
    ensures var (id, ok) := IsoOfNtp64(ntp);
      && (ok <==> IsoRdInRange(RdOf(ntp)))
      && (ok ==> OnIsoScale(id) && IsoRd(id) == RdOf(ntp) && IsoToNtp64(id) == ntp)
  {
    hide WeeksIn, Timesplit, SplitEraweeks, Dayjoin, Daysplit, Signed, Clamp, IsoToNtp64;
    var day := RdOf(ntp) - 1;
    WeekNumberFits(day);
    var split := SplitEraweeks(day / 7);
    IsoYearsInRange(day / 7, split);
    JoinOfSplit(ntp);
    TwosComplementInverse(Signed(ntp) / SECSPERDAY);
    WithinDay(Signed(ntp) % SECSPERDAY);
  }

  /** The ISO date of a time stamp is the one so many seconds after 1 January 1900. */
  lemma IsoDateIsRight(ntp: VInt64)
    requires IsoDayFits(ntp)
    ensures var (id, ok) := IsoOfNtp64(ntp);
      ok ==> OnIsoScale(id) && IsoSecondsSince1900(id) == Signed(ntp)
  {
    hide IsoDayFits, OnIsoScale, IsoSecondsSince1900, IsoRd, RdOf, IsoToNtp64, IsoOfNtp64, IsoRdInRange, Signed;
    IsoRoundTrip(ntp);
    IsoScaleStartsIn1900(IsoOfNtp64(ntp).0);
  }

  lemma IsoYearsInRange(w: i32, split: WeekSplit)
    requires split == SplitEraweeks(w)
    ensures 0 <= split.years < 0xFFFF <==> WeeksIn(0) <= w < WeeksIn(0xFFFF)
    ensures 0 <= split.years < 0xFFFF ==> Clamp(w) == w
  {
    hide WeeksIn, SplitEraweeks;
    IsoYearsOfDates(0);
    IsoYearsOfDates(0xFFFF);
    if split.years < 0 {
      WeeksMonotone(split.years + 1, 0);
    } else if split.years >= 0xFFFF {
      WeeksMonotone(0xFFFF, split.years);
    } else {
      WeeksMonotone(0, split.years);
      WeeksMonotone(split.years + 1, 0xFFFF);
    }
  }

  lemma WeeksMonotone(a: int, b: int)
    requires a <= b
    ensures WeeksIn(b) - WeeksIn(a) >= b - a
  {
    hide G.DaysIn;
    G.DaysInMonotone(a, b);
    var d, e := G.DaysIn(a) + 3, G.DaysIn(b) + 3;
    assert e >= d + 7 * (b - a);
    ShiftedQuotient(d, 7, b - a);
  }

  /** From ISO date to time stamp and back: every date on the scale is reproduced. */
  lemma IsoDateRoundTrip(id: WeekDate)
    requires OnIsoScale(id)
    ensures IsoDayFits(IsoToNtp64(id))
    ensures IsoOfNtp64(IsoToNtp64(id)) == (id, true)
  {
    hide WeeksIn, Timesplit, SplitEraweeks, Signed, Clamp, IsoToNtp64, IsoRd, RdOf, IsoDayFits, EtimeToSeconds, IsoOfNtp64;
    DayOfScaleDate(id);
    TimeOfSeconds(id.hour, id.minute, id.second);
    WeekOfScaleDate(WeeksIn(id.year - 1) + id.week - 1, id.year);
    FieldsOfParts(IsoToNtp64(id), WeeksIn(id.year - 1) + id.week - 1, id);
  }

  lemma FieldsOfParts(ntp: VInt64, w: i32, id: WeekDate)
    requires IsoDayFits(ntp) && id.year >= 1 && id.week >= 1 && 1 <= id.weekday <= 7
    requires (RdOf(ntp) - 1) / 7 == w && (RdOf(ntp) - 1) % 7 == id.weekday - 1
    requires Timesplit(Signed(ntp) % SECSPERDAY) == TimeSplit(0, id.hour, id.minute, id.second)
    requires SplitEraweeks(w).years == id.year - 1 && SplitEraweeks(w).week == id.week - 1
    ensures IsoOfNtp64(ntp) == (id, true)
  {
    hide WeeksIn, Timesplit, SplitEraweeks, Signed, Clamp, Word16;
    SmallWord16(id.year - 1);
    SmallWord16(id.year);
  }

  lemma TimeOfSeconds(hour: nat, minute: nat, second: nat)
    requires hour < 24 && minute < 60 && second < 60
    ensures Timesplit(EtimeToSeconds(hour, minute, second)) == TimeSplit(0, hour, minute, second)
  {
    TimesplitIsUnique(EtimeToSeconds(hour, minute, second), 0, hour, minute, second);
  }

  /** The day, the second in it and the week of an ISO date. */
  lemma DayOfScaleDate(id: WeekDate)
    requires OnIsoScale(id)
    ensures var ntp, w := IsoToNtp64(id), WeeksIn(id.year - 1) + id.week - 1;
      && IsoDayFits(ntp) && Signed(ntp) % SECSPERDAY == EtimeToSeconds(id.hour, id.minute, id.second)
      && InInt32(w) && (RdOf(ntp) - 1) / 7 == w && (RdOf(ntp) - 1) % 7 == id.weekday - 1
  {
    hide WeeksIn, Dayjoin, Signed, IsoToNtp64;
    IsoYearsOfDates(id.year - 1);
    IsoYearsOfDates(id.year);
    var w := WeeksIn(id.year - 1) + id.week - 1;
    QuotientIsUnique(Signed(IsoToNtp64(id)), SECSPERDAY, IsoRd(id) - DAY_NTP_STARTS,
                     EtimeToSeconds(id.hour, id.minute, id.second));
    QuotientIsUnique(IsoRd(id) - 1, 7, w, id.weekday - 1);
  }

  /** A week lies in one ISO year. */
  lemma WeekOfScaleDate(w: i32, year: u16)
    requires 1 <= year && WeeksIn(year - 1) <= w < WeeksIn(year)
    ensures var s := SplitEraweeks(w); s.years == year - 1 && s.week == w - WeeksIn(year - 1)
  {
    hide WeeksIn, SplitEraweeks;
    var s := SplitEraweeks(w);
    IsoYearsOfDates(year - 1);
    IsoYearsOfDates(year);
    if s.years < year - 1 {
      WeeksMonotone(s.years + 1, year - 1);
    } else if s.years > year - 1 {
      WeeksMonotone(year, s.years);
    }
  }

  /** The two calendars agree on the weekday of every time stamp, Sunday being 0 in one and 7 in
      the other. */
  lemma WeekdaysAgree(ntp: VInt64)
    requires DayFits(ntp) && IsoDayFits(ntp)
    ensures IsoOfNtp64(ntp).0.weekday % 7 == DateOfNtp64(ntp).0.weekday
  {
    hide Timesplit, SplitEraweeks, Signed, Daysplit, SplitEradays, SplitYeardays, G.DaysIn, WeeksIn, G.IsLeap, G.MonthStart;
    DayOf(ntp);
    NextQuotient(RdOf(ntp) - 1, 7);
    NextRemainder(RdOf(ntp) - 1);
  }

  lemma NextRemainder(day: int)
    ensures (day % 7 + 1) % 7 == (day + 1) % 7
  {
    ShiftedQuotient(day % 7 + 1, 7, day / 7);
  }

  /** struct isodate, filled through a pointer. */
  class IsoDate {
    var year: u16
    var week: u8
    var weekday: u8
    var hour: u8
    var minute: u8
    var second: u8

    constructor ()
      ensures Fields() == WeekDate(0, 0, 0, 0, 0, 0)
    {
      year, week, weekday, hour, minute, second := 0, 0, 0, 0, 0, 0;
    }

    ghost function Fields(): WeekDate
      reads this
    {
      WeekDate(year, week, weekday, hour, minute, second)
    }

    /** isocal_ntp64_to_date. */
    method Ntp64ToDate(ntp: VInt64) returns (ok: bool)
      requires IsoDayFits(ntp)
      modifies this
      ensures (Fields(), ok) == IsoOfNtp64(ntp)
      ensures ok ==> OnIsoScale(Fields()) && IsoSecondsSince1900(Fields()) == Signed(ntp)
    {
      hide OnIsoScale, IsoSecondsSince1900, Timesplit, Daysplit, Signed, SplitEraweeks, FloorSplit, WeeksIn, TwosComplementToInt32, Byte, Word16;
      var ds := Daysplit(ntp);
      TwosComplementInverse(Signed(ntp) / SECSPERDAY);
      // split the time part
      var t := Timesplit(ds.lo);
      WithinDay(ds.lo);
      var days: i32 := ds.hi + t.days;
      hour, minute, second := t.hour, t.minute, t.second;
      // split days into weeks and days, using floor division in unsigned
      days := days + (DAY_NTP_STARTS - 1);
      var weeks := FloorSplit(days, 7);
      SmallByte(weeks.lo);
      weekday := Byte(Byte(weeks.lo) + 1);
      // year and week in the year
      var split := SplitEraweeks(weeks.hi);
      WeeksOfYear(split.years);
      SmallByte(split.week);
      year := Word16(Word16(split.years) + 1);
      week := Byte(Byte(split.week) + 1);
      ok := split.years >= 0 && split.years < 0xFFFF;
      IsoDateIsRight(ntp);
    }
  }
}
