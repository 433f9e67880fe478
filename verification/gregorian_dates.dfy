/** Time stamps to calendar dates and back: struct calendar, its filling from a 64-bit NTP time,
    the two routes back, and their round trips. */
module GregorianDates {

  import opened MachineWords
  import opened Division
  import opened NtpCalendar
  import opened TimeScale
  import G = Gregorian

  const DAY_NTP_STARTS := 693596

  // ---- time of day ------------------------------------------------------------------------

  datatype TimeSplit = TimeSplit(days: i32, hour: i32, minute: i32, second: i32)

  /** priv_timesplit: three chained floor divisions sharing their complement operations. */
  function Timesplit(ts: i32): (r: TimeSplit)
    ensures ts == ((r.days * 24 + r.hour) * 60 + r.minute) * 60 + r.second
    ensures 0 <= r.hour < 24 && 0 <= r.minute < 60 && 0 <= r.second < 60
  {
    hide Wrap32, XorMask, TwosComplementToInt32;
    var sflag := SignMask(ts);
    var us := Int32ToTwosComplement(ts);
    var um: u32 := XorMask(sflag, us) / 60;
    var uh: u32 := um / 60;
    var ud: u32 := uh / 24;
    OnesComplementFloorDivision(sflag, ts, 60);
    MaskTwice(sflag, um);
    OnesComplementFloorDivision(sflag, ts / 60, 60);
    MaskTwice(sflag, uh);
    OnesComplementFloorDivision(sflag, ts / 60 / 60, 24);
    var um := XorMask(sflag, um);
    var uh := XorMask(sflag, uh);
    var ud := XorMask(sflag, ud);
    RemainderWord(ts / 60 / 60, 24, ts / 60 / 60 / 24, ts / 60 / 60 % 24);
    RemainderWord(ts / 60, 60, ts / 60 / 60, ts / 60 % 60);
    RemainderWord(ts, 60, ts / 60, ts % 60);
    TwosComplementInverse(ts / 60 / 60 / 24);
    TimeSplit(TwosComplementToInt32(ud), Wrap32(uh - Wrap32(ud * 24)),
              Wrap32(um - Wrap32(uh * 60)), Wrap32(us - Wrap32(um * 60)))
  }

  lemma MaskTwice(m: Mask, u: u32)
    ensures XorMask(m, XorMask(m, u)) == u
  {}

  lemma TimesplitIsUnique(ts: i32, days: int, hour: int, minute: int, second: int)
    requires ts == ((days * 24 + hour) * 60 + minute) * 60 + second
    requires 0 <= hour < 24 && 0 <= minute < 60 && 0 <= second < 60
    ensures InInt32(days) && Timesplit(ts) == TimeSplit(days, hour, minute, second)
  {
    hide Timesplit;
    var r := Timesplit(ts);
    QuotientIsUnique(ts, 60, (days * 24 + hour) * 60 + minute, second);
    QuotientIsUnique(ts, 60, (r.days * 24 + r.hour) * 60 + r.minute, r.second);
    QuotientIsUnique((days * 24 + hour) * 60 + minute, 60, days * 24 + hour, minute);
    QuotientIsUnique((r.days * 24 + r.hour) * 60 + r.minute, 60, r.days * 24 + r.hour, r.minute);
    QuotientIsUnique(days * 24 + hour, 24, days, hour);
    QuotientIsUnique(r.days * 24 + r.hour, 24, r.days, r.hour);
  }

  // ---- dates ------------------------------------------------------------------------------

  /** The fields of struct calendar. */
  datatype Date = Date(year: u16, yearday: u16, month: u8, monthday: u8,
                       hour: u8, minute: u8, second: u8, weekday: u8)

  /** Year, month, day and time are on the scale; day-of-year and weekday are not looked at. */
  predicate OnScale(d: Date) {
    && 1 <= d.month <= 12 && 1 <= d.monthday <= G.MonthLength(G.IsLeap(d.year), d.month - 1)
    && d.hour < 24 && d.minute < 60 && d.second < 60
  }

  /** On the scale, and the redundant fields agree with the others. */
  predicate Consistent(d: Date) {
    && OnScale(d)
    && d.yearday == G.MonthStart(G.IsLeap(d.year), d.month - 1) + d.monthday
    && d.weekday == DateToRd(d) % 7
  }

  /** ntpcal_date_to_rd; whatever the fields hold, nothing overflows. */
  function DateToRd(d: Date): (rd: i32)
    ensures rd == G.EraDays(d.year - 1, d.month - 1, d.monthday - 1) + 1
    ensures -0x200_0000 < rd < 0x200_0000
  {
    hide EdateToEradays, G.EraDays;
    DatesFit(d.year - 1, d.month - 1, d.monthday - 1);
    EdateToEradays(d.year - 1, d.month - 1, d.monthday - 1) + 1
  }

  lemma DatesFit(years: int, mons: int, mdays: int)
    requires -1 <= years < 0xFFFF && -1 <= mons < 0xFF && -1 <= mdays < 0xFF
    ensures EdateFits(years, mons, mdays)
    ensures -0x1FF_FFFF <= G.EraDays(years, mons, mdays) < 0x1FF_FFFF
  {
    hide G.DaysIn, G.MonthStart, G.IsLeap;
    var y, z := years + (mons + 10) / 12, years + mons / 12;
    SmallYears(y);
    SmallYears(z);
    G.MonthStarts(G.IsLeap(z + 1));
    G.MonthStartMonotone(G.IsLeap(z + 1), mons % 12, 12);
  }

  lemma SmallYears(y: int)
    requires -10 <= y <= 0x1_0100
    ensures -0x1000 < G.DaysIn(y) < 0x1F0_0000
  {
    LeapsHaveTheSign(y);
  }

  /** ntpcal_etime_to_seconds. */
  function EtimeToSeconds(hours: int, minutes: int, seconds: int): int {
    (hours * 60 + minutes) * 60 + seconds
  }

  function DateToDaysec(d: Date): i32 { EtimeToSeconds(d.hour, d.minute, d.second) }

  /** ntpcal_date_to_ntp64. */
  function DateToNtp64(d: Date): VInt64 {
    Dayjoin(DateToRd(d) - DAY_NTP_STARTS, DateToDaysec(d))
  }

  /** Seconds from 1 January 1900, 0h, to a date, by the plain calendar. */
  function SecondsSince1900(d: Date): int {
    (G.EraDays(d.year - 1, d.month - 1, d.monthday - 1) - G.EraDays(1899, 0, 0)) * 86400
    + (d.hour * 60 + d.minute) * 60 + d.second
  }

  /** The NTP scale counts seconds from 1 January 1900; whatever the fields hold. */
  lemma NtpScaleStartsIn1900(d: Date)
    ensures Signed(DateToNtp64(d)) == SecondsSince1900(d)
  {
    hide G.EraDays, DateToRd, Dayjoin, Signed;
    NtpEpoch();
  }

  lemma NtpEpoch()
    ensures DAY_NTP_STARTS == G.EraDays(1899, 0, 0) + 1 == G.DaysIn(1899) + 1
  {
    G.EraDaysParts(1899, 0, 0);
    assert G.DaysIn(1899) == 693595;
  }

  /** The assertions caltontp makes about its argument. */
  predicate Accepted(d: Date) {
    && d.month <= 13 && d.monthday <= 32 && d.yearday <= 366
    && d.hour <= 24 && d.minute <= 60 && d.second <= 60
  }

  /** The day a date names to caltontp: by its day-of-year, where given, else by month and day, which
      may be off the scale. */
  function NamedDay(d: Date): int {
    if d.yearday != 0 then G.DaysIn(d.year - 1) + d.yearday - 1 else G.EraDays(d.year - 1, d.month - 1, d.monthday - 1)
  }

  /** caltontp: the seconds from 1 January 1900, modulo 2^32, of every accepted date. */
  function Caltontp(d: Date): (r: u32)
    requires Accepted(d)
    ensures r == Wrap32((NamedDay(d) - G.DaysIn(1899)) * 86400 + (d.hour * 60 + d.minute) * 60 + d.second)
  {
    hide G.DaysIn, G.EraDays, DateToRd, DaysInYears, Dayjoin, Signed;
    SmallYears(d.year - 1);
    NtpEpoch();
    var eraday: i32 := if d.yearday != 0 then DaysInYears(d.year - 1) + 1 + d.yearday - 1 else DateToRd(d);
    var ntptime := Dayjoin(eraday - DAY_NTP_STARTS, EtimeToSeconds(d.hour, d.minute, d.second));
    LowWord(ntptime);
    ntptime.lo
  }

  /** The years a struct calendar can hold, as day numbers: year 0 to year 65535. */
  predicate RdInRange(rd: int) { G.DaysIn(-1) < rd <= G.DaysIn(0xFFFF) }

  /** What ntpcal_rd_to_date leaves in the date fields of a struct calendar, and its result: the
      leap flag, or -1 when the year does not fit. */
  function DateOfRd(rd: i32, time: Date): (r: (Date, int))
    requires -0x8000_0000 < rd
  {
    var era := SplitEradays(rd - 1);
    var month := SplitYeardays(era.day, era.leap);
    var year := era.years + 1;
    var fits := 0 <= year <= 0xFFFF;
    (time.(year := if fits then year else 0,
           yearday := era.day + 1,
           month := month.hi + 1,
           monthday := month.lo + 1,
           weekday := rd % 7),
     if !fits then -1 else if era.leap then 1 else 0)
  }

  lemma DateOfRdMeaning(rd: i32, time: Date)
    requires -0x8000_0000 < rd
    ensures var (d, leap) := DateOfRd(rd, time);
      && (leap >= 0 <==> RdInRange(rd))
      && (leap >= 0 ==>
          && G.DaysIn(d.year - 1) + d.yearday == rd
          && leap == G.LeapDay(d.year)
          && 1 <= d.month <= 12 && 1 <= d.monthday <= G.MonthLength(G.IsLeap(d.year), d.month - 1)
          && d.yearday == G.MonthStart(G.IsLeap(d.year), d.month - 1) + d.monthday <= 366
          && DateToRd(d) == rd && d.weekday == rd % 7)
      && (leap < 0 ==> leap == -1 && d.year == 0)
  {
    hide G.DaysIn, G.IsLeap, SplitEradays, SplitYeardays, G.MonthStart, G.MonthLength, G.EraDays, DateToRd, Clamp;
    var era := SplitEradays(rd - 1);
    var year := era.years + 1;
    YearsInRange(rd - 1, era);
    if 0 <= year <= 0xFFFF {
      var d := DateOfRd(rd, time).0;
      G.EraDaysParts(year - 1, d.month - 1, d.monthday - 1);
    }
  }

  /** The year number fits 16 bits exactly when the day number is in range. */
  lemma YearsInRange(day: i32, era: EraSplit)
    requires era == SplitEradays(day)
    ensures 0 <= era.years + 1 <= 0xFFFF <==> RdInRange(day + 1)
    ensures 0 <= era.years + 1 <= 0xFFFF ==> Clamp(day) == day
  {
    hide G.DaysIn, SplitEradays, G.IsLeap;
    assert Clamp(day) == day || !RdInRange(day + 1) by { Ends(); }
    Ends();
    G.DaysInStep(era.years);
    if era.years < -1 {
      G.DaysInMonotone(era.years + 1, -1);
    } else if era.years > 0xFFFE {
      G.DaysInMonotone(0xFFFF, era.years);
    } else {
      G.DaysInMonotone(-1, era.years);
      G.DaysInMonotone(era.years + 1, 0xFFFF);
    }
  }

  lemma Ends()
    ensures G.DaysIn(-1) == -366 && G.DaysIn(0xFFFF) == 23936166
  {}

  /** The day number of a 64-bit NTP time fits the 32-bit calendar arithmetic. */
  predicate DayFits(ntp: VInt64) {
    var day := Signed(ntp) / SECSPERDAY;
    InInt32(day) && -0x8000_0000 < day + DAY_NTP_STARTS < 0x8000_0000
  }

  function RdOf(ntp: VInt64): int { Signed(ntp) / SECSPERDAY + DAY_NTP_STARTS }

  /** What ntpcal_ntp64_to_date leaves in a struct calendar, and its result. */
  function DateOfNtp64(ntp: VInt64): (r: (Date, int))
    requires DayFits(ntp)
  {
    var ds := Daysplit(ntp);
    var t := Timesplit(ds.lo);
    DayOf(ntp);
    DateOfRd(ds.hi + t.days + DAY_NTP_STARTS, Date(0, 0, 0, 0, t.hour, t.minute, t.second, 0))
  }

  lemma WithinDay(ts: i32)
    requires 0 <= ts < SECSPERDAY
    ensures Timesplit(ts).days == 0
  {
    hide Timesplit;
  }

  lemma DayOf(ntp: VInt64)
    requires DayFits(ntp)
    ensures Daysplit(ntp).hi == Signed(ntp) / SECSPERDAY
    ensures Timesplit(Daysplit(ntp).lo).days == 0
  {
    hide Daysplit, Timesplit, Signed;
    TwosComplementInverse(Signed(ntp) / SECSPERDAY);
    WithinDay(Daysplit(ntp).lo);
  }

  /** From time stamp to date and back: conversion reports success exactly when the year fits;
      the date is then consistent and leads back to the time stamp. */
  lemma GregorianRoundTrip(ntp: VInt64)
    requires DayFits(ntp)
    ensures var (d, leap) := DateOfNtp64(ntp);
      && (leap >= 0 <==> RdInRange(RdOf(ntp)))
      && (leap >= 0 ==> Consistent(d) && leap == G.LeapDay(d.year) && DateToNtp64(d) == ntp)
      && (leap >= 0 ==> SecondsSince1900(d) == Signed(ntp))
  {
    hide Timesplit, Daysplit, DateOfRd, DateToRd, G.MonthStart, G.MonthLength, G.IsLeap, Dayjoin, G.DaysIn, Signed, RdInRange;
    DayOf(ntp);
    var ds := Daysplit(ntp);
    var t := Timesplit(ds.lo);
    var rd := ds.hi + DAY_NTP_STARTS;
    var time := Date(0, 0, 0, 0, t.hour, t.minute, t.second, 0);
    DateOfRdMeaning(rd, time);
    KeepsTime(rd, time);
    JoinOfSplit(ntp);
    NtpScaleStartsIn1900(DateOfNtp64(ntp).0);
  }

  lemma KeepsTime(rd: i32, time: Date)
    requires -0x8000_0000 < rd
    ensures var d := DateOfRd(rd, time).0;
      d.hour == time.hour && d.minute == time.minute && d.second == time.second
  {}

  /** The second route back, through day-of-year, agrees modulo 2^32 on every consistent date. */
  lemma CaltontpAgrees(d: Date)
    requires Consistent(d)
    ensures Accepted(d) && Caltontp(d) == DateToNtp64(d).lo
  {
    hide Consistent, DateToRd, DaysInYears, G.DaysIn, Dayjoin;
    SmallYears(d.year - 1);
    DayOfYearRoute(d);
  }

  lemma DayOfYearRoute(d: Date)
    requires Consistent(d)
    ensures Accepted(d) && d.yearday > 0 && G.DaysIn(d.year - 1) + d.yearday == DateToRd(d)
  {
    hide DateToRd, G.DaysIn, G.IsLeap, G.MonthStart, G.MonthLength, G.EraDays;
    YeardayBound(d);
    G.MonthStartStep(G.IsLeap(d.year), d.month - 1);
    G.EraDaysParts(d.year - 1, d.month - 1, d.monthday - 1);
  }

  /** The date with its redundant fields filled in. */
  function Completed(d: Date): (e: Date)
    requires OnScale(d)
    ensures Consistent(e)
  {
    hide DateToRd, G.MonthStart, G.MonthLength, G.IsLeap;
    YeardayBound(d);
    var e := d.(yearday := G.MonthStart(G.IsLeap(d.year), d.month - 1) + d.monthday, weekday := DateToRd(d) % 7);
    SameDay(d, e);
    e
  }

  lemma SameDay(d: Date, e: Date)
    requires d.year == e.year && d.month == e.month && d.monthday == e.monthday
    ensures DateToRd(d) == DateToRd(e)
  {
    hide DateToRd, G.EraDays;
  }

  /** From date to time stamp and back: every date on the scale, in the years 0 to 65535, comes
      back with its redundant fields filled in. */
  lemma DateRoundTrip(d: Date)
    requires OnScale(d)
    ensures DayFits(DateToNtp64(d))
    ensures DateOfNtp64(DateToNtp64(d)) == (Completed(d), G.LeapDay(d.year))
  {
    hide Timesplit, Daysplit, DateOfRd, DateToRd, G.MonthStart, G.MonthLength, G.IsLeap, Dayjoin, G.DaysIn, Signed, RdInRange;
    var ntp := DateToNtp64(d);
    var secs := DateToDaysec(d);
    var day := DateToRd(d) - DAY_NTP_STARTS;
    SplitOfJoin(day, secs);
    QuotientIsUnique(Signed(ntp), SECSPERDAY, day, secs);
    TimesplitIsUnique(secs, 0, d.hour, d.minute, d.second);
    var time := Date(0, 0, 0, 0, d.hour, d.minute, d.second, 0);
    RdOfScaleDate(d, time);
    KeepsTime(DateToRd(d), time);
  }

  /** Time 0 is Monday, 1 January 1900. */
  lemma TimeZero(ntp: VInt64, d: Date)
    requires Signed(ntp) == 0
    requires d.year == 1900 && d.month == 1 && d.monthday == 1 && d.hour == d.minute == d.second == 0
    ensures DayFits(ntp) && DateOfNtp64(ntp) == (d.(yearday := 1, weekday := 1), 0)
  {
    hide SecondsSince1900, OnScale, Completed, Signed, DateOfNtp64, DateToNtp64, DayFits, G.LeapDay;
    FirstOf1900(d);
    CompletedFirst(d);
    NtpScaleStartsIn1900(d);
    QuadOfSigned(ntp);
    QuadOfSigned(DateToNtp64(d));
    DateRoundTrip(d);
  }

  lemma FirstOf1900(d: Date)
    requires d.year == 1900 && d.month == 1 && d.monthday == 1 && d.hour == d.minute == d.second == 0
    ensures OnScale(d) && SecondsSince1900(d) == 0
  {
    hide G.EraDays, G.IsLeap;
  }

  lemma CompletedFirst(d: Date)
    requires d.year == 1900 && d.month == 1 && d.monthday == 1 && OnScale(d)
    ensures Completed(d) == d.(yearday := 1, weekday := 1) && G.LeapDay(d.year) == 0
  {
    hide G.IsLeap, G.MonthStart, DateToRd, OnScale, G.EraDays, G.DaysIn;
    CommonYear();
    NtpEpoch();
  }

  lemma CommonYear()
    ensures !G.IsLeap(1900) && G.MonthStart(false, 0) == 0
    ensures G.DaysIn(1899) % 7 == 0
  {}

  /** A day number has one year, month and day. */
  lemma RdOfScaleDate(d: Date, time: Date)
    requires OnScale(d)
    ensures var (e, leap) := DateOfRd(DateToRd(d), time);
      && leap == G.LeapDay(d.year)
      && e.year == d.year && e.month == d.month && e.monthday == d.monthday
      && e.yearday == G.MonthStart(G.IsLeap(d.year), d.month - 1) + d.monthday
      && e.weekday == DateToRd(d) % 7
  {
    hide DateOfRd, DateToRd, G.MonthStart, G.MonthLength, G.IsLeap, G.DaysIn, RdInRange;
    var rd := DateToRd(d);
    var leap := G.IsLeap(d.year);
    var yday := G.MonthStart(leap, d.month - 1) + d.monthday;
    G.EraDaysParts(d.year - 1, d.month - 1, d.monthday - 1);
    YeardayBound(d);
    G.DaysInStep(d.year - 1);
    DateInRange(d.year, yday);
    DateOfRdMeaning(rd, time);
    var e := DateOfRd(rd, time).0;
    YeardayBound(e.(hour := 0, minute := 0, second := 0));
    G.DaysInStep(e.year - 1);
    G.YearOfDayIsUnique(rd - 1, d.year - 1, e.year - 1);
    G.MonthOfDayIsUnique(leap, yday - 1, d.month - 1, e.month - 1);
  }

  lemma YeardayBound(d: Date)
    requires OnScale(d)
    ensures var leap := G.IsLeap(d.year);
      var yday := G.MonthStart(leap, d.month - 1) + d.monthday;
      && 1 <= yday <= 365 + G.LeapDay(d.year)
      && G.MonthStart(leap, d.month - 1) <= yday - 1 < G.MonthStart(leap, d.month)
  {
    var leap := G.IsLeap(d.year);
    G.MonthTable(leap);
    G.MonthStartMonotone(leap, d.month, 12);
    G.MonthStartStep(leap, d.month - 1);
  }

  lemma DateInRange(year: u16, yday: int)
    requires 1 <= yday <= 365 + G.LeapDay(year)
    ensures RdInRange(G.DaysIn(year - 1) + yday)
  {
    hide G.DaysIn;
    G.DaysInStep(year - 1);
    G.DaysInMonotone(-1, year - 1);
    G.DaysInMonotone(year, 0xFFFF);
  }

  // ---- filling the structure --------------------------------------------------------------

  /** The C remainder, which takes the sign of the dividend. */
  function TruncatedRemainder(a: int, k: int): int
    requires 0 < k
  {
    if a >= 0 then a % k else -(-a % k)
  }

  /** Casts to unsigned integers of 8 and 16 bits. */
  function Byte(x: int): u8 { x % 0x100 }

  function Word16(x: int): u16 { x % 0x1_0000 }

  lemma SmallByte(x: int)
    requires 0 <= x < 0xFF
    ensures Byte(x) == x && Byte(x + 1) == x + 1
  {}

  lemma SmallWord16(x: int)
    ensures 0 <= x < 0x1_0000 <==> x / 0x1_0000 == 0
    ensures 0 <= x < 0x1_0000 ==> Word16(x) == x
  {}

  /** struct calendar, filled through a pointer. */
  class Calendar {
    var year: u16
    var yearday: u16
    var month: u8
    var monthday: u8
    var hour: u8
    var minute: u8
    var second: u8
    var weekday: u8

    constructor ()
      ensures Fields() == Date(0, 0, 0, 0, 0, 0, 0, 0)
    {
      year, yearday, month, monthday, hour, minute, second, weekday := 0, 0, 0, 0, 0, 0, 0, 0;
    }

    ghost function Fields(): Date
      reads this
    {
      Date(year, yearday, month, monthday, hour, minute, second, weekday)
    }

    /** ntpcal_rd_to_date. The weekday goes through an unsigned byte, the year through a mask. */
    method RdToDate(rd: i32) returns (leapy: int)
      requires -0x8000_0000 < rd
      modifies this
      ensures (Fields(), leapy) == DateOfRd(rd, old(Fields()))
    {
      hide SplitEradays, SplitYeardays, G.DaysIn, G.IsLeap, Clamp, TruncatedRemainder, Byte, Word16;
      weekday := Byte(TruncatedRemainder(rd, 7));
      if weekday >= 7 {
        weekday := Byte(weekday + 7);
      }
      WeekdayByte(rd);
      var era := SplitEradays(rd - 1);
      var hi: i32 := era.years + 1;
      var ymask: u32 := if hi / 0x1_0000 == 0 then ALL_ONES else 0;
      SmallWord16(hi);
      SmallWord16(era.day + 1);
      year := if ymask == 0 then 0 else Word16(hi);
      yearday := Word16(era.day + 1);
      var split := SplitYeardays(era.day, era.leap);
      SmallByte(split.hi);
      SmallByte(split.lo);
      month := Byte(Byte(split.hi) + 1);
      monthday := Byte(Byte(split.lo) + 1);
      leapy := if ymask != 0 then (if era.leap then 1 else 0) else -1;
    }

    /** ntpcal_daysec_to_date: fills the time of day and returns the excess days. */
    method DaysecToDate(sec: i32) returns (days: i32)
      modifies this
      ensures var t := Timesplit(sec);
        days == t.days && Fields() == old(Fields()).(hour := t.hour, minute := t.minute, second := t.second)
    {
      var t := Timesplit(sec);
      hour, minute, second := t.hour, t.minute, t.second;
      days := t.days;
    }

    /** ntpcal_ntp64_to_date. */
    method Ntp64ToDate(ntp: VInt64) returns (leapy: int)
      requires DayFits(ntp)
      modifies this
      ensures (Fields(), leapy) == DateOfNtp64(ntp)
      ensures leapy >= 0 ==> Consistent(Fields()) && SecondsSince1900(Fields()) == Signed(ntp)
    {
      hide Timesplit, Daysplit, DateOfRd, Signed, Consistent, SecondsSince1900, DateToNtp64, RdInRange;
      var ds := Daysplit(ntp);
      DayOf(ntp);
      var days := DaysecToDate(ds.lo);
      OldDateIsOverwritten(ds.hi + days + DAY_NTP_STARTS, Fields(), Date(0, 0, 0, 0, hour, minute, second, 0));
      leapy := RdToDate(ds.hi + days + DAY_NTP_STARTS);
      GregorianRoundTrip(ntp);
    }
  }

  /** The remainder as an unsigned byte, corrected by seven when it was negative. */
  function WeekdayOf(rd: int): u8 {
    var w := Byte(TruncatedRemainder(rd, 7));
    if w >= 7 then Byte(w + 7) else w
  }

  lemma WeekdayByte(rd: int)
    ensures WeekdayOf(rd) == rd % 7
  {
    if rd < 0 {
      var q, r := -rd / 7, -rd % 7;
      assert rd == 7 * -q - r;
      NegativeByte(r);
      if r == 0 {
        QuotientIsUnique(rd, 7, -q, 0);
      } else {
        QuotientIsUnique(rd, 7, -q - 1, 7 - r);
      }
    }
  }

  lemma NegativeByte(r: int)
    requires 0 <= r < 7
    ensures var w := Byte(-r);
      (if w >= 7 then Byte(w + 7) else w) == if r == 0 then 0 else 7 - r
  {
    if r > 0 {
      QuotientIsUnique(-r, 0x100, -1, 0x100 - r);
      QuotientIsUnique(0x107 - r, 0x100, 1, 7 - r);
    }
  }

  lemma OldDateIsOverwritten(rd: i32, d: Date, e: Date)
    requires -0x8000_0000 < rd
    requires d.hour == e.hour && d.minute == e.minute && d.second == e.second
    ensures DateOfRd(rd, d) == DateOfRd(rd, e)
  {}
}
