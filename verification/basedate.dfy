/** The base date: where the unfolding of NTP eras and of GPS weeks starts. */
module Basedates {

  import opened MachineWords
  import opened BitWords
  import opened Division
  import opened TimeScale
  import opened Unfolding
  import opened GregorianDates
  import G = Gregorian

  const DAY_GPS_STARTS := 722819
  const NTP_TO_GPS_DAYS := DAY_GPS_STARTS - DAY_NTP_STARTS
  const GPSWEEKS := 1024

  /** 6 January 1980, a Sunday and the start of GPS week 0. DAY_GPS_STARTS is the day before. */
  const GPS_EPOCH := 722820

  lemma GpsEpochIsASunday()
    ensures GPS_EPOCH % 7 == CAL_SUNDAY
    ensures GPS_EPOCH == DateToRd(Date(1980, 0, 1, 6, 0, 0, 0, 0)) == DAY_GPS_STARTS + 1
  {
    hide DateToRd, G.IsLeap;
    assert G.DaysIn(1979) == 722814;
    G.EraDaysParts(1979, 0, 5);
  }

  /** The first GPS week that starts on or after a day. */
  predicate IsFirstGpsWeek(week: int, rd: int) {
    && 0 <= week && rd <= GPS_EPOCH + 7 * week
    && (week > 0 ==> GPS_EPOCH + 7 * (week - 1) < rd)
  }

  /** The Saturday in place of the epoch is made good by the truncating division. */
  lemma TruncationFindsTheWeek(rd: int, sunday: int)
    requires rd <= sunday < rd + 7 && (sunday - CAL_SUNDAY) % 7 == 0 && DAY_NTP_STARTS <= rd
    ensures var day := sunday - DAY_NTP_STARTS;
      var start := if day < NTP_TO_GPS_DAYS then NTP_TO_GPS_DAYS else day;
      IsFirstGpsWeek((start - NTP_TO_GPS_DAYS) / 7, rd)
  {
    var k := sunday / 7 - 103260;
    assert sunday == GPS_EPOCH + 7 * k;
  }

  /** Of the weeks with a truncated number, the one in the 1024 weeks from the first. */
  predicate IsExpandedWeek(x: int, weekno: int, first: int) {
    first <= x < first + GPSWEEKS && (x - weekno) % GPSWEEKS == 0
  }

  lemma ExpansionIsUnique(x: int, weekno: int, first: int)
    ensures IsExpandedWeek(x, weekno, first) <==> x == first + (weekno - first) % GPSWEEKS
  {
    ResidueIsUnique(x - first, weekno - first, GPSWEEKS);
    assert x - first - (weekno - first) == x - weekno;
  }

  class Basedate {
    var baseday: i32  // s_baseday
    var gpsweek: i32  // s_gpsweek

    predicate Valid()
      reads this
    {
      && NTP_TO_UNIX_DAYS <= baseday && IsFirstGpsWeek(gpsweek, baseday + DAY_NTP_STARTS)
      && baseday + DAY_NTP_STARTS + 6 <= 0x7FFF_FFFF
    }

    constructor ()
      ensures Valid() && baseday == NTP_TO_UNIX_DAYS
    {
      baseday := NTP_TO_UNIX_DAYS;
      gpsweek := 0;
    }

    /** basedate_set_day: the base is no earlier than the UN*X epoch, and GPS weeks are counted from
        the first one that starts on or after it. */
    method SetDay(day: i32) returns (retv: i32)
      requires Valid() && day + DAY_NTP_STARTS + 6 <= 0x7FFF_FFFF
      modifies this
      ensures Valid() && retv == old(baseday)
      ensures baseday == if day < NTP_TO_UNIX_DAYS then NTP_TO_UNIX_DAYS else day
    {
      var day: i32 := if day < NTP_TO_UNIX_DAYS then NTP_TO_UNIX_DAYS else day;
      retv := baseday;
      baseday := day;
      ExtensionIsUnique(Extension(day + DAY_NTP_STARTS, CAL_SUNDAY, 7), day + DAY_NTP_STARTS, CAL_SUNDAY, 7);
      var sunday := WeekdayGe(day + DAY_NTP_STARTS, CAL_SUNDAY);
      TruncationFindsTheWeek(day + DAY_NTP_STARTS, sunday);
      day := sunday - DAY_NTP_STARTS;
      if day < NTP_TO_GPS_DAYS {
        day := NTP_TO_GPS_DAYS;
      }
      gpsweek := (day - NTP_TO_GPS_DAYS) / 7;
    }

    /** basedate_expand_gpsweek: the week of that truncated number in the 1024 weeks from the base. */
    method ExpandGpsWeek(weekno: u16) returns (r: u32)
      requires Valid()
      ensures IsExpandedWeek(r, weekno, gpsweek)
    {
      hide Wrap32, And;
      SmallWrap(gpsweek);
      var diff := And(Wrap32(weekno - Wrap32(gpsweek)), GPSWEEKS - 1);
      WeekMask(Wrap32(weekno - Wrap32(gpsweek)));
      r := Wrap32(gpsweek + diff);
      WrappedResidue(weekno - gpsweek);
      ExpansionIsUnique(gpsweek + diff, weekno, gpsweek);
      SmallWrap(gpsweek + diff);
    }

    /** basedate_get_erabase */
    function EraBase(): (r: i64)
      requires Valid()
      reads this
    {
      (baseday - NTP_TO_UNIX_DAYS) * SECSPERDAY
    }

    /** basedate_get_eracenter */
    function EraCenter(): (r: i64)
      requires Valid()
      reads this
    {
      (baseday - NTP_TO_UNIX_DAYS) * SECSPERDAY + 0x8000_0000
    }

    /** Unfolding around the era centre yields the one time of the NTP second in the 2^32 seconds
        that start with the base day. */
    lemma BaseEra(ntp: u32)
      requires Valid()
      ensures var t := Signed(NtpToTime(ntp, EraCenter()));
        && EraBase() + JAN_1970 == baseday * 86400 && EraCenter() == EraBase() + TWO_TO_32 / 2
        && EraBase() <= t < EraBase() + TWO_TO_32 && Wrap32(t + JAN_1970) == ntp
    {
      hide NtpToTime, NtpToNtp, Wrap32, Signed, Unfold;
      SmallWrap(ntp);
      StampsAreUnfolded(ntp, EraCenter());
      var t := Signed(NtpToTime(ntp, EraCenter()));
      WrapSum(t, JAN_1970);
      WrapSum(ntp - JAN_1970, JAN_1970);
    }
  }

  lemma WeekMask(x: nat)
    ensures And(x, GPSWEEKS - 1) == x % GPSWEEKS
  {
    assert Pow2(10) == 1024;
    AndLowOnes(x, 10);
  }

  lemma WrappedResidue(x: int)
    ensures Wrap32(x) % GPSWEEKS == x % GPSWEEKS
  {
    ShiftedQuotient(Wrap32(x), GPSWEEKS, x / TWO_TO_32 * (TWO_TO_32 / GPSWEEKS));
  }
}
