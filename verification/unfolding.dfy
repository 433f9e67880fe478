/** Periodic extension: finding the representative of a truncated value next to a pivot. */
module Unfolding {

  import opened MachineWords
  import opened Division
  import opened FixedPoint
  import opened TimeScale

  const CAL_SUNDAY: i32 := 0
  const CAL_MONDAY: i32 := 1

  // ---- 32-bit cycles ----------------------------------------------------------------------

  /** r is value moved by whole cycles into the cycle that starts at the pivot, or ends at it
      when the cycle is negative. */
  predicate IsExtension(r: int, pivot: int, value: int, cycle: int) {
    && (cycle > 0 ==> pivot <= r < pivot + cycle && (r - value) % cycle == 0)
    && (cycle < 0 ==> pivot + cycle < r <= pivot && (r - value) % -cycle == 0)
    && (cycle == 0 ==> r == pivot)
  }

  function Extension(pivot: int, value: int, cycle: int): int {
    if cycle > 0 then pivot + (value - pivot) % cycle
    else if cycle < 0 then pivot - (pivot - value) % -cycle
    else pivot
  }

  /** Extension is the one and only value with the promised properties. */
  lemma ExtensionIsUnique(r: int, pivot: int, value: int, cycle: int)
    ensures IsExtension(r, pivot, value, cycle) <==> r == Extension(pivot, value, cycle)
  {
    if cycle > 0 {
      ResidueIsUnique(r - pivot, value - pivot, cycle);
    } else if cycle < 0 {
      ResidueIsUnique(pivot - r, pivot - value, -cycle);
      assert pivot - r - (pivot - value) == -(r - value);
      NegatedMultiple(r - value, -cycle);
    }
  }

  /** x is y modulo k, exactly when it lies below k and differs from y by a multiple of k. */
  lemma ResidueIsUnique(x: int, y: int, k: int)
    requires 0 < k
    ensures (0 <= x < k && (x - y) % k == 0) <==> x == y % k
  {
    if 0 <= x < k && (x - y) % k == 0 {
      assert y == k * -((x - y) / k) + x;
      QuotientIsUnique(y, k, -((x - y) / k), x);
    }
    if x == y % k {
      assert x - y == k * -(y / k) + 0;
      QuotientIsUnique(x - y, k, -(y / k), 0);
    }
  }

  lemma NegatedMultiple(x: int, k: int)
    requires 0 < k
    ensures x % k == 0 <==> -x % k == 0
  {
    if x % k == 0 {
      assert -x == k * -(x / k) + 0;
      QuotientIsUnique(-x, k, -(x / k), 0);
    }
    if -x % k == 0 {
      assert x == k * -(-x / k) + 0;
      QuotientIsUnique(x, k, -(-x / k), 0);
    }
  }

  /** ntpcal_periodic_extend: unsigned differences taken the non-negative way round, with flags
      that complement the remainder and change its sign. */
  function PeriodicExtend(pivot: i32, value: i32, cycle: i32): (r: i32)
    requires -0x8000_0000 < cycle && InInt32(Extension(pivot, value, cycle))
    ensures IsExtension(r, pivot, value, cycle)
  {
    hide Extension, IsExtension, Wrap32, Int32ToTwosComplement, TwosComplementToInt32, XorMask;
    ExtensionIsUnique(Extension(pivot, value, cycle), pivot, value, cycle);
    var neg := cycle < 0;
    var c: i32 := if neg then -(cycle as int) else cycle;
    ExtensionByRemainder(pivot, value, cycle);
    if c > 1 then
      var cpl := neg != (value < pivot);
      DifferenceWord(pivot, value);
      var diff := if value >= pivot then Wrap32(Int32ToTwosComplement(value) - Int32ToTwosComplement(pivot))
                  else Wrap32(Int32ToTwosComplement(pivot) - Int32ToTwosComplement(value));
      var diff: u32 := diff % c;
      if diff != 0 then
        var diff: u32 := if cpl then c - diff else diff;
        NegatedWord(diff);
        var diff := if neg then Wrap32(XorMask(ALL_ONES, diff) + 1) else diff;
        pivot + TwosComplementToInt32(diff)
      else pivot
    else pivot
  }

  /** The extension in terms of the absolute difference, its complement and its sign. */
  lemma ExtensionByRemainder(pivot: int, value: int, cycle: int)
    ensures var c := if cycle < 0 then -cycle else cycle;
      var d := if value >= pivot then value - pivot else pivot - value;
      if c <= 1 || d % c == 0 then Extension(pivot, value, cycle) == pivot
      else
        var e := if (cycle < 0) != (value < pivot) then c - d % c else d % c;
        Extension(pivot, value, cycle) == if cycle < 0 then pivot - e else pivot + e
  {
    if cycle > 1 {
      ComplementedRemainder(pivot - value, cycle);
    } else if cycle < -1 {
      ComplementedRemainder(value - pivot, -cycle);
    }
  }

  lemma NegatedWord(diff: u32)
    requires 0 < diff < 0x8000_0000
    ensures TwosComplementToInt32(diff) == diff
    ensures TwosComplementToInt32(Wrap32(XorMask(ALL_ONES, diff) + 1)) == -(diff as int)
  {}

  lemma DifferenceWord(pivot: i32, value: i32)
    ensures value >= pivot ==>
      Wrap32(Int32ToTwosComplement(value) - Int32ToTwosComplement(pivot)) == value - pivot
    ensures value < pivot ==>
      Wrap32(Int32ToTwosComplement(pivot) - Int32ToTwosComplement(value)) == pivot - value
  {
    hide Wrap32, Int32ToTwosComplement;
    WrapDifference(value, pivot);
    WrapDifference(pivot, value);
    SmallWrap(value - pivot);
    SmallWrap(pivot - value);
  }

  lemma ComplementedRemainder(x: int, k: int)
    requires 0 < k
    ensures -x % k == if x % k == 0 then 0 else k - x % k
  {
    if x % k == 0 {
      assert -x == k * -(x / k) + 0;
      QuotientIsUnique(-x, k, -(x / k), 0);
    } else {
      assert -x == k * (-(x / k) - 1) + (k - x % k);
      QuotientIsUnique(-x, k, -(x / k) - 1, k - x % k);
    }
  }

  // ---- weekdays ---------------------------------------------------------------------------

  /** ntpcal_weekday_gt: the first such weekday after a day. */
  function WeekdayGt(rdn: i32, dow: i32): (r: i32)
    requires InInt32(rdn + 1) && InInt32(Extension(rdn + 1, dow, 7))
    ensures rdn < r <= rdn + 7 && (r - dow) % 7 == 0
  {
    PeriodicExtend(rdn + 1, dow, 7)
  }

  /** ntpcal_weekday_ge: the first such weekday on or after a day. */
  function WeekdayGe(rdn: i32, dow: i32): (r: i32)
    requires InInt32(Extension(rdn, dow, 7))
    ensures rdn <= r < rdn + 7 && (r - dow) % 7 == 0
  {
    PeriodicExtend(rdn, dow, 7)
  }

  /** ntpcal_weekday_close: the such weekday closest to a day. */
  function WeekdayClose(rdn: i32, dow: i32): (r: i32)
    requires InInt32(rdn - 3) && InInt32(Extension(rdn - 3, dow, 7))
    ensures rdn - 3 <= r <= rdn + 3 && (r - dow) % 7 == 0
  {
    PeriodicExtend(rdn - 3, dow, 7)
  }

  /** ntpcal_weekday_le: the last such weekday on or before a day. */
  function WeekdayLe(rdn: i32, dow: i32): (r: i32)
    requires InInt32(Extension(rdn, dow, -7))
    ensures rdn - 7 < r <= rdn && (r - dow) % 7 == 0
  {
    PeriodicExtend(rdn, dow, -7)
  }

  /** ntpcal_weekday_lt: the last such weekday before a day. */
  function WeekdayLt(rdn: i32, dow: i32): (r: i32)
    requires InInt32(rdn - 1) && InInt32(Extension(rdn - 1, dow, -7))
    ensures rdn - 7 <= r < rdn && (r - dow) % 7 == 0
  {
    PeriodicExtend(rdn - 1, dow, -7)
  }

  // ---- 32-bit time stamps -----------------------------------------------------------------

  /** x agrees with value modulo 2^32 and lies less than half an era from the pivot. */
  predicate IsUnfolding(x: int, pivot: int, value: int) {
    pivot - 0x8000_0000 <= x < pivot + 0x8000_0000 && Wrap32(x) == Wrap32(value)
  }

  function Unfold(pivot: int, value: int): int {
    pivot - 0x8000_0000 + Wrap32(value - (pivot - 0x8000_0000))
  }

  lemma UnfoldIsUnique(x: int, pivot: int, value: int)
    ensures IsUnfolding(x, pivot, value) <==> x == Unfold(pivot, value)
  {
    var base := pivot - 0x8000_0000;
    if x == Unfold(pivot, value) {
      WrapSum(base, value - base);
      WrapSum(base, Wrap32(value - base));
    }
    if IsUnfolding(x, pivot, value) {
      WrapDifference(x, base);
      WrapDifference(value, base);
    }
  }

  /** ntpcal_ntp_to_time with 64-bit integers: an NTP second expanded around a UN*X pivot. */
  function NtpToTime(ntp: u32, pivot: i64): (res: VInt64)
    ensures Unsigned(res) == Wrap64(Unfold(pivot, ntp - JAN_1970))
  {
    hide Wrap64, Unfold, Wrap32, Unsigned, Quad;
    PivotQuad(pivot);
    var base := Quad(Unsigned(Quad(pivot)) - 0x8000_0000);
    var diff := Wrap32(Wrap32(ntp - JAN_1970) - base.lo);
    UnfoldedQuad(base, pivot, ntp - JAN_1970);
    Quad(Unsigned(base) + diff)
  }

  lemma UnfoldedQuad(base: VInt64, pivot: int, value: int)
    requires Unsigned(base) == Wrap64(pivot - 0x8000_0000)
    ensures Wrap64(Unsigned(base) + Wrap32(Wrap32(value) - base.lo)) == Wrap64(Unfold(pivot, value))
  {
    hide Wrap64, Wrap32, Unsigned;
    var b := pivot - 0x8000_0000;
    LowWord(base);
    WrapOfWrap64(b);
    WrapDifference(value, b);
    assert Wrap32(Wrap32(value) - base.lo) == Wrap32(value - b);
    Wrap64Inner(b, Wrap32(value - b));
  }

  lemma Wrap64Inner(x: int, y: int)
    ensures Wrap64(Wrap64(x) + y) == Wrap64(x + y)
  {
    ShiftedQuotient(Wrap64(x) + y, TWO_TO_64, x / TWO_TO_64);
  }

  /** ntpcal_ntp_to_ntp with 64-bit integers: the same in the NTP scale. */
  function NtpToNtp(ntp: u32, pivot: i64): (res: VInt64)
    ensures Unsigned(res) == Wrap64(Unfold(pivot + JAN_1970, ntp))
  {
    hide Wrap64, Unfold, Wrap32, Unsigned, Quad;
    PivotQuad(pivot);
    var base := Quad(Unsigned(Quad(Unsigned(Quad(pivot)) - 0x8000_0000)) + JAN_1970);
    var diff := Wrap32(ntp - base.lo);
    SmallWrap(ntp);
    UnfoldedQuad(base, pivot + JAN_1970, ntp);
    Quad(Unsigned(base) + diff)
  }

  lemma PivotQuad(pivot: int)
    ensures Wrap64(Wrap64(pivot) - 0x8000_0000) == Wrap64(pivot - 0x8000_0000)
    ensures Wrap64(Wrap64(pivot - 0x8000_0000) + JAN_1970) == Wrap64(pivot + JAN_1970 - 0x8000_0000)
  {
    ShiftedQuotient(Wrap64(pivot) - 0x8000_0000, TWO_TO_64, pivot / TWO_TO_64);
    Wrap64Sum(pivot - 0x8000_0000, JAN_1970);
  }

  /** Away from the ends of the 64-bit range both are the unique unfoldings of the NTP second, and
      they differ by the distance of the epochs. */
  lemma StampsAreUnfolded(ntp: u32, pivot: i64)
    requires InInt64(pivot - 0x8000_0000) && InInt64(pivot + JAN_1970 + 0x8000_0000)
    ensures IsUnfolding(Signed(NtpToTime(ntp, pivot)), pivot, ntp - JAN_1970)
    ensures IsUnfolding(Signed(NtpToNtp(ntp, pivot)), pivot + JAN_1970, ntp)
    ensures Signed(NtpToNtp(ntp, pivot)) - Signed(NtpToTime(ntp, pivot)) == JAN_1970
  {
    hide NtpToTime, NtpToNtp;
    var t, n := Unfold(pivot, ntp - JAN_1970), Unfold(pivot + JAN_1970, ntp);
    UnfoldIsUnique(t, pivot, ntp - JAN_1970);
    UnfoldIsUnique(n, pivot + JAN_1970, ntp);
    QuadsAreValues(NtpToTime(ntp, pivot), Quad(t));
    QuadsAreValues(NtpToNtp(ntp, pivot), Quad(n));
  }

  /** A time_t of the given width; negating the least one overflows. */
  predicate IsTime(time: i64, width: Width) {
    if width == 32 then -0x8000_0000 < time < 0x8000_0000 else -0x8000_0000_0000_0000 < time
  }

  /** time_to_vint64 for either width of time_t, without 64-bit scalars. */
  method TimeToVInt64(time: i64, width: Width) returns (res: VInt64)
    requires IsTime(time, width)
    ensures res == Quad(time)
  {
    hide Wrap64, Quad;
    var tt: i64 := if time < 0 then -(time as int) else time;
    var lo := Wrap32(tt);
    var hi := if width == 32 then 0 else Wrap32(tt / TWO_TO_32);
    WordsOf(tt);
    if time < 0 {
      hi, lo := MNeg(hi, lo);
    }
    res := VInt64(hi, lo);
    QuadsAreValues(res, Quad(time));
  }

  lemma WordsOf(tt: i64)
    requires 0 <= tt
    ensures Value(Wrap32(tt / TWO_TO_32), Wrap32(tt)) == tt == Wrap64(tt)
  {}

  /** ntpcal_ntp_to_time in two words. */
  method NtpToTimeWords(ntp: u32, pivot: i64, width: Width) returns (res: VInt64)
    requires IsTime(pivot, width)
    ensures res == NtpToTime(ntp, pivot)
  {
    hide Wrap64, Value, Wrap32;
    res := TimeToVInt64(pivot, width);
    var hi, lo := MSub(res.hi, res.lo, 0, 0x8000_0000);
    SmallValue(0x8000_0000);
    QuadsAreValues(VInt64(hi, lo), Quad(Unsigned(Quad(pivot)) - 0x8000_0000));
    var n := Wrap32(ntp - JAN_1970);
    n := Wrap32((n as int) - lo);
    ghost var base := VInt64(hi, lo);
    hi, lo := MAdd(hi, lo, 0, n);
    SmallValue(n);
    res := VInt64(hi, lo);
    QuadsAreValues(res, NtpToTime(ntp, pivot));
  }

  lemma SmallValue(n: u32)
    ensures Value(0, n) == n
  {}

  /** ntpcal_ntp_to_ntp in two words. */
  method NtpToNtpWords(ntp: u32, pivot: i64, width: Width) returns (res: VInt64)
    requires IsTime(pivot, width)
    ensures res == NtpToNtp(ntp, pivot)
  {
    hide Wrap64, Value, Wrap32;
    res := TimeToVInt64(pivot, width);
    var hi, lo := MSub(res.hi, res.lo, 0, 0x8000_0000);
    SmallValue(0x8000_0000);
    QuadsAreValues(VInt64(hi, lo), Quad(Unsigned(Quad(pivot)) - 0x8000_0000));
    ghost var half := VInt64(hi, lo);
    hi, lo := MAdd(hi, lo, 0, JAN_1970);
    SmallValue(JAN_1970);
    QuadsAreValues(VInt64(hi, lo), Quad(Unsigned(half) + JAN_1970));
    var n := Wrap32((ntp as int) - lo);
    hi, lo := MAdd(hi, lo, 0, n);
    SmallValue(n);
    res := VInt64(hi, lo);
    QuadsAreValues(res, NtpToNtp(ntp, pivot));
  }
}
