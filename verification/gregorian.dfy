/** The proleptic Gregorian calendar by its plain definition, with floor division throughout.
    Years, months and days are elapsed units: 1 January of the year 1 is (0, 0, 0). */
module Gregorian {

  import opened Division

  /** is_leapyear, for a current (not elapsed) year. */
  predicate IsLeap(year: int) { year % 4 == 0 && (year % 100 != 0 || year % 400 == 0) }

  function LeapDay(year: int): int { if IsLeap(year) then 1 else 0 }

  function LeapsIn(years: int): int { years / 4 - years / 100 + years / 400 }

  function DaysIn(years: int): int { 365 * years + LeapsIn(years) }

  /** Days elapsed before a month of a year, adding up the month lengths. */
  function MonthStart(leap: bool, month: nat): nat
    requires month <= 12
  {
    if month == 0 then 0 else MonthStart(leap, month - 1) + MonthLength(leap, month - 1)
  }

  function MonthLength(leap: bool, month: nat): nat
    requires month < 12
  {
    if month == 1 then (if leap then 29 else 28)
    else if month == 3 || month == 5 || month == 8 || month == 10 then 30
    else 31
  }

  /** The day number of an elapsed date whose month may be any integer. */
  function EraDays(years: int, months: int, days: int): int {
    var y := years + months / 12;
    DaysIn(y) + MonthStart(IsLeap(y + 1), months % 12) + days
  }

  lemma EraDaysParts(years: int, months: int, days: int)
    ensures EraDays(years, months, days) == EraDays(years, months, 0) + days
    ensures EraDays(years, 0, 0) == DaysIn(years)
    ensures 0 <= months < 12 ==>
      EraDays(years, months, 0) == DaysIn(years) + MonthStart(IsLeap(years + 1), months)
  {}

  /** DaysIn counts 365 days a year and one more for each leap year: together with
      DaysIn(0) == 0 this determines it on all integers. */
  lemma DaysInStep(years: int)
    ensures DaysIn(years + 1) - DaysIn(years) == 365 + LeapDay(years + 1)
  {
    LeapsInStep(years);
  }

  lemma LeapsInStep(years: int)
    ensures LeapsIn(years + 1) == LeapsIn(years) + LeapDay(years + 1)
  {
    NextQuotient(years, 4);
    NextQuotient(years, 100);
    NextQuotient(years, 400);
    FourHundredsAreHundreds(years + 1);
  }

  lemma FourHundredsAreHundreds(year: int)
    ensures year % 100 == 0 ==> year % 4 == 0
    ensures year % 400 == 0 ==> year % 100 == 0
  {}

  lemma DaysInMonotone(a: int, b: int)
    requires a <= b
    ensures DaysIn(b) - DaysIn(a) >= 365 * (b - a)
  {
    LeapsInMonotone(a, b);
  }

  lemma LeapsInMonotone(a: int, b: int)
    requires a <= b
    ensures LeapsIn(a) <= LeapsIn(b)
  {
    var p, q := a / 4, b / 4;
    assert p - p / 25 <= q - q / 25;
    assert a / 100 == p / 25 && b / 100 == q / 25;
    assert a / 400 <= b / 400;
  }

  /** Every day number lies in at most one year. */
  lemma YearOfDayIsUnique(day: int, y: int, z: int)
    requires DaysIn(y) <= day < DaysIn(y + 1)
    requires DaysIn(z) <= day < DaysIn(z + 1)
    ensures y == z
  {
    if y < z {
      DaysInMonotone(y + 1, z);
    } else if z < y {
      DaysInMonotone(z + 1, y);
    }
  }

  lemma MonthStartStep(leap: bool, m: nat)
    requires m < 12
    ensures MonthStart(leap, m + 1) == MonthStart(leap, m) + MonthLength(leap, m)
    ensures 28 <= MonthLength(leap, m) <= 31
  {}

  lemma MonthStarts(leap: bool)
    ensures MonthStart(leap, 12) == if leap then 366 else 365
    ensures forall m | 0 <= m < 12 :: MonthStart(leap, m) < MonthStart(leap, m + 1)
  {
    MonthTable(leap);
  }

  /** Every day of a year lies in at most one month. */
  lemma MonthOfDayIsUnique(leap: bool, day: int, m: nat, n: nat)
    requires m < 12 && MonthStart(leap, m) <= day < MonthStart(leap, m + 1)
    requires n < 12 && MonthStart(leap, n) <= day < MonthStart(leap, n + 1)
    ensures m == n
  {
    if m < n { MonthStartMonotone(leap, m + 1, n); }
    if n < m { MonthStartMonotone(leap, n + 1, m); }
  }

  lemma {:induction false} MonthStartMonotone(leap: bool, m: nat, n: nat)
    requires m <= n <= 12
    ensures MonthStart(leap, m) <= MonthStart(leap, n)
    decreases n
  {
    if m < n { MonthStartMonotone(leap, m, n - 1); }
  }

  lemma MonthTable(leap: bool)
    ensures MonthStart(leap, 1) == 31
    ensures MonthStart(leap, 2) == if leap then 60 else 59
    ensures forall m | 2 <= m <= 12 ::
      MonthStart(leap, m) == [0, 31, 59, 90, 120, 151, 181, 212, 243, 273, 304, 334, 365][m] + if leap then 1 else 0
  {
    assert MonthStart(leap, 1) == 31;
    assert MonthStart(leap, 2) == 59 + if leap then 1 else 0;
    assert MonthStart(leap, 3) == 90 + if leap then 1 else 0;
    assert MonthStart(leap, 4) == 120 + if leap then 1 else 0;
    assert MonthStart(leap, 5) == 151 + if leap then 1 else 0;
    assert MonthStart(leap, 6) == 181 + if leap then 1 else 0;
    assert MonthStart(leap, 7) == 212 + if leap then 1 else 0;
    assert MonthStart(leap, 8) == 243 + if leap then 1 else 0;
    assert MonthStart(leap, 9) == 273 + if leap then 1 else 0;
    assert MonthStart(leap, 10) == 304 + if leap then 1 else 0;
    assert MonthStart(leap, 11) == 334 + if leap then 1 else 0;
    assert MonthStart(leap, 12) == 365 + if leap then 1 else 0;
  }
}
