# Verified models of the NTP reference library and the program wrapper

The repository carries the NTP reference library and a wrapper that runs BSD programs inside RTEMS.
This project models their arithmetic, data structures and bookkeeping in Dafny and proves what they
are for.

- **Words.** `division`, `bit_words`, `machine_words`, `options`: floor division, bitwise operations of
  unsigned words bit by bit, fixed widths and two's complement. Where the source is written for two
  widths of a type, the width is a parameter.
- **Calendar.** `gregorian`, `ntp_calendar`, `time_scale`, `unfolding`,
  `iso_calendar`, `gregorian_dates`, `iso_dates`, `basedate`. `Gregorian` and `IsoCalendar.WeeksIn`
  are the plain definitions with floor division. The functions beside them follow the code word by
  word in 32-bit unsigned arithmetic, and their contracts say that they compute the plain
  definition. Where the code has a second path for targets without 64-bit integers, a method follows
  that path and is proved equal to the first. The structures filled through pointers are classes.
- **Fixed point and text.** `fixed_point`, `decimal_text`, `dolfptoa`, `atolfp`, `mstolfp`,
  `text_round_trip`, `decimal_grammar`. The format is the one of section 6 of RFC 5905. `FixedText` is the canonical
  text of a decimal number and `Parse` the value of a text; printer and parser are loops over
  buffers, proved against them, and the round trips are lemmas about the two. `DecimalGrammar` says
  what texts `Parse` accepts and what they mean without any scanning.
- **Time intervals.** `time_intervals` covers struct timespec and struct timeval with the unit as a
  parameter; the parameter `divide` selects the variant with a division before the loops.
- **Key store.** `key_map` is a finite map with a one-entry cache. `key_lists`, `key_table`,
  `key_hash` and `key_store` are the heap objects: hash chains, circular key list, free list,
  counters. `KeyStore.Valid` says that the buckets partition the keys in use, each in the bucket of
  its id, that the table has 2^h of them with 4 <= h <= 15, that no id occurs twice, that the lists
  are disjoint and that the counters are their lengths. Every method keeps it and acts on `State()`, the map and the cache, as the function of
  `KeyMap` it names; the laws of that module say what these functions mean for presence, trust, end
  and secret of keys.
- **Program ledger.** `program_ledger` records what a program run acquires and releases as a trace
  of events. What the operating system answers to a call is a field of the call; `RunEvents` says
  from the calls alone what it hands out and gets back, and the ledger is proved to record that.

Integers of the source have their width as a subset type; wrap-around and truncation are written
out. Where the source would overflow a signed integer, the range stands in `requires`.

Where code and comments disagree, the code is followed:

- `cmp_tspec` and `cmp_tval` return 1 when the first time is the later one; the comment above them
  has it the other way round.
- `DAY_GPS_STARTS` is said to be the day number of 6 January 1980 and is the one of the day before.
  `TruncationFindsTheWeek` shows that the GPS base week is right all the same.
- `auth_delkeys` clears a trusted key without flushing the cache. `DeleteCoherence` says exactly when
  cache and key then differ, `DeleteAnswers` exactly when an answer does, and
  `DeleteLeavesStaleCache` gives a run with a wrong answer of `authistrustedip`.
- `rtems_bsd_program_alloc` takes a block off the ledger before it is reallocated, and does not mind
  when it was not there. `StepBalances` says that a failed reallocation of a recorded block and a
  reallocation of an unrecorded one are the only calls that unbalance the ledger, and
  `EverythingIsReleasedOnce` what that means for whole runs.

## Model

| member | source | states |
|---|---|---|
| `MachineWords.OnesComplementFloorDivision` | `bsd/freebsd/contrib/ntp/libntp/ntp_calendar.c:789-799` | Complement, unsigned division and complement again is floor division of the signed value, for dividends up to 33 bits: the step under every signed division of the calendar. |
| `MachineWords.Int32ToTwosComplement` | `bsd/freebsd/contrib/ntp/libntp/ntp_calendar.c:155-182` | The form for targets of unknown representation yields the residue modulo 2^32. |
| `MachineWords.TwosComplementToInt32` | `bsd/freebsd/contrib/ntp/libntp/ntp_calendar.c:187-215` | The way back: the unique 32-bit signed integer with that residue. |
| `MachineWords.XorMask` | `bsd/freebsd/contrib/ntp/libntp/ntp_calendar.c:789-797` | Exclusive or with a sign mask, bit by bit, is complement for the mask of ones and nothing for the mask of zeros. |
| `NtpCalendar.SaturateClamps` | `bsd/freebsd/contrib/ntp/libntp/ntp_calendar.c:223-234` | Saturation in words is clamping to [-2^30, 2^30-1] of the signed value, keeps the sign, and raises EDOM exactly when the value was changed. |
| `Gregorian.DaysInStep` | `bsd/freebsd/contrib/ntp/include/ntp_calendar.h:463-470` | The plain day count grows by 365, plus one exactly for a leap year: the independent definition the fast forms are held against. |
| `NtpCalendar.LeapyearsInYears` | `bsd/freebsd/contrib/ntp/libntp/ntp_calendar.c:1161-1190` | For every 32-bit year count, negative included, the in-out-in division chain equals y/4 - y/100 + y/400 in floor division. |
| `NtpCalendar.DaysInYears` | `bsd/freebsd/contrib/ntp/libntp/ntp_calendar.c:1196-1202` | Equals the plain day count wherever it does not overflow. |
| `NtpCalendar.SplitEradays` | `bsd/freebsd/contrib/ntp/libntp/ntp_calendar.c:814-860` | For every 32-bit day count: the clamped count is days_in_years(y) + d with d inside year y+1, the flag is that of a Gregorian leap year, and EDOM is raised exactly on clamping. |
| `Gregorian.YearOfDayIsUnique` | `bsd/freebsd/contrib/ntp/libntp/ntp_calendar.c:814-860` | At most one year contains a day, so the contract of SplitEradays determines its result. |
| `NtpCalendar.TablesAccumulateLengths` | `bsd/freebsd/contrib/ntp/libntp/ntp_calendar.c:403-414` | Both month tables are the accumulated month lengths, the shifted one starting in March. |
| `NtpCalendar.SplitYeardays` | `bsd/freebsd/contrib/ntp/libntp/ntp_calendar.c:872-893` | Inside the year: the month and day whose accumulated lengths give the day back; outside: {-1, -1}. The guess by 32 is never off by more than one. |
| `NtpCalendar.DaysInMonths` | `bsd/freebsd/contrib/ntp/libntp/ntp_calendar.c:1220-1248` | For every month count that can be shifted, on or off the scale, year excess and table entry are those of floor division by twelve of the shifted month. |
| `NtpCalendar.ShiftedMonthIsPlaced` | `bsd/freebsd/contrib/ntp/libntp/ntp_calendar.c:1220-1248` | The shifted month leads to the same day as the leap-table definition, for every integer year and month. |
| `NtpCalendar.EdateToEradays` | `bsd/freebsd/contrib/ntp/libntp/ntp_calendar.c:1258-1276` | The elapsed days of (years, months, days) by the plain definition, for any month count, where nothing overflows. |
| `NtpCalendar.EdateToYeardays` | `bsd/freebsd/contrib/ntp/libntp/ntp_calendar.c:1287-1307` | The distance of the date from the start of its nominal year, for any month and day count; on the table path for every year but the last, on the shifted path where its sums fit. |
| `NtpCalendar.AlgorithmsAgree` | `bsd/freebsd/contrib/ntp/libntp/ntp_calendar.c:1258-1307` | edate_to_yeardays(y,m,d) == edate_to_eradays(y,m,d) - days_in_years(y) for every month count. |
| `NtpCalendar.MonthsCarry` | `bsd/freebsd/contrib/ntp/libntp/ntp_calendar.c:1258-1276` | edate_to_eradays(y,m,d) == edate_to_eradays(y + floor(m/12), m mod 12, d). |
| `FixedPoint.MNeg` | `bsd/freebsd/contrib/ntp/include/ntp_fp.h:123-127` | Two-word negation is negation modulo 2^64. |
| `FixedPoint.MAdd` | `bsd/freebsd/contrib/ntp/include/ntp_fp.h:135-140` | Two-word addition with a carry read off the wrap-around is addition modulo 2^64. |
| `FixedPoint.MAdd3` | `bsd/freebsd/contrib/ntp/include/ntp_fp.h:142-154` | Three-word addition is addition modulo 2^96; both carries are caught. |
| `FixedPoint.MSub` | `bsd/freebsd/contrib/ntp/include/ntp_fp.h:156-161` | Two-word subtraction is subtraction modulo 2^64. |
| `FixedPoint.MLShift` | `bsd/freebsd/contrib/ntp/include/ntp_fp.h:175-179` | The shift doubles modulo 2^64. |
| `FixedPoint.ComparisonsAreSigned` | `bsd/freebsd/contrib/ntp/include/ntp_fp.h:203-223` | M_ISGT and M_ISGEQ compare the signed 64-bit values. |
| `TimeScale.Daysplit` | `bsd/freebsd/contrib/ntp/libntp/ntp_calendar.c:689-719` | The 64-bit path is floor division by 86400 of the signed value, the quotient kept modulo 2^32, for every input. |
| `TimeScale.DaysplitWords` | `bsd/freebsd/contrib/ntp/libntp/ntp_calendar.c:711-765` | The long division by 675 for targets without 64-bit integers gives the result of the 64-bit path for every input. |
| `TimeScale.LongDivision` | `bsd/freebsd/contrib/ntp/libntp/ntp_calendar.c:720-760` | The three partial divisions yield the low 32 bits of the full quotient by 675 * 128. |
| `TimeScale.Dayjoin` | `bsd/freebsd/contrib/ntp/libntp/ntp_calendar.c:1098-1110` | The 64-bit path denotes days * 86400 + secs. |
| `TimeScale.DayjoinWords` | `bsd/freebsd/contrib/ntp/libntp/ntp_calendar.c:1112-1154` | The two-word path (multiplication by 675 in 16-bit parts and a shift) gives the same quad. |
| `TimeScale.SplitOfJoin` | `bsd/freebsd/contrib/ntp/libntp/ntp_calendar.c:689-765` | ntpcal_daysplit undoes ntpcal_dayjoin for every day and 0 <= secs < 86400. |
| `TimeScale.JoinOfSplit` | `bsd/freebsd/contrib/ntp/libntp/ntp_calendar.c:1098-1154` | ntpcal_dayjoin undoes ntpcal_daysplit if and only if the day number fits 32 bits. |
| `TimeScale.EpochsOfScales` | `bsd/freebsd/contrib/ntp/include/ntp_calendar.h:418-439` | The UN*X epoch is 1 January 1970 and the NTP epoch 1 January 1900 of the plain calendar, and JAN_1970 their distance in seconds. |
| `Unfolding.PeriodicExtend` | `bsd/freebsd/contrib/ntp/libntp/ntp_calendar.c:502-545` | Returns a value congruent to value in [pivot, pivot+cycle), mirrored for negative cycles, and the pivot for cycle 0, wherever that value fits 32 bits. |
| `Unfolding.ExtensionIsUnique` | `bsd/freebsd/contrib/ntp/libntp/ntp_calendar.c:502-545` | Exactly one value has that property. |
| `Unfolding.WeekdayGt` | `bsd/freebsd/contrib/ntp/libntp/ntp_calendar.c:1543-1550` | The first given weekday after the day. |
| `Unfolding.WeekdayGe` | `bsd/freebsd/contrib/ntp/libntp/ntp_calendar.c:1552-1559` | The first given weekday on or after the day. |
| `Unfolding.WeekdayClose` | `bsd/freebsd/contrib/ntp/libntp/ntp_calendar.c:1561-1568` | The given weekday within three days of the day. |
| `Unfolding.WeekdayLe` | `bsd/freebsd/contrib/ntp/libntp/ntp_calendar.c:1570-1577` | The last given weekday on or before the day. |
| `Unfolding.WeekdayLt` | `bsd/freebsd/contrib/ntp/libntp/ntp_calendar.c:1579-1586` | The last given weekday before the day. |
| `Unfolding.TimeToVInt64` | `bsd/freebsd/contrib/ntp/libntp/ntp_calendar.c:241-284` | The branches for a time_t of 32 bits and for a wide one without 64-bit scalars yield the two's complement quad. |
| `Unfolding.NtpToTime` | `bsd/freebsd/contrib/ntp/libntp/ntp_calendar.c:587-603` | The 64-bit path computes, modulo 2^64, the unfolding of the NTP second around the pivot. |
| `Unfolding.NtpToTimeWords` | `bsd/freebsd/contrib/ntp/libntp/ntp_calendar.c:605-621` | The two-word path gives the same quad, for either width of time_t. |
| `Unfolding.NtpToNtp` | `bsd/freebsd/contrib/ntp/libntp/ntp_calendar.c:636-652` | The same in the NTP scale, 64-bit path. |
| `Unfolding.NtpToNtpWords` | `bsd/freebsd/contrib/ntp/libntp/ntp_calendar.c:654-670` | The two-word path gives the same quad, for either width of time_t. |
| `Unfolding.UnfoldIsUnique` | `bsd/freebsd/contrib/ntp/libntp/ntp_calendar.c:574-585` | One value alone is congruent to the stamp modulo 2^32 and within [-2^31, 2^31) of the pivot. |
| `Unfolding.StampsAreUnfolded` | `bsd/freebsd/contrib/ntp/libntp/ntp_calendar.c:587-670` | Both conversions return that value, and they differ by JAN_1970, for pivots away from the ends of the 64-bit range. |
| `IsoCalendar.FirstThursdayRule` | `bsd/freebsd/contrib/ntp/libntp/ntp_calendar.c:1593-1608` | The plain week count is the only one that satisfies the rule of section 2.2.10 of ISO 8601:2004: week 1 of the year is the week with the first Thursday. |
| `IsoCalendar.WeeksInYears` | `bsd/freebsd/contrib/ntp/libntp/ntp_calendar.c:1641-1681` | The interpolation (y*53431 + b)/1024 with four magic offsets picks that week for every 32-bit year whose week count fits, negative included. |
| `IsoCalendar.Interpolation` | `bsd/freebsd/contrib/ntp/libntp/ntp_calendar.c:1641-1681` | The interpolation is exact on all hundred years of the four kinds of century. |
| `IsoCalendar.ClosestMonday` | `bsd/freebsd/contrib/ntp/libntp/ntp_calendar.c:1641-1681` | 7*weeks_in_years(y) + 1 is the Monday closest to 1 January of year y+1, as ntpcal_weekday_close and ntpcal_days_in_years compute it. |
| `IsoCalendar.WeeksOfYear` | `bsd/freebsd/contrib/ntp/libntp/ntp_calendar.c:1593-1598` | Every ISO year has 52 or 53 weeks. |
| `IsoCalendar.SplitEraweeks` | `bsd/freebsd/contrib/ntp/libntp/ntp_calendar.c:1689-1734` | For every 32-bit week count: the clamped count is weeks_in_years(y) + r with r inside ISO year y+1, and EDOM is raised exactly on clamping. |
| `IsoCalendar.YearOfWeek` | `bsd/freebsd/contrib/ntp/libntp/ntp_calendar.c:1720-1733` | The inverse interpolation (w*157 + b)/8192 finds the right year and week in every century. |
| `IsoCalendar.InverseInterpolation` | `bsd/freebsd/contrib/ntp/libntp/ntp_calendar.c:1720-1733` | What is left over at the start of each year is less than one scaled week: the reason the inverse is exact. |
| `GregorianDates.Timesplit` | `bsd/freebsd/contrib/ntp/libntp/ntp_calendar.c:774-803` | Days, hours, minutes and seconds of any 32-bit second count, negative included, with the parts in range. |
| `GregorianDates.DateToRd` | `bsd/freebsd/contrib/ntp/libntp/ntp_calendar.c:1355-1363` | The day number by the plain definition; no field values overflow. |
| `GregorianDates.DateOfRdMeaning` | `bsd/freebsd/contrib/ntp/libntp/ntp_calendar.c:901-940` | The date found is consistent and denotes the day exactly when its year fits 16 bits; otherwise the answer is -1. |
| `GregorianDates.Calendar.RdToDate` | `bsd/freebsd/contrib/ntp/libntp/ntp_calendar.c:901-940` | Every field, the weekday byte with its unsigned wrap-around and the masked year included, and the result are those of the date function. |
| `GregorianDates.Calendar.DaysecToDate` | `bsd/freebsd/contrib/ntp/libntp/ntp_calendar.c:980-995` | Fills the time of day, returns the excess days and touches no other field. |
| `GregorianDates.Calendar.Ntp64ToDate` | `bsd/freebsd/contrib/ntp/libntp/ntp_calendar.c:1472-1484` | Fills all fields from a 64-bit NTP time, independently of what they held; on success with the consistent date that is so many seconds after 1 January 1900 by the plain calendar. |
| `GregorianDates.GregorianRoundTrip` | `bsd/freebsd/contrib/ntp/libntp/ntp_calendar.c:1472-1515` | For every 64-bit NTP time whose shifted day fits 32 bits: success is reported exactly when the year fits; the date is then consistent, so many seconds after 1 January 1900, and ntpcal_date_to_ntp64 gives the time back. |
| `GregorianDates.NtpScaleStartsIn1900` | `bsd/freebsd/contrib/ntp/libntp/ntp_calendar.c:1505-1515` | Whatever the fields hold, ntpcal_date_to_ntp64 counts the seconds from 1 January 1900 by the plain calendar. |
| `GregorianDates.TimeZero` | `bsd/freebsd/contrib/ntp/libntp/ntp_calendar.c:1472-1484` | Time 0 is Monday, 1 January 1900. |
| `GregorianDates.DateRoundTrip` | `bsd/freebsd/contrib/ntp/libntp/ntp_calendar.c:1472-1515` | Every valid date and time of the years 0 to 65535 is reproduced field by field, with day-of-year and weekday = rd mod 7 filled in. |
| `GregorianDates.Caltontp` | `bsd/freebsd/contrib/ntp/libntp/caltontp.c:38-69` | For every date the assertions accept, off the scale or not: the seconds from 1 January 1900 modulo 2^32, the day being named by day-of-year where that is given and by month and day otherwise. |
| `GregorianDates.CaltontpAgrees` | `bsd/freebsd/contrib/ntp/libntp/caltontp.c:38-69` | On every consistent date both routes agree modulo 2^32. |
| `IsoDates.IsoToNtp64` | `bsd/freebsd/contrib/ntp/libntp/ntp_calendar.c:1803-1817` | The time of the ISO date by the plain week definition; nothing overflows whatever the fields hold. |
| `IsoDates.IsoDate.Ntp64ToDate` | `bsd/freebsd/contrib/ntp/libntp/ntp_calendar.c:1741-1780` | Every field and the result are those of the ISO date function; on success the date is on the scale and so many seconds after 1 January 1900. |
| `IsoDates.IsoScaleStartsIn1900` | `bsd/freebsd/contrib/ntp/libntp/ntp_calendar.c:1803-1817` | Whatever the fields hold, isocal_date_to_ntp64 counts the seconds from 1 January 1900 by the plain definitions. |
| `IsoDates.IsoRoundTrip` | `bsd/freebsd/contrib/ntp/libntp/ntp_calendar.c:1741-1817` | For every such time: success exactly when the ISO year fits, and then the date is on the scale and isocal_date_to_ntp64 gives the time back. |
| `IsoDates.IsoDateRoundTrip` | `bsd/freebsd/contrib/ntp/libntp/ntp_calendar.c:1741-1817` | Every ISO date on the scale is reproduced field by field. |
| `IsoDates.WeekdaysAgree` | `bsd/freebsd/contrib/ntp/libntp/ntp_calendar.c:1741-1780` | The ISO weekday modulo 7 is the Gregorian weekday of the same instant, also where a year does not fit. |
| `Basedates.Basedate.SetDay` | `bsd/freebsd/contrib/ntp/libntp/ntp_calendar.c:1899-1931` | The base is never before the UN*X epoch, and the GPS base week is the first one that starts on or after it; the former base is returned. |
| `Basedates.TruncationFindsTheWeek` | `bsd/freebsd/contrib/ntp/libntp/ntp_calendar.c:1919-1925` | DAY_GPS_STARTS is one day short of the GPS epoch; the truncating division makes up for it on every base day. |
| `Basedates.GpsEpochIsASunday` | `bsd/freebsd/contrib/ntp/include/ntp_calendar.h:431-444` | 6 January 1980 is the Sunday with day number 722820, one more than DAY_GPS_STARTS. |
| `Basedates.Basedate.ExpandGpsWeek` | `bsd/freebsd/contrib/ntp/libntp/ntp_calendar.c:1958-1975` | The week congruent to the truncated number in the 1024 weeks from the base week. |
| `Basedates.ExpansionIsUnique` | `bsd/freebsd/contrib/ntp/libntp/ntp_calendar.c:1958-1975` | Exactly one week has that property. |
| `Basedates.Basedate.BaseEra` | `bsd/freebsd/contrib/ntp/libntp/ntp_calendar.c:1933-1950` | basedate_get_erabase is midnight of the base day and basedate_get_eracenter half an era later; unfolding around it yields the time of the NTP second in the 2^32 seconds from the base. |
| `Dolfptoa.DolfpToA` | `bsd/freebsd/contrib/ntp/libntp/dolfptoa.c:14-132` | For every 64-bit value, sign, digit count and millisecond flag, the text denotes exactly the value rounded half up at the effective number of decimals; no index leaves the 24-byte buffer. |
| `Dolfptoa.RoundedIsHalfUp` | `bsd/freebsd/contrib/ntp/libntp/dolfptoa.c:91-110` | Rounding is to the nearest multiple of 10^-d, the greater one for an exact half. |
| `Dolfptoa.DecimalsShown` | `bsd/freebsd/contrib/ntp/libntp/dolfptoa.c:55-67` | As many decimals as asked for, none for a negative count, no more than fourteen places hold, of which milliseconds take three. |
| `Dolfptoa.IntegerDigits` | `bsd/freebsd/contrib/ntp/libntp/dolfptoa.c:44-53` | Ten digits hold every 32-bit integer part. |
| `Dolfptoa.FractionDigits` | `bsd/freebsd/contrib/ntp/libntp/dolfptoa.c:72-89` | Shift and add generates digits so that digits and rest still denote the fraction exactly. |
| `Dolfptoa.TimesTen` | `bsd/freebsd/contrib/ntp/libntp/dolfptoa.c:81-87` | Three shifts and an addition over two words multiply by ten, losing nothing. |
| `Dolfptoa.RippleCarry` | `bsd/freebsd/contrib/ntp/libntp/dolfptoa.c:97-110` | The backward carry adds one to the number in the buffer and leaves digits only. |
| `Dolfptoa.BufferBound` | `bsd/freebsd/contrib/ntp/libntp/dolfptoa.c:39-43` | The carry never leaves the ten integer digits. |
| `Dolfptoa.Format` | `bsd/freebsd/contrib/ntp/libntp/dolfptoa.c:119-132` | Leading zeros go, the last one before the point stays, and the characters are those of the digits. |
| `Dolfptoa.MfpToA` | `bsd/freebsd/contrib/ntp/libntp/dolfptoa.c:141-156` | The text of sign and magnitude of the signed 64-bit value. |
| `Dolfptoa.MfpToMs` | `bsd/freebsd/contrib/ntp/libntp/dolfptoa.c:159-174` | The same in milliseconds. |
| `DecimalText.NumeralDenotes` | `bsd/freebsd/contrib/ntp/libntp/dolfptoa.c:119-132` | The canonical digits of n denote n: what a text stands for is defined independently of the printer. |
| `DecimalText.NumeralIsCanonical` | `bsd/freebsd/contrib/ntp/libntp/dolfptoa.c:119-122` | Numerals have no leading zeros, and zero is one digit. |
| `DecimalText.FixedTextIsInjective` | `bsd/freebsd/contrib/ntp/libntp/dolfptoa.c:14-132` | Sign and digits can be read off the text, so equal texts mean equal rounded values. |
| `Atolfp.AtoLfp` | `bsd/freebsd/contrib/ntp/libntp/atolfp.c:32-123` | For an unsigned long of 32 or 64 bits: accepts exactly the texts of the grammar [spaces][-][+][digits][.][digits][spaces...] and computes their value modulo 2^64, the fraction of the first nine decimals rounded to nearest. |
| `DecimalGrammar.ParseOfNumber` | `bsd/freebsd/contrib/ntp/libntp/atolfp.c:32-123` | Every text of spaces, minus, plus, digits, point, decimals and anything after a space is accepted with the value of its parts, nine decimals counting. |
| `DecimalGrammar.GrammarIsExact` | `bsd/freebsd/contrib/ntp/libntp/atolfp.c:57-94` | No other text is accepted. |
| `Atolfp.ParseMagnitude` | `bsd/freebsd/contrib/ntp/libntp/atolfp.c:68-116` | The same for the unsigned part, with the error exits at the same characters. |
| `Atolfp.DivideBits` | `bsd/freebsd/contrib/ntp/libntp/atolfp.c:96-116` | The bit-by-bit long division is the exactly rounded quotient, halves down. |
| `Atolfp.ExactFraction` | `bsd/freebsd/contrib/ntp/libntp/atolfp.c:102-113` | 32 quotient bits and a comparison of the remainder with half the divisor determine the rounded quotient. |
| `Mstolfp.MsToLfp` | `bsd/freebsd/contrib/ntp/libntp/mstolfp.c:14-100` | Accepts exactly the texts whose rewriting is accepted, and computes its value; no index leaves the buffer for any text whose rewriting fits its 100 bytes, however long the text. |
| `DecimalGrammar.SecondsOfNumber` | `bsd/freebsd/contrib/ntp/libntp/mstolfp.c:36-100` | Every such text with at most one sign is read in seconds as the text with its point three places to the left. |
| `DecimalGrammar.ThousandthIsExact` | `bsd/freebsd/contrib/ntp/libntp/mstolfp.c:55-88` | Moving the point loses nothing, whatever the digits: the new whole part times a thousand and the three digits behind make up the old whole part. |
| `DecimalGrammar.MillisecondsAreExact` | `bsd/freebsd/contrib/ntp/libntp/mstolfp.c:36-100` | No other text is accepted. |
| `Mstolfp.ShiftNumber` | `bsd/freebsd/contrib/ntp/libntp/mstolfp.c:44-99` | The buffer receives the number with its point moved three places, or the call fails for want of proper termination. |
| `TextRoundTrip.ParseOfFixedText` | `bsd/freebsd/contrib/ntp/libntp/atolfp.c:57-123` | Every canonical text with up to nine decimals is accepted, and its value is the rounded one. |
| `TextRoundTrip.PrintUndoesParse` | `bsd/freebsd/contrib/ntp/libntp/dolfptoa.c:72-110` | Rounding to 2^-32 and then to at most nine decimals returns the decimal number. |
| `TextRoundTrip.UnsignedRoundTrip` | `bsd/freebsd/contrib/ntp/libntp/dolfptoa.c:14-132` | dolfptoa prints back a canonical text with up to nine decimals that atolfp has parsed if and only if it is below 2^32. |
| `TextRoundTrip.SignedRoundTrip` | `bsd/freebsd/contrib/ntp/libntp/dolfptoa.c:141-156` | mfptoa prints it back if and only if the number fits 32 signed bits and is not minus zero. |
| `TextRoundTrip.PointMoves` | `bsd/freebsd/contrib/ntp/libntp/mstolfp.c:44-99` | Moving the point divides a canonical text by a thousand, and the result is canonical again. |
| `TextRoundTrip.MillisecondsRoundTrip` | `bsd/freebsd/contrib/ntp/libntp/mstolfp.c:14-100` | mfptoms undoes mstolfp on texts with up to six decimals, if and only if the number of seconds is representable. |
| `TextRoundTrip.UnsignedNearlyReturns` | `bsd/freebsd/contrib/ntp/libntp/atolfp.c:96-122` | Parsing what dolfptoa printed at nine decimals is within 2 units of the original, modulo 2^64. |
| `TextRoundTrip.SignedNearlyReturns` | `bsd/freebsd/contrib/ntp/libntp/atolfp.c:96-122` | The same for mfptoa. |
| `TimeIntervals.Normalize` | `bsd/freebsd/contrib/ntp/include/timespecops.h:79-120` | Terminates for every fraction and returns a normal time of the same instant, with and without the division step. |
| `TimeIntervals.NormalFormIsUnique` | `bsd/freebsd/contrib/ntp/include/timespecops.h:53-57` | No two normal times denote the same instant. |
| `TimeIntervals.Add` | `bsd/freebsd/contrib/ntp/include/timespecops.h:123-137` | The normal time of the sum of the instants, where the sums of seconds and of fractions fit their types. |
| `TimeIntervals.Subtract` | `bsd/freebsd/contrib/ntp/include/timespecops.h:154-168` | The normal time of the difference. |
| `TimeIntervals.Negate` | `bsd/freebsd/contrib/ntp/include/timespecops.h:185-197` | The normal time of the negated instant. |
| `TimeIntervals.Absolute` | `bsd/freebsd/contrib/ntp/include/timespecops.h:199-217` | The normal time of the absolute instant, found without a second normalisation, unless the seconds of the normal form are the least there are. |
| `TimeIntervals.Compare` | `bsd/freebsd/contrib/ntp/include/timespecops.h:218-237` | On normal times the sign of the difference of the instants: 1 for a later first time. |
| `TimeIntervals.IntervalToFixed` | `bsd/freebsd/contrib/ntp/include/timespecops.h:296-309` | Seconds modulo 2^32 and fraction of the normal form, the fraction to the nearest 2^-32, halves up. |
| `TimeIntervals.FractionToFixed` | `bsd/freebsd/contrib/ntp/include/timespecops.h:64-67` | The nearest multiple of 2^-32, halves up, for nanoseconds and microseconds. |
| `TimeIntervals.FixedToFraction` | `bsd/freebsd/contrib/ntp/include/timespecops.h:61-63` | The nearest unit, halves up; a whole second where it is nearest. |
| `TimeIntervals.FixedToInterval` | `bsd/freebsd/contrib/ntp/include/timespecops.h:326-349` | The time is the nearest one to the signed fixed-point value, halves away from zero, if and only if that is not the least value of all; only a negative result is normalised. |
| `TimeIntervals.ConversionIsNearest` | `bsd/freebsd/contrib/ntp/include/timevalops.h:378-401` | The same of the function of values behind it, for nanoseconds and microseconds. |
| `TimeIntervals.FractionRoundTrip` | `bsd/freebsd/contrib/ntp/include/timespecops.h:61-67` | The two rounding conversions of fractions are inverse, also on the complemented fraction, for nanoseconds and microseconds. |
| `TimeIntervals.IntervalRoundTrip` | `bsd/freebsd/contrib/ntp/include/timespecops.h:296-349` | Converting a normal time with 32-bit seconds to l_fp and back returns it, if and only if it is not exactly -2^31 seconds; for timeval alike. |
| `TimeIntervals.ConversionIsNormal` | `bsd/freebsd/contrib/ntp/include/timevalops.h:378-401` | The converted time is normal if and only if the value is negative or its fraction does not round up to a whole second. |
| `KeyHash.AuthLog2` | `bsd/freebsd/contrib/ntp/libntp/authkeys.c:388-415` | For a size_t of 32 or 64 bits the shift-and-mask loop computes floor(log2 x), and 0 for 0. |
| `BitWords.AndHighOnes` | `bsd/freebsd/contrib/ntp/libntp/authkeys.c:407-413` | Masking with ones above k zeros drops the remainder by 2^k, so the test of the loop tells whether the leading one is above: for every word width and k. |
| `BitWords.AndLowOnes` | `bsd/freebsd/contrib/ntp/libntp/ntp_calendar.c:1973-1974` | Masking with k ones takes the remainder by 2^k, for every word and k. |
| `KeyTables.Bucket` | `bsd/freebsd/contrib/ntp/libntp/authkeys.c:71-71` | The masked key id is its remainder by the table size, for every size of 4 to 15 bits. |
| `KeyHash.HashBits` | `bsd/freebsd/contrib/ntp/libntp/authkeys.c:453-456` | Between 4 and 15 bits; below the cap fewer than four keys per bucket, above the floor no bit more than needed. |
| `KeyAccess.Amatch` | `bsd/freebsd/contrib/ntp/libntp/authkeys.c:203-273` | Whole-byte comparison and masked last byte decide exactly whether the addresses are comparable and agree in the first mbits bits, or in all when there are fewer. |
| `KeyAccess.MatchLaws` | `bsd/freebsd/contrib/ntp/libntp/authkeys.c:203-254` | No address, unknown families, different families and different IPv6 scopes never match; within a family no bits match everything and all bits the address itself. |
| `KeyAccess.AdmitLaws` | `bsd/freebsd/contrib/ntp/libntp/authkeys.c:165-181` | A list admits what its first entry matches or the rest admits; only an empty one gives the default. |
| `KeyAccess.MaskedByte` | `bsd/freebsd/contrib/ntp/libntp/authkeys.c:256-270` | The mask of k leading ones compares exactly the k leading bits of two bytes. |
| `KeyAccess.KeyaccContains` | `bsd/freebsd/contrib/ntp/libntp/authkeys.c:165-181` | True if and only if some entry admits the address, or the list is empty and the default is true. |
| `KeyLists.LinkTailDlist` | `bsd/freebsd/contrib/ntp/include/ntp_lists.h:403-409` | A node not on the circular list becomes its last, in both directions. |
| `KeyLists.UnlinkDlist` | `bsd/freebsd/contrib/ntp/include/ntp_lists.h:411-417` | The list loses exactly that node, in both directions. |
| `KeyLists.UnlinkHashChain` | `bsd/freebsd/contrib/ntp/include/ntp_lists.h:182-210` | The chain loses exactly the node looked for; a chain without it stays as it is. |
| `KeyTables.PartitionInsert` | `bsd/freebsd/contrib/ntp/libntp/authkeys.c:479-511` | A key put into the bucket of its id keeps the buckets a partition of the keys in use. |
| `KeyTables.PartitionRemove` | `bsd/freebsd/contrib/ntp/libntp/authkeys.c:517-544` | So does taking a key out of its bucket and off the list. |
| `KeyTables.AnchorRemove` | `bsd/freebsd/contrib/ntp/libntp/authkeys.c:517-544` | Unlinking in one chain leaves every other chain anchored. |
| `KeyTables.IndexSize` | `bsd/freebsd/contrib/ntp/libntp/authkeys.c:509-510` | The index has as many keys as there are nodes in use. |
| `KeyStores.KeyStore.CountsKeys` | `bsd/freebsd/contrib/ntp/libntp/authkeys.c:509-510` | authnumkeys is the number of keys of the map. |
| `KeyStores.KeyStore.constructor` | `bsd/freebsd/contrib/ntp/libntp/authkeys.c:279-297` | The new store is well formed and empty. |
| `KeyStores.KeyStore.FindKey` | `bsd/freebsd/contrib/ntp/libntp/authkeys.c:550-561` | Finds the node with the id exactly when the map has the key; it is the node the index names, with the key's fields. |
| `KeyStores.KeyStore.MoreMem` | `bsd/freebsd/contrib/ntp/libntp/authkeys.c:333-366` | Adds new nodes to the free list and changes nothing else. |
| `KeyStores.KeyStore.AllocSymkey` | `bsd/freebsd/contrib/ntp/libntp/authkeys.c:479-511` | The map gains exactly that key, hash chains, key list, free list and both counters staying in step. |
| `KeyStores.KeyStore.FreeSymkey` | `bsd/freebsd/contrib/ntp/libntp/authkeys.c:517-544` | The map loses exactly that key, the cache is flushed if it held it, and the node heads the free list. |
| `KeyStores.KeyStore.AuthTrust` | `bsd/freebsd/contrib/ntp/libntp/authkeys.c:632-685` | Acts on map and cache as Trust, nodes and lists following. |
| `KeyMap.TrustLaws` | `bsd/freebsd/contrib/ntp/libntp/authkeys.c:632-685` | Without trust the key is gone and not trusted. With trust it is trusted and keeps secret, type and access list, or is created without them; ageing takes it exactly when the trust was above 1 and its seconds are over. No other key changes. |
| `KeyMap.SetKeyLaws` | `bsd/freebsd/contrib/ntp/libntp/authkeys.c:748-803` | The key has the new secret, type and access list, is trusted as before and ends when it did; a new one is not trusted and has no end. No other key changes. |
| `KeyMap.AgeLaws` | `bsd/freebsd/contrib/ntp/libntp/authkeys.c:857-867` | Keys only go, exactly those whose lifetime is over; ageing before does not matter. |
| `KeyMap.DeleteLaws` | `bsd/freebsd/contrib/ntp/libntp/authkeys.c:824-851` | Keys above 65535 stay; of the others the trusted ones keep trust and type and lose secret, access list and end, and the rest go. |
| `KeyMap.QuestionLaws` | `bsd/freebsd/contrib/ntp/libntp/authkeys.c:568-626` | Asking changes no key; id 0 and the cached id are known, and id 0 is trusted exactly while something is cached. |
| `KeyStores.KeyStore.SetAuthKey` | `bsd/freebsd/contrib/ntp/libntp/authkeys.c:748-803` | Acts on map and cache as SetKey: a known key keeps trust and lifetime, a new one is not trusted. |
| `KeyStores.KeyStore.AuthHaveKey` | `bsd/freebsd/contrib/ntp/libntp/authkeys.c:584-626` | Answer and cache are those of Have. |
| `KeyStores.KeyStore.AuthKnownKey` | `bsd/freebsd/contrib/ntp/libntp/authkeys.c:568-577` | True for id 0, the cached id and every stored id. |
| `KeyStores.KeyStore.AuthIsTrusted` | `bsd/freebsd/contrib/ntp/libntp/authkeys.c:691-709` | The answer of IsTrusted on map and cache. |
| `KeyStores.KeyStore.AuthIsTrustedIp` | `bsd/freebsd/contrib/ntp/libntp/authkeys.c:711-735` | The answer of IsTrustedIp on map and cache, access list included. |
| `KeyStores.KeyStore.AgeKeys` | `bsd/freebsd/contrib/ntp/libntp/authkeys.c:857-867` | Acts as Age: exactly the expired keys go, while the list is walked that they are taken off. |
| `KeyStores.KeyStore.DelKeys` | `bsd/freebsd/contrib/ntp/libntp/authkeys.c:824-851` | Acts as Delete: autokeys stay, untrusted keys go, trusted ones lose secret, lifetime and access list. |
| `KeyStores.KeyStore.ResizeHashtable` | `bsd/freebsd/contrib/ntp/libntp/authkeys.c:444-469` | No key, node or list changes, so auth_findkey answers as before for every id; the new table has 2^h buckets, 4 <= h <= 15, and below the cap fewer than four keys per bucket. |
| `KeyStores.KeyStore.PreallocSymkeys` | `bsd/freebsd/contrib/ntp/libntp/authkeys.c:372-386` | The same after allocating what is missing to the requested count. |
| `KeyStores.Run` | `bsd/freebsd/contrib/ntp/libntp/authkeys.c:333-867` | Over any sequence of operations on a new store, preallocations with their table sizes included, as long as the key structures can be counted in an int: all lists stay well formed, the store is what the operations make of map and cache, and the counters are the number of keys and of structures. |
| `KeyMap.OperationKeepsCoherence` | `bsd/freebsd/contrib/ntp/libntp/authkeys.c:584-803` | Every operation but auth_delkeys keeps the cache equal to a stored, trusted, typed key, or empty. |
| `KeyMap.CoherentAnswers` | `bsd/freebsd/contrib/ntp/libntp/authkeys.c:568-735` | With such a cache every question about a nonzero id has the answer of a search of the table alone. |
| `KeyMap.CacheIsTransparent` | `bsd/freebsd/contrib/ntp/libntp/authkeys.c:421-735` | Over every run without auth_delkeys the three questions are answered as by the table alone. |
| `KeyMap.DeleteCoherence` | `bsd/freebsd/contrib/ntp/libntp/authkeys.c:824-851` | auth_delkeys keeps cache and stored key equal field by field if and only if nothing is cached, an autokey is cached, or the cached key has neither secret nor access list. |
| `KeyMap.DeleteAnswers` | `bsd/freebsd/contrib/ntp/libntp/authkeys.c:824-851` | After auth_delkeys all questions about nonzero ids have the answers of the table if and only if nothing is cached, an autokey is cached, or the cached key has no access list. |
| `KeyMap.DeleteLeavesStaleCache` | `bsd/freebsd/contrib/ntp/libntp/authkeys.c:838-846` | A run after which authistrustedip refuses an address that the table admits: the trusted branch takes the access list from the key but not from the cache. |
| `ProgramLedger.Unlink` | `bsd/rtemsbsd/rtems/rtems-program.c:66-84` | Takes the first matching entry off a list and reports whether there was one. |
| `ProgramLedger.Program.FdCloseRemove` | `bsd/rtemsbsd/rtems/rtems-program.c:86-97` | Only a recorded descriptor is closed, once, and its entry goes. |
| `ProgramLedger.Program.FdCloseAll` | `bsd/rtemsbsd/rtems/rtems-program.c:99-117` | Terminates with every recorded descriptor released in list order. |
| `ProgramLedger.Program.FileCloseRemove` | `bsd/rtemsbsd/rtems/rtems-program.c:139-150` | The same for streams. |
| `ProgramLedger.Program.FileCloseAll` | `bsd/rtemsbsd/rtems/rtems-program.c:152-170` | The same for all streams. |
| `ProgramLedger.Program.AllocmemFreeRemove` | `bsd/rtemsbsd/rtems/rtems-program.c:191-202` | The same for memory blocks. |
| `ProgramLedger.Program.AllocmemFreeAll` | `bsd/rtemsbsd/rtems/rtems-program.c:204-225` | The same for all memory blocks. |
| `ProgramLedger.Program.CallDestructors` | `bsd/rtemsbsd/rtems/rtems-program.c:227-237` | The same for the destructors. |
| `ProgramLedger.Program.Alloc` | `bsd/rtemsbsd/rtems/rtems-program.c:525-562` | The old block leaves the ledger, if it was on it, before it is reallocated; a successful call releases it, recorded or not, and records the block obtained. |
| `ProgramLedger.Program.Execute` | `bsd/rtemsbsd/rtems/rtems-program.c:431-680` | Every wrapper call changes the ledger as Step says, or stops where the code asserts. |
| `ProgramLedger.StepMatches` | `bsd/rtemsbsd/rtems/rtems-program.c:431-680` | Every call records what the system hands out and takes off what it gets back, both going by the call alone, and is refused exactly when it frees or removes what is not held. |
| `ProgramLedger.RunMatches` | `bsd/rtemsbsd/rtems/rtems-program.c:431-680` | Over every run the trace is the one the calls alone say. |
| `ProgramLedger.StepBalances` | `bsd/rtemsbsd/rtems/rtems-program.c:431-680` | A call keeps the lists equal to what was acquired and not yet released if and only if it is neither a failed reallocation of a recorded block nor a reallocation that releases an unrecorded one. |
| `ProgramLedger.StepAccounts` | `bsd/rtemsbsd/rtems/rtems-program.c:431-680` | With the lost blocks counted in, every call keeps the account, unless it releases a block that is neither recorded nor lost; then the trace is unsound for good. |
| `ProgramLedger.EverythingIsReleasedOnce` | `bsd/rtemsbsd/rtems/rtems-program.c:239-281` | Over every run: nothing is released that is not outstanding if and only if no call releases a block that is neither recorded nor lost; and then every resource has in the end been released exactly as often as acquired if and only if no block stays lost and an aborted run, which is not torn down, held nothing. |
| `ProgramLedger.AllHandedOutIsGivenBack` | `bsd/rtemsbsd/rtems/rtems-program.c:239-281` | What was acquired is what the system handed out; where no release is stray, no block stays lost and the run was not aborted, it has all been given back, each as often as handed out. |
| `ProgramLedger.TeardownReleases` | `bsd/rtemsbsd/rtems/rtems-program.c:275-278` | The teardown releases exactly what is on the lists: descriptors, streams, blocks, destructors, each list from its head on. |
| `ProgramLedger.DestructorsRunBackwards` | `bsd/rtemsbsd/rtems/rtems-program.c:227-237` | Destructors are called in the reverse order of their addition. |
| `ProgramLedger.RunAccounts` | `bsd/rtemsbsd/rtems/rtems-program.c:431-680` | Over every run what is outstanding is on the lists or lost, or there was such a release. |
| `ProgramLedger.UnrecordedReallocation` | `bsd/rtemsbsd/rtems/rtems-program.c:544-550` | A run that reallocates a block no wrapper recorded releases what was never acquired. |
| `ProgramLedger.FailedReallocation` | `bsd/rtemsbsd/rtems/rtems-program.c:544-559` | A run that loses a block by a failed reallocation never releases it, and one that tries again does. |
| `ProgramLedger.OutstandingCounts` | `bsd/rtemsbsd/rtems/rtems-program.c:239-281` | Outstanding resources are those acquired more often than released. |
| `ProgramLedger.ProgramCall` | `bsd/rtemsbsd/rtems/rtems-program.c:239-281` | The run starts when the control structure could be set; after return or exit the ledger is torn down in the order of the code, after an abort it is not; the exit code is that of the exit or of the return. |

## Left out

- ProgramLedger.Program.Execute: the `LIST_*` links of the control structure are sequences, so the list cells and their own memory are not modelled; the closing result of a wrapper call is taken to be 0, and in the teardown, where it would only be logged, too.
- ProgramLedger.ProgramCall: thread-local control, program names, `vasprintf`, `strdup` and the data-restoring variants are not modelled; every allocation wrapper goes through the one modelled.
- KeyStores.KeyStore.FreeSymkey: secret and access list are values in the node, so their release and ownership are not modelled; neither are the lookup statistics.
- KeyStores.KeyStore.AuthTrust: the lifetime `current_time + trust` is an unbounded sum.
- KeyStores.KeyStore.MoreMem: failure of the allocator ends the original program and is not modelled; nor are the records for leak detection in debugging builds.
- KeyMap.CacheIsTransparent: excludes key id 0, for which `authhavekey` answers from the flags of the cache, and runs with `auth_delkeys`, for which `DeleteAnswers` has the exact condition.
- KeyStores.Run: runs in which the key structures could no longer be counted in an int, where the original overflows, are excluded.
- KeyAccess.KeyaccContains: the access list is a sequence; the allocation of its cells by `keyacc_new_push` and `keyacc_all_free` is left out.
- Atolfp.AtoLfp: a text with a NUL character inside cannot be given to the function.
- Mstolfp.MsToLfp: texts whose rewriting takes more than the 100 bytes of the buffer, for which the original is undefined, are excluded.
- TimeIntervals.FixedToInterval: the variants of the fraction conversions by tables and by floating point, for targets without 64-bit integers, are left out.
- Unfolding.StampsAreUnfolded: the default pivot, which is the current time, is a parameter.
- GregorianDates.GregorianRoundTrip: the `struct tm` variants and the 32-bit NTP variants of the conversions are not modelled.
- NtpCalendar.SplitEradays: `errno` is a flag of the result.
- Basedates.Basedate.SetDay: log messages, the build date and the evaluation of a date string are left out.
- Floating-point conversions of `l_fp`, MD5 and OpenSSL digests, key file reading, address lookup, the FIFO macros and the worker threads are not part of this model.
- The small integer parsers (decimal, hexadecimal and octal) are not modelled.
