# Julian day ⇄ UTC datetime, modelled in Dafny

This project models the Julian-day converter of `convert_julian_day`. The
forward direction, `jd_to_datetime`, turns a Julian day into a naive UTC
`datetime`. The reverse direction, `datetime_to_jd`, turns a `datetime` back
into a Julian day. Both follow Meeus, *Astronomical Algorithms*, chapter 7.
The model also covers the older class-based copy of the forward direction,
`JulianDay.juliandate_to_utc`, and its sexagesimal helpers.

The model uses Dafny's exact `real` type for Python floats. `Trunc` is
Python's `int()`, which rounds toward zero. `Modf` is `math.modf`.

Modules:

- `PyRuntime` (`py_runtime.dfy`): `Trunc`, `Modf`, the C `int` range that argument parsing enforces, the exceptions, and `Result`.
- `Calendar` (`calendar.dfy`): dates, the Julian and Gregorian leap rules, month lengths, and the next day of a date.
- `PyDateTime` (`py_datetime.dfy`): the `datetime` record, the checks its constructor performs (C `int` arguments, then field ranges), `>=`, and the dynamically typed arguments.
- `DayNumber` (`day_number.dfy`): the algorithm on integers. Each truncation against 365.25, 30.6001, 122.1 or 36524.25 becomes a floor division by an integer constant. Its lemmas prove two bijections between day numbers and dates, one for the Julian calendar and one for the Gregorian calendar, and that the next day number decodes to the next day.
- `JulianDay` (`julian_day.dfy`): the steps of the packaged functions on reals: the split, the correction `b`, the date and clock decoding, and the reverse arithmetic, each with the lemmas that tie it to `DayNumber`.
- `ConversionFacts` (`conversion_facts.dfy`): which branch runs, which calendar each branch lands in, exactly which Julian days give fields `datetime` accepts, day-to-day continuity, and the structure of the reverse direction.
- `RoundTrip` (`round_trip.dfy`): the two round trips on fields, and the reform gap.
- `Conversion` (`conversion.dfy`): the entry points `jd_to_datetime` and `datetime_to_jd` with their contracts, and the round trips between them.
- `Examples` (`examples.dfy`): the worked values the repository's tests use.
- `LegacyJulianDay` (`legacy_julian_day.dfy`): the class-based copy, proved equal to the packaged forward direction on every input.

Behaviour of the code worth knowing:

- **Calendar.** The calendar is hybrid. Below the reform both directions skip the correction, so they use the Julian calendar; from it on they use the Gregorian one. `ConversionFacts.FieldsInHybridCalendar` states this.
- **Gap and leap days.** Civil dates 1582-10-05 to 1582-10-14 have no Julian day that maps to them. Python's `datetime` checks February 29 with the Gregorian rule. So before the reform the forward direction raises `ValueError` on 29 February of century years not divisible by 400. Example: Julian day 2268991.5 is Julian 1500-02-29.
- **Pre-Gregorian test.** The test for Julian day 2299160 calls it about 1582-10-15. The code gives noon of 1582-10-04, the last Julian day.
- **Year comparison.** Both copies compute the year with `month > 2.5`, which on integer months selects March to December.
- **Truncation.** Every truncation is `int()`, which rounds toward zero. On the values a successful conversion sees, all operands are non-negative, so it is an integer division.
- **Reverse direction errors.** `datetime_to_jd` raises `TypeError` for an argument that is not a `datetime`, and otherwise always returns a number, since a `datetime` holds only valid fields.
- **Year range.** Years run from 1 to 9999, the limits of `datetime`. Outside [1721423.5, 5373484.5) the forward direction raises: `ValueError` when the computed fields fit a C `int`, and `OverflowError` from argument parsing when a field (in practice the year) does not.

## Model

| member | source | states |
|---|---|---|
| PyRuntime.Trunc | src/convert_julian_day/julian_day.py:47-55 | `int()` rounds toward zero: `r <= x < r + 1` for `x >= 0`, `r - 1 < x <= r` below, and `r` has the sign of `x` except on (-1, 0) |
| PyRuntime.Modf | src/convert_julian_day/julian_day.py:42 | `modf` parts add up to `x`; the integral part is the truncation; the fraction is in [0, 1) for `x >= 0` and in (-1, 0] below |
| PyRuntime.TruncOfQuotient | src/convert_julian_day/julian_day.py:53-55 | on non-negative operands, truncating a real quotient is integer division |
| Calendar.NextDay | src/convert_julian_day/julian_day.py:52-66 | reference successor, built from month lengths, that the decode at these lines is proved to follow: the day after a date comes strictly later and is again a month 1..12 with a day of at least 1 |
| Calendar.NextDayIsValid | src/convert_julian_day/julian_day.py:52-66 | for the reference successor the decode is proved to follow: the next day of a valid Julian date is a valid Julian date, and likewise for Gregorian dates |
| PyDateTime.MakeDateTime | src/convert_julian_day/julian_day.py:84-87 | `OverflowError` exactly when some argument is outside the C `int` range; otherwise the record exactly when the fields form a valid datetime (years 1..9999, Gregorian month lengths, time ranges), and `ValueError` otherwise |
| JulianDay.CorrectedDay | src/convert_julian_day/julian_day.py:45-50 | past 2299160, `b` is `n + 1 + alpha - alpha / 4` with `alpha = (4n - 7468865) / 146097`, the integer shift that undoes the Gregorian correction; otherwise `b = jd_int` |
| JulianDay.CivilToJd | src/convert_julian_day/julian_day.py:109-137 | from year 1 on, the reverse result is the date's Gregorian day number (from the reform instant on) or Julian day number (before it), minus 0.5, plus the time as a fraction of a day |
| JulianDay.ReverseTerms | src/convert_julian_day/julian_day.py:120-126 | on non-negative operands, `int(year / 100)`, `int(365.25 * (year + 4716))` and `int(30.6001 * (month + 1))` are the integer divisions of DayNumber |
| JulianDay.TruncYearIndex | src/convert_julian_day/julian_day.py:53 | `int((c - 122.1) / 365.25)` is `(100c - 12210) / 36525` |
| JulianDay.TruncYearStart | src/convert_julian_day/julian_day.py:54 | `int(365.25 d)` is `1461 d / 4` |
| JulianDay.TruncMonthIndex | src/convert_julian_day/julian_day.py:55 | `int(r / 30.6001)` is `10000 r / 306001` |
| JulianDay.TruncMonthStart | src/convert_julian_day/julian_day.py:58 | `int(30.6001 g)` is `306001 g / 10000` |
| JulianDay.CalendarDayOfIsDecode | src/convert_julian_day/julian_day.py:52-66 | for `b >= 0`, year, month and fractional day are the integer decoding of `b` plus the day fraction |
| JulianDay.DayFractionRange | src/convert_julian_day/julian_day.py:134-135 | the fraction added for a valid time of day lies in [0, 1) |
| JulianDay.ClockOfFraction | src/convert_julian_day/julian_day.py:73-82 | a day fraction in [0, 1) gives hours 0..23, minutes and seconds 0..59, microseconds 0..999999, and loses less than one microsecond |
| JulianDay.ClockOfDayFraction | src/convert_julian_day/julian_day.py:73-82 | the clock fields of a valid time come back unchanged from the reverse fraction |
| DayNumber.RemainderRange | src/convert_julian_day/julian_day.py:53-54 | `c - e` is 123..488, and reaches 488 only when `d` is 3 modulo 4 |
| DayNumber.MonthIndexRange | src/convert_julian_day/julian_day.py:55-62 | `g` is 4..15; the day of month is at least 1 and within the month's length, with 29 February only at `c - e = 488` |
| DayNumber.DateOfDayNumberIsJulian | src/convert_julian_day/julian_day.py:52-66 | every day count decodes to a valid Julian-calendar date |
| DayNumber.JulianDayNumberOfDate | src/convert_julian_day/julian_day.py:126 | summing the reverse terms of a decoded date gives the day count back |
| DayNumber.MonthOffset | src/convert_julian_day/julian_day.py:113-116 | the March-based day of a valid Julian date is 123..488, 488 only on 29 February of a year index 3 modulo 4, and its month index is the March-based month plus one |
| DayNumber.DecodeAt | src/convert_julian_day/julian_day.py:52-66 | a year start plus a March-based day in range decodes to that year, to the month of the day's month index, and to the day within that month |
| DayNumber.DateOfJulianDayNumber | src/convert_julian_day/julian_day.py:113-126 | decoding the reverse sum of a valid Julian date gives the date back |
| DayNumber.CenturyLeap | src/convert_julian_day/julian_day.py:120-121 | when the year after a March-based year ending in 99 is a Gregorian leap year, the century `a` is 3 modulo 4, the case where `a / 4` adds the leap day back |
| DayNumber.CenturyArithmetic | src/convert_julian_day/julian_day.py:47 | the century index of a Gregorian day number in March-based century `a` is `a - 4` |
| DayNumber.CenturyOfGregorianDate | src/convert_julian_day/julian_day.py:45-50 | on a valid Gregorian date, forward `alpha` is reverse `a` minus 4, so the shift undoes the reverse correction |
| DayNumber.CenturyBounds | src/convert_julian_day/julian_day.py:47 | the day number lies in the century `alpha` counts; only every fourth century has the extra day |
| DayNumber.CenturyOfShiftedDate | src/convert_julian_day/julian_day.py:47-53 | after the shift, the decoded March-based year divided by 100 is `alpha + 4` |
| DayNumber.MarchYearOfDecodedDate | src/convert_julian_day/julian_day.py:64-66 | the decoded date's March-based year is `d - 4716` |
| DayNumber.LastDayOfCentury | src/convert_julian_day/julian_day.py:47-48 | if the shifted count decodes to the last day of a March-based century, `alpha` is 3 modulo 4 |
| DayNumber.LeapDayOfShiftedDate | src/convert_julian_day/julian_day.py:45-66 | a 29 February decoded after the shift lies in a Gregorian leap year |
| DayNumber.DateOfGregorianDayNumber | src/convert_julian_day/julian_day.py:118-126 | Gregorian date to day number and back through the shift gives the same date |
| DayNumber.GregorianDayNumberOfDate | src/convert_julian_day/julian_day.py:45-66 | every day number decodes, through the shift, to a valid Gregorian date whose Gregorian day number is that day number |
| DayNumber.ShiftedDateFromReform | src/convert_julian_day/julian_day.py:46 | day numbers past 2299160 decode to dates on or after 1582-10-15 |
| DayNumber.UnshiftedDateBeforeReform | src/convert_julian_day/julian_day.py:49-50 | day numbers up to 2299160 decode to dates before 1582-10-05 |
| DayNumber.GregorianDayNumberFromReform | src/convert_julian_day/julian_day.py:119-121 | a Gregorian date from 1582-10-15 on has a day number past 2299160 |
| DayNumber.JulianDayNumberBeforeReform | src/convert_julian_day/julian_day.py:122-123 | a Julian date before 1582-10-05 has a day number of at most 2299160 |
| DayNumber.JulianYearFromOne | src/convert_julian_day/julian_day.py:126 | a valid Julian date lies in year 1 or later exactly when its day number is at least 1721424 |
| DayNumber.GregorianYearUpTo9999 | src/convert_julian_day/julian_day.py:119-126 | a valid Gregorian date lies in year 9999 or earlier exactly when its day number is at most 5373484 |
| DayNumber.YearStartStep | src/convert_julian_day/julian_day.py:54 | consecutive `int(365.25 d)` differ by 366 when `d + 1` is a multiple of 4 and by 365 otherwise |
| DayNumber.JulianDayNumberOfNextDay | src/convert_julian_day/julian_day.py:113-126 | the Julian day number of the next day is one more, or two more when a 29 February of the Julian calendar is skipped |
| DayNumber.CorrectionStep | src/convert_julian_day/julian_day.py:120-121 | the correction `2 - a + a / 4` drops by one from a year to the next exactly when the next year is a Julian but not a Gregorian leap year |
| DayNumber.CorrectionOfNextDay | src/convert_julian_day/julian_day.py:113-121 | going to the next Gregorian day changes the correction only when it skips a Julian-only 29 February, and then by minus one |
| DayNumber.GregorianDayNumberOfNextDay | src/convert_julian_day/julian_day.py:113-126 | the Gregorian day number of the next Gregorian day is exactly one more |
| DayNumber.DecodeOfNextDay | src/convert_julian_day/julian_day.py:52-66 | without the shift, day number `b + 1` decodes to the Julian-calendar day after the decoding of `b` |
| DayNumber.ShiftedDecodeOfNextDay | src/convert_julian_day/julian_day.py:45-66 | through the shift, day number `n + 1` decodes to the Gregorian-calendar day after the decoding of `n` |
| ConversionFacts.FieldsOfJd | src/convert_julian_day/julian_day.py:40-87 | from `jd = -0.5` on, the forward fields are the decoded date of `jd_int` and the clock of `jd_frac`, with `jd_int + jd_frac = jd + 0.5` and `jd_frac` in [0, 1) |
| ConversionFacts.FieldsOfSplit | src/convert_julian_day/julian_day.py:41-87 | when `jd + 0.5` is a day number `n` plus a fraction `f` in [0, 1), the forward fields are the date of `n` and the clock of `f` |
| ConversionFacts.CorrectionBranch | src/convert_julian_day/julian_day.py:41-50 | the correction applies exactly when `jd >= 2299160.5`, and exactly then `b` differs from `jd_int` |
| ConversionFacts.FieldsInHybridCalendar | src/convert_julian_day/julian_day.py:52-82 | month is 1..12 and the day fits the month: a Gregorian date from the reform on past the epoch, a Julian date before 1582-10-05 up to it; the time fields are in range |
| ConversionFacts.ForwardSucceedsAfterReform | src/convert_julian_day/julian_day.py:84-87 | from 2299160.5 up to the end of year 9999 the forward fields always form a valid datetime |
| ConversionFacts.ForwardBeforeReform | src/convert_julian_day/julian_day.py:84-87 | from year 1 to the reform, the forward year is 1..1582, the time is valid, and the fields are invalid exactly on 29 February of years that are not Gregorian leap years |
| ConversionFacts.FieldsBeforeHalfDay | src/convert_julian_day/julian_day.py:52-66 | below `jd = -0.5` the decoded year is at most -4712 |
| ConversionFacts.ValidFieldsInRange | src/convert_julian_day/julian_day.py:84-87 | forward fields that form a valid datetime come from a Julian day in [1721423.5, 5373484.5) |
| ConversionFacts.ValidFieldsExactly | src/convert_julian_day/julian_day.py:40-87 | the forward fields form a valid datetime exactly on [1721423.5, 5373484.5) less the Julian days that decode to a Julian-only 29 February |
| ConversionFacts.AtOrAfterReformByDate | src/convert_julian_day/julian_day.py:119 | for a valid time, `dt >= datetime(1582, 10, 15)` holds exactly when the date is not before 1582-10-15 |
| ConversionFacts.ReverseStructure | src/convert_julian_day/julian_day.py:113-137 | the reverse result is the Julian-calendar sum plus `b = 2 - a + a / 4` from the reform on, or `b = 0` before it, plus a time fraction in [0, 1) |
| ConversionFacts.MidnightIsHalfDay | src/convert_julian_day/julian_day.py:126-137 | at midnight the reverse result plus 0.5 is an integer |
| ConversionFacts.ReformJump | src/convert_julian_day/julian_day.py:45-50 | day number 2299160, the last uncorrected one, decodes to 1582-10-04, and 2299161, the first corrected one, to 1582-10-15 |
| ConversionFacts.ForwardDateIsNextDay | src/convert_julian_day/julian_day.py:45-66 | day number `n + 1` decodes to the next day of the hybrid calendar after the decoding of `n`: Julian up to 1582-10-04, then 1582-10-15, then Gregorian |
| ConversionFacts.FieldsOfNextJd | src/convert_julian_day/julian_day.py:40-82 | from `jd = -0.5` on, the forward fields of `jd + 1` are the next hybrid-calendar day at the same clock time |
| RoundTrip.ReverseThenSplit | src/convert_julian_day/julian_day.py:41-43 | splitting a reverse result gives back the date's day number and the time fraction, and the forward date of that day number is the datetime's date |
| RoundTrip.FieldsOfReverse | src/convert_julian_day/julian_day.py:40-137 | the forward fields of the reverse result of a valid datetime outside 1582-10-05..14 are that datetime |
| RoundTrip.ReverseOfFields | src/convert_julian_day/julian_day.py:40-137 | when the forward fields are valid, their reverse result is at most `jd` and less than one microsecond below it |
| RoundTrip.GapFieldsShiftTenDays | src/convert_julian_day/julian_day.py:118-123 | the forward fields of the reverse result of a datetime in 1582-10-05..14 are the same time ten days later |
| Conversion.JdToDatetime | src/convert_julian_day/julian_day.py:37-38 | `TypeError` exactly when the argument is not an `int`, `bool` or `float`; numbers go to the conversion |
| Conversion.JdToCivil | src/convert_julian_day/julian_day.py:40-87 | a datetime exactly on [1721423.5, 5373484.5) less the Julian-only leap days; its date is the hybrid-calendar date of `jd_int` and its Julian day lies less than a microsecond below `jd`; a Julian-only leap day raises `ValueError`; any other failure is `ValueError` or `OverflowError` |
| Conversion.JdToCivilConstructs | src/convert_julian_day/julian_day.py:84-87 | the forward result is the `datetime` constructor applied to the seven computed fields |
| Conversion.DatetimeToJd | src/convert_julian_day/julian_day.py:106-107 | `TypeError` exactly when the argument is not a `datetime`; a `datetime` gets the reverse result |
| Conversion.CivilRoundTrip | tests/test_julian_day.py:104-123 | datetime to Julian day to datetime is the identity, on exact reals, for every valid datetime outside 1582-10-05..14 |
| Conversion.ReformGapShiftsTenDays | src/convert_julian_day/julian_day.py:118-123 | a datetime in 1582-10-05..14 comes back ten days later |
| Conversion.NextJdIsNextDay | src/convert_julian_day/julian_day.py:40-87 | when `jd` and `jd + 1` both convert, the second result is the next hybrid-calendar day at the same clock time |
| Conversion.JulianLeapDayRaises | src/convert_julian_day/julian_day.py:84-87 | Julian day 2268991.5 decodes to 1500-02-29 and raises `ValueError` |
| Examples.ReverseJ2000 | tests/test_julian_day.py:54-71 | 2000-01-01 00:00 gives 2451544.5, 12:00 gives 2451545.0, 18:00 gives 2451545.25 |
| Examples.ReverseUnixEpoch | tests/test_julian_day.py:60-64 | 1970-01-01 00:00 gives 2440587.5 |
| Examples.ReverseYear3000 | src/convert_julian_day/julian_day.py:109-137 | 3000-01-01 00:00 gives 2816787.5 |
| Examples.ForwardJ2000 | tests/test_julian_day.py:11-14 | 2451545.0 gives 2000-01-01 12:00 |
| Examples.ForwardUnixEpoch | tests/test_julian_day.py:16-19 | 2440587.5 gives 1970-01-01 00:00 |
| Examples.ForwardFractionalDay | tests/test_julian_day.py:21-25 | 2451545.25 gives 2000-01-01 18:00 |
| Examples.ForwardPreGregorian | tests/test_julian_day.py:27-31 | 2299160 gives a datetime: noon of 1582-10-04 |
| Examples.ForwardYear3000 | tests/test_julian_day.py:153-159 | 2816787.5 gives 3000-01-01 00:00 |
| Examples.ForwardYearBoundary | tests/test_julian_day.py:161-165 | 2451544.5 gives 2000-01-01 00:00 |
| Examples.IntegerArgument | tests/test_julian_day.py:33-36 | every `int` converts like the equal float, and `True` like 1.0 |
| Examples.OtherDatesRoundTrip | tests/test_julian_day.py:104-110 | 2024-06-15 14:30:45 comes back unchanged on exact reals |
| Examples.VariousDatesRoundTrip | tests/test_julian_day.py:112-123 | 1990-01-01, 2000-12-31 23:59:59, 2024-02-29 12:00 and 2100-01-01 come back unchanged on exact reals |
| Examples.LeapDaysRoundTrip | tests/test_julian_day.py:167-174 | 2000-02-29 12:00 comes back as 2000-02-29 on exact reals |
| Examples.WrongKindRaises | tests/test_julian_day.py:129-147 | a string or `None` raises `TypeError` in either direction |
| LegacyJulianDay.DecimalToSexagesimal | muqy_20220519_Convert_Julian_day.py:57-71 | the three parts recombine to the input; for `x >= 0` the integral part is the floor, minutes are 0..59, seconds are in [0, 60) |
| LegacyJulianDay.MakeTime | muqy_20220519_Convert_Julian_day.py:88 | `datetime.time` raises `OverflowError` exactly when an argument is outside the C `int` range; otherwise it returns the clock exactly when the fields are in range, and raises `ValueError` otherwise |
| LegacyJulianDay.DecimalToTime | muqy_20220519_Convert_Julian_day.py:73-88 | hours in [0, 24) give a valid time less than a microsecond below the input; from 24 to below 2^31 it raises `ValueError`; from 2^31 on, or at most -2^31 - 1, `OverflowError` |
| LegacyJulianDay.MakeDate | muqy_20220519_Convert_Julian_day.py:129 | `datetime.date` raises `OverflowError` exactly when an argument is outside the C `int` range; otherwise it returns the date exactly when it exists for Python, and raises `ValueError` otherwise |
| LegacyJulianDay.LegacyCorrectedDay | muqy_20220519_Convert_Julian_day.py:102-106 | on an integral float `jd_int`, the float correction is the packaged `b`, with the same threshold and constants |
| LegacyJulianDay.LegacyCalendarDay | muqy_20220519_Convert_Julian_day.py:107-124 | on an integral float `b`, the float date steps, including `g < 13.5` and `month > 2.5`, compute the packaged year, month and fractional day |
| LegacyJulianDay.DecimalToTimeAgrees | muqy_20220519_Convert_Julian_day.py:130-133 | the legacy time of the day fraction is the packaged clock breakdown |
| LegacyJulianDay.DateAndTime | muqy_20220519_Convert_Julian_day.py:126-135 | building the date and the time separately and combining them gives the same datetime, or the same exception, as one constructor call on the packaged clock breakdown |
| LegacyJulianDay.JulianDay.JuliandateToUtc | muqy_20220519_Convert_Julian_day.py:90-135 | `juliandate_to_utc` returns the same datetime as `jd_to_datetime`, or raises the same exception, on every Julian day |

## Left out

- Command-line interface (`cli.py`): argument parsing, `strptime` attempts, printing and exit codes are I/O around the two conversions.
- The package re-exports and the alias `juliandate_to_datetime` (`julian_day.py:141`): they name the same function.
- IEEE-754 rounding: floats are exact reals. The tests' 1e-6 and 1 ms tolerances only absorb float error and microsecond truncation, and the model proves the round trips exactly or to below one microsecond.
- Timezone-aware datetimes, and comparisons between aware and naive values: every datetime here is naive and read as UTC.
- Other argument kinds (`datetime.date`, `Decimal`, numpy scalars, subclasses of `datetime`): the arguments modelled are `int`, `bool`, `float`, `str`, `None` and `datetime`.
- The class constructor `JulianDay.__init__` only stores its argument. A non-numeric `julian_day` would raise `TypeError` at `julian_day + 0.5`; the legacy model takes a real.
- LegacyJulianDay.DecimalToTime: says nothing about hours in (-2^31 - 1, 0). The conversion only passes it a day fraction in [0, 1) times 24 once `jd >= -0.5`, and below that the year is already out of range.
- Conversion.JdToCivil: outside [1721423.5, 5373484.5) it promises `ValueError` or `OverflowError` without saying which. Which one depends on whether the computed year fits a C `int`, and `PyDateTime.MakeDateTime` states that split.
- Non-finite floats: `modf` of an infinity and `int()` of the result raise `OverflowError`, and of a NaN raise `ValueError` (`julian_day.py:42-43`). Reals have no such values.
- The reverse direction takes `PyDateTime` arguments, which hold only valid records, since the `datetime` constructor (`PyDateTime.MakeDateTime`) refuses any other.
- The round trips are stated for `DateTime` records and reals. The `TypeError` paths are covered separately by `JdToDatetime` and `DatetimeToJd`.
