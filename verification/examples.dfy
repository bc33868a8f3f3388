/**
 * The worked values the converter documents for itself: J2000, the Unix
 * epoch, a quarter day past J2000, the first day of year 3000, leap days,
 * and the type errors.
 */
module Examples {
  import opened PyRuntime
  import opened Calendar
  import opened PyDateTime
  import opened DayNumber
  import opened JulianDay
  import opened Conversion

  function Midnight(year: int, month: int, day: int): DateTime {
    DateTime(year, month, day, 0, 0, 0, 0)
  }

  /** The reverse direction on J2000: midnight, noon and 18:00 of 1 January 2000. */
  lemma ReverseJ2000()
    ensures CivilToJd(Midnight(2000, 1, 1)) == 2451544.5
    ensures CivilToJd(DateTime(2000, 1, 1, 12, 0, 0, 0)) == 2451545.0
    ensures CivilToJd(DateTime(2000, 1, 1, 18, 0, 0, 0)) == 2451545.25
  {
    assert GregorianDayNumber(Date(2000, 1, 1)) == 2451545;
  }

  /** The reverse direction on the Unix epoch. */
  lemma ReverseUnixEpoch()
    ensures CivilToJd(Midnight(1970, 1, 1)) == 2440587.5
  {
    assert GregorianDayNumber(Date(1970, 1, 1)) == 2440588;
  }

  /** The reverse direction on 1 January 3000. */
  lemma ReverseYear3000()
    ensures CivilToJd(Midnight(3000, 1, 1)) == 2816787.5
  {
    assert GregorianDayNumber(Date(3000, 1, 1)) == 2816788;
  }

  /** The forward direction on J2000: noon of 1 January 2000. */
  lemma ForwardJ2000()
    ensures JdToCivil(2451545.0) == Ok(DateTime(2000, 1, 1, 12, 0, 0, 0))
  {
    ReverseJ2000();
    CivilRoundTrip(DateTime(2000, 1, 1, 12, 0, 0, 0));
  }

  /** The forward direction on a quarter day past J2000: 18:00. */
  lemma ForwardFractionalDay()
    ensures JdToCivil(2451545.25) == Ok(DateTime(2000, 1, 1, 18, 0, 0, 0))
  {
    ReverseJ2000();
    CivilRoundTrip(DateTime(2000, 1, 1, 18, 0, 0, 0));
  }

  /** The forward direction on the midnight that starts year 2000. */
  lemma ForwardYearBoundary()
    ensures JdToCivil(2451544.5) == Ok(Midnight(2000, 1, 1))
  {
    ReverseJ2000();
    CivilRoundTrip(Midnight(2000, 1, 1));
  }

  /** The forward direction on the Unix epoch. */
  lemma ForwardUnixEpoch()
    ensures JdToCivil(2440587.5) == Ok(Midnight(1970, 1, 1))
  {
    ReverseUnixEpoch();
    CivilRoundTrip(Midnight(1970, 1, 1));
  }

  /** The forward direction on 1 January 3000. */
  lemma ForwardYear3000()
    ensures JdToCivil(2816787.5) == Ok(Midnight(3000, 1, 1))
  {
    ReverseYear3000();
    CivilRoundTrip(Midnight(3000, 1, 1));
  }

  /** The forward direction on Julian day 2299160: noon of 4 October 1582, the last Julian day. */
  lemma ForwardPreGregorian()
    ensures JdToCivil(2299160.0) == Ok(DateTime(1582, 10, 4, 12, 0, 0, 0))
  {
    var dt := DateTime(1582, 10, 4, 12, 0, 0, 0);
    assert JulianDayNumber(dt.Date()) == 2299160;
    assert CivilToJd(dt) == 2299160.0;
    CivilRoundTrip(dt);
  }

  /** An `int` argument converts like the equal `float`, and `True` like 1.0. */
  lemma IntegerArgument(i: int)
    ensures JdToDatetime(PyInt(i)) == JdToDatetime(PyFloat(i as real))
    ensures JdToDatetime(PyBool(true)) == JdToDatetime(PyFloat(1.0))
  {
  }

  /** 29 February 2000, a century leap year, survives the trip through a Julian day. */
  lemma LeapDaysRoundTrip()
    ensures JdToCivil(CivilToJd(DateTime(2000, 2, 29, 12, 0, 0, 0))) == Ok(DateTime(2000, 2, 29, 12, 0, 0, 0))
  {
    CivilRoundTrip(DateTime(2000, 2, 29, 12, 0, 0, 0));
  }

  /** A mid-year afternoon survives the trip through a Julian day. */
  lemma OtherDatesRoundTrip()
    ensures JdToCivil(CivilToJd(DateTime(2024, 6, 15, 14, 30, 45, 0))) == Ok(DateTime(2024, 6, 15, 14, 30, 45, 0))
  {
    CivilRoundTrip(DateTime(2024, 6, 15, 14, 30, 45, 0));
  }

  /** New Year 1990, the last second of 2000, 29 February 2024 and New Year 2100 survive the trip through a Julian day. */
  lemma VariousDatesRoundTrip(dt: DateTime)
    requires dt in [Midnight(1990, 1, 1), DateTime(2000, 12, 31, 23, 59, 59, 0),
                    DateTime(2024, 2, 29, 12, 0, 0, 0), Midnight(2100, 1, 1)]
    ensures JdToCivil(CivilToJd(dt)) == Ok(dt)
  {
    CivilRoundTrip(dt);
  }

  /** Arguments of the wrong kind raise `TypeError` in either direction. */
  lemma WrongKindRaises()
    ensures JdToDatetime(PyStr("not a number")) == Err(TypeError)
    ensures JdToDatetime(PyNone) == Err(TypeError)
    ensures DatetimeToJd(PyStr("2000-01-01")) == Err(TypeError)
    ensures DatetimeToJd(PyNone) == Err(TypeError)
  {
  }
}
