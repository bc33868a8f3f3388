/**
 * The two directions of the packaged converter are inverse to each other,
 * stated on the fields the forward direction hands to the `datetime`
 * constructor: exactly from datetime to Julian day and back, and up to the
 * microsecond truncation from Julian day to datetime and back. The ten
 * civil days 5..14 October 1582, which the reform skipped, are the one
 * exception.
 */
module RoundTrip {
  import opened PyRuntime
  import opened Calendar
  import opened PyDateTime
  import opened DayNumber
  import opened JulianDay
  import opened ConversionFacts

  /** The civil days the reform skipped: the forward direction never produces them. */
  predicate InReformGap(dt: DateTime) {
    dt.year == 1582 && dt.month == 10 && 5 <= dt.day <= 14
  }

  /**
   * The reverse result of a valid datetime splits into its day number and its
   * time fraction, and that day number is the one whose forward date is the
   * datetime's date.
   */
  lemma ReverseThenSplit(dt: DateTime)
    requires Valid(dt) && !InReformGap(dt)
    ensures var jd := CivilToJd(dt);
      var f := DayFraction(dt.hour, dt.minute, dt.second, dt.microsecond);
      && -0.5 <= jd
      && JdInt(jd) as real == jd + 0.5 - f
      && SplitJd(jd).frac == f
      && ForwardDate(JdInt(jd)) == dt.Date()
  {
    var date := dt.Date();
    var f := DayFraction(dt.hour, dt.minute, dt.second, dt.microsecond);
    DayFractionRange(dt.hour, dt.minute, dt.second, dt.microsecond);
    AtOrAfterReformByDate(dt);
    GregorianDateIsJulian(date);
    JulianDayNumberPositive(date);
    var n: int;
    if !Before(date, ReformDate) {
      n := GregorianDayNumber(date);
      GregorianDayNumberFromReform(date);
      DateOfGregorianDayNumber(date);
    } else {
      n := JulianDayNumber(date);
      JulianDayNumberBeforeReform(date);
      DateOfJulianDayNumber(date);
    }
    var jd := CivilToJd(dt);
    assert jd + 0.5 == n as real + f;
    TruncOfIntPlusFrac(n, f);
    TruncOfInt(n);
    assert JdInt(jd) == n;
  }

  /**
   * datetime -> Julian day -> fields gives back the same seven fields, to
   * the microsecond, for every valid datetime outside the reform gap.
   */
  lemma FieldsOfReverse(dt: DateTime)
    requires Valid(dt) && !InReformGap(dt)
    ensures Fields(CivilToJd(dt)) == dt
  {
    var jd := CivilToJd(dt);
    ReverseThenSplit(dt);
    FieldsOfJd(jd);
    ClockOfDayFraction(dt.hour, dt.minute, dt.second, dt.microsecond);
    assert Fields(jd) == dt;
  }

  /**
   * Julian day -> fields -> Julian day gives back the Julian day less its
   * sub-microsecond remainder whenever the constructor accepts the fields.
   */
  lemma ReverseOfFields(jd: real)
    requires Valid(Fields(jd))
    ensures CivilToJd(Fields(jd)) <= jd < CivilToJd(Fields(jd)) + Microsecond
  {
    var dt := Fields(jd);
    ValidFieldsInRange(jd);
    FieldsOfJd(jd);
    FieldsInHybridCalendar(jd);
    CorrectionBranch(jd);
    var n := JdInt(jd);
    var f := SplitJd(jd).frac;
    ClockOfFraction(f);
    AtOrAfterReformByDate(dt);
    if n > GregorianEpoch {
      GregorianDayNumberOfDate(n);
    } else {
      JulianDayNumberOfDate(n);
    }
    assert CivilToJd(dt) == n as real - 0.5 + DayFraction(dt.hour, dt.minute, dt.second, dt.microsecond);
  }

  /**
   * A civil date in the reform gap is read as a Julian date by the reverse
   * direction and comes back ten days later, as the Gregorian date of the
   * same day.
   */
  lemma GapFieldsShiftTenDays(dt: DateTime)
    requires Valid(dt) && InReformGap(dt)
    ensures Fields(CivilToJd(dt)) == dt.(day := dt.day + 10)
  {
    var date := dt.Date();
    var f := DayFraction(dt.hour, dt.minute, dt.second, dt.microsecond);
    DayFractionRange(dt.hour, dt.minute, dt.second, dt.microsecond);
    var n := JulianDayNumber(date);
    assert n == 2299156 + dt.day;
    var jd := CivilToJd(dt);
    assert jd + 0.5 == n as real + f;
    var later := Date(1582, 10, dt.day + 10);
    assert ForwardDate(n) == later by {
      assert GregorianDayNumber(later) == n;
      DateOfGregorianDayNumber(later);
    }
    assert ClockOf(f) == Clock(dt.hour, dt.minute, dt.second, dt.microsecond) by {
      ClockOfDayFraction(dt.hour, dt.minute, dt.second, dt.microsecond);
    }
    FieldsOfSplit(jd, n, f);
    assert Fields(jd) == dt.(day := dt.day + 10);
  }
}
