/**
 * The two entry points of the packaged converter, `jd_to_datetime` and
 * `datetime_to_jd`, with contracts that state what each returns and when it
 * raises, and the round trips between them.
 */
module Conversion {
  import opened PyRuntime
  import opened Calendar
  import opened PyDateTime
  import opened JulianDay
  import DayNumber
  import opened ConversionFacts
  import opened RoundTrip

  /**
   * `jd_to_datetime` on a number. It returns a value exactly on
   * [1 January 1, 1 January 10000) less the Julian-only leap days, which
   * raise `ValueError`; the value's date is the hybrid-calendar date of the
   * day number, and its Julian day lies less than a microsecond below `jd`.
   */
  function JdToCivil(jd: real): (r: Result<DateTime>)
    ensures r.Ok? <==> MinJd <= jd < MaxJd && !JulianOnlyLeapDay(jd)
    ensures r.Ok? ==> Valid(r.value) && r.value.Date() == ForwardDate(JdInt(jd))
    ensures r.Ok? ==> CivilToJd(r.value) <= jd < CivilToJd(r.value) + Microsecond
    ensures MinJd <= jd && JulianOnlyLeapDay(jd) ==> r == Err(ValueError)
    ensures r.Err? ==> r.error == ValueError || r.error == OverflowError
  {
    var f := Fields(jd);
    assert Valid(f) ==> f.Date() == ForwardDate(JdInt(jd)) && CivilToJd(f) <= jd < CivilToJd(f) + Microsecond by {
      if Valid(f) {
        ValidFieldsInRange(jd);
        FieldsOfJd(jd);
        ReverseOfFields(jd);
      }
    }
    assert MinJd <= jd && JulianOnlyLeapDay(jd) ==> FitsCInt(f) by {
      if MinJd <= jd && JulianOnlyLeapDay(jd) {
        ForwardBeforeReform(jd);
      }
    }
    ValidFieldsExactly(jd);
    MakeDateTime(f.year, f.month, f.day, f.hour, f.minute, f.second, f.microsecond)
  }

  /** `jd_to_datetime` on a number hands the seven fields to the `datetime` constructor. */
  lemma JdToCivilConstructs(jd: real)
    ensures var f := Fields(jd);
      JdToCivil(jd) == MakeDateTime(f.year, f.month, f.day, f.hour, f.minute, f.second, f.microsecond)
  {
  }

  /** `jd_to_datetime`: `TypeError` unless the argument is an `int` (or `bool`) or a `float`. */
  function JdToDatetime(arg: PyObject): (r: Result<DateTime>)
    ensures r == Err(TypeError) <==> !arg.IsNumber()
    ensures arg.IsNumber() ==> r == JdToCivil(arg.AsReal())
  {
    if arg.IsNumber() then JdToCivil(arg.AsReal()) else Err(TypeError)
  }

  /**
   * datetime -> Julian day -> datetime gives back the same datetime, to the
   * microsecond, for every valid datetime outside the reform gap.
   */
  lemma CivilRoundTrip(dt: DateTime)
    requires Valid(dt) && !InReformGap(dt)
    ensures JdToCivil(CivilToJd(dt)) == Ok(dt)
  {
    FieldsOfReverse(dt);
  }

  /**
   * A civil date in the reform gap is read as a Julian date by the reverse
   * direction and comes back ten days later, as the Gregorian date of the
   * same day.
   */
  lemma ReformGapShiftsTenDays(dt: DateTime)
    requires Valid(dt) && InReformGap(dt)
    ensures JdToCivil(CivilToJd(dt)) == Ok(dt.(day := dt.day + 10))
  {
    GapFieldsShiftTenDays(dt);
  }

  /**
   * `datetime_to_jd`: `TypeError` unless the argument is a `datetime`, whose
   * fields the `datetime` constructor has already validated.
   */
  function DatetimeToJd(arg: PyObject): (r: Result<real>)
    ensures r.Err? <==> !arg.PyDateTime?
    ensures r.Err? ==> r.error == TypeError
    ensures r.Ok? ==> r.value == CivilToJd(arg.dt)
  {
    if !arg.PyDateTime? then
      Err(TypeError)
    else
      Ok(CivilToJd(arg.dt))
  }

  /**
   * One day later is the next day of the hybrid calendar at the same time of
   * day: Julian through 4 October 1582, then 15 October 1582, then Gregorian.
   */
  lemma NextJdIsNextDay(jd: real)
    ensures JdToCivil(jd).Ok? && JdToCivil(jd + 1.0).Ok? ==>
      var r, s := JdToCivil(jd).value, JdToCivil(jd + 1.0).value;
      s.Date() == HybridNextDay(r.Date()) &&
      (s.hour, s.minute, s.second, s.microsecond) == (r.hour, r.minute, r.second, r.microsecond)
  {
    if JdToCivil(jd).Ok? && JdToCivil(jd + 1.0).Ok? {
      assert MinJd <= jd;
      JdToCivilConstructs(jd);
      JdToCivilConstructs(jd + 1.0);
      FieldsOfNextJd(jd);
    }
  }

  /** Julian day 2268991.5 is 29 February 1500 in the Julian calendar, which `datetime` rejects: `ValueError`. */
  lemma JulianLeapDayRaises()
    ensures ForwardDate(JdInt(2268991.5)) == Date(1500, 2, 29)
    ensures JdToCivil(2268991.5) == Err(ValueError)
  {
    var date := Date(1500, 2, 29);
    assert ForwardDate(2268992) == date by {
      assert DayNumber.JulianDayNumber(date) == 2268992;
      DayNumber.DateOfJulianDayNumber(date);
    }
    FieldsOfSplit(2268991.5, 2268992, 0.0);
    assert !GregorianLeap(1500);
  }
}
