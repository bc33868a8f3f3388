/**
 * The earlier class-based converter: `JulianDay.juliandate_to_utc` with its
 * sexagesimal helpers. It repeats the forward direction on floats (the
 * integral part of the shifted day is kept as a float) and builds the result
 * from a `datetime.date` and a `datetime.time`.
 */
module LegacyJulianDay {
  import opened PyRuntime
  import opened Calendar
  import opened PyDateTime
  import DayNumber
  import Packaged = JulianDay
  import Conversion

  /** Degrees or hours, minutes, and seconds with their fraction. */
  datatype Sexagesimal = Sexagesimal(integral: int, minutes: int, seconds: real)

  /** `_decimal_to_sexagesimal`: whole part, whole minutes of the rest, and the remaining seconds. */
  function DecimalToSexagesimal(x: real): (r: Sexagesimal)
    ensures 0.0 <= x ==> r.integral == x.Floor
    ensures 0.0 <= x ==> 0 <= r.minutes <= 59 && 0.0 <= r.seconds < 60.0
    ensures r.integral as real + r.minutes as real / 60.0 + r.seconds / 3600.0 == x
  {
    var p := Modf(x);
    var q := Modf(p.frac * 60.0);
    TruncOfInt(Trunc(x));
    TruncOfInt(Trunc(p.frac * 60.0));
    Sexagesimal(Trunc(p.whole), Trunc(q.whole), q.frac * 60.0)
  }

  /**
   * `datetime.time(...)`: `OverflowError` on an argument beyond a C `int`,
   * then the clock when its fields are in range, `ValueError` otherwise.
   */
  function MakeTime(hour: int, minute: int, second: int, microsecond: int): (r: Result<Packaged.Clock>)
    ensures var fits := IsCInt(hour) && IsCInt(minute) && IsCInt(second) && IsCInt(microsecond);
      && (r.Ok? <==> ValidTime(hour, minute, second, microsecond))
      && (r.Ok? ==> r.value == Packaged.Clock(hour, minute, second, microsecond))
      && (r == Err(OverflowError) <==> !fits)
      && (r == Err(ValueError) <==> fits && !ValidTime(hour, minute, second, microsecond))
  {
    if !(IsCInt(hour) && IsCInt(minute) && IsCInt(second) && IsCInt(microsecond)) then Err(OverflowError)
    else if ValidTime(hour, minute, second, microsecond) then Ok(Packaged.Clock(hour, minute, second, microsecond))
    else Err(ValueError)
  }

  /**
   * `_decimal_to_time`: hours to a clock time with truncated microseconds.
   * Hours in [0, 24) always give a time, less than a microsecond below the
   * input; from 24 hours on the constructor raises `ValueError`, and from
   * 2^31 hours on (or at most -2^31 - 1) argument parsing raises
   * `OverflowError`.
   */
  function DecimalToTime(hours: real): (r: Result<Packaged.Clock>)
    ensures 0.0 <= hours < 24.0 ==> r.Ok?
    ensures 24.0 <= hours < 2147483648.0 ==> r == Err(ValueError)
    ensures 2147483648.0 <= hours || hours <= -2147483649.0 ==> r == Err(OverflowError)
    ensures 0.0 <= hours < 24.0 ==>
      var k := r.value;
      var back := k.hour as real + k.minute as real / 60.0
                  + (k.second as real + k.microsecond as real / 1000000.0) / 3600.0;
      back <= hours < back + Packaged.Microsecond * 24.0
  {
    var hms := DecimalToSexagesimal(hours);
    var s := Modf(hms.seconds);
    MakeTime(hms.integral, hms.minutes, Trunc(s.whole), Trunc(s.frac * 1000000.0))
  }

  /**
   * `datetime.date(...)`: `OverflowError` on an argument beyond a C `int`,
   * then the date when it exists for Python, `ValueError` otherwise.
   */
  function MakeDate(year: int, month: int, day: int): (r: Result<Date>)
    ensures var fits := IsCInt(year) && IsCInt(month) && IsCInt(day);
      var valid := MinYear <= year <= MaxYear && ValidGregorian(Date(year, month, day));
      && (r.Ok? <==> valid)
      && (r.Ok? ==> r.value == Date(year, month, day))
      && (r == Err(OverflowError) <==> !fits)
      && (r == Err(ValueError) <==> fits && !valid)
  {
    if !(IsCInt(year) && IsCInt(month) && IsCInt(day)) then Err(OverflowError)
    else if MinYear <= year <= MaxYear && ValidGregorian(Date(year, month, day)) then Ok(Date(year, month, day))
    else Err(ValueError)
  }

  /** The Gregorian correction on the float `jd_int`; on an integral float it is the packaged `b`. */
  function LegacyCorrectedDay(jdInt: real): (b: real)
    ensures jdInt == jdInt.Floor as real ==> b == Packaged.CorrectedDay(jdInt.Floor) as real
  {
    if jdInt > DayNumber.GregorianEpoch as real then
      var a := Trunc((jdInt - 1867216.25) / 36524.25);
      jdInt + 1.0 + a as real - Trunc(a as real / 4.0) as real
    else
      jdInt
  }

  /**
   * Year, month and fractional day from the float `b`, with the same
   * constants as the packaged code; on an integral float `b` they are the
   * packaged ones.
   */
  function LegacyCalendarDay(b: real, jdFrac: real): (r: Packaged.CalendarDay)
    ensures b == b.Floor as real ==> r == Packaged.CalendarDayOf(b.Floor, jdFrac)
  {
    var c := b + 1524.0;
    var d := Trunc((c - 122.1) / 365.25);
    var e := Trunc(365.25 * (d as real));
    var g := Trunc((c - e as real) / 30.6001);
    assert b == b.Floor as real ==>
      && c == (b.Floor + 1524) as real
      && c - e as real == (b.Floor + 1524 - e) as real;
    var day := c - e as real + jdFrac - Trunc(30.6001 * (g as real)) as real;
    var month := if (g as real) < 13.5 then g - 1 else g - 13;
    var year := if (month as real) > 2.5 then d - 4716 else d - 4715;
    Packaged.CalendarDay(year, month, day)
  }

  /**
   * The last steps of `juliandate_to_utc`: `datetime.date` from the integer
   * fields, `_decimal_to_time` of the day fraction in hours, then
   * `datetime.combine`. On a `modf` fraction this succeeds, and raises, as
   * the one `datetime` constructor call on the packaged clock breakdown.
   */
  function DateAndTime(year: int, month: int, day: int, dayFrac: real): (r: Result<DateTime>)
    ensures -1.0 < dayFrac < 1.0 ==>
      var k := Packaged.ClockOf(dayFrac);
      r == MakeDateTime(year, month, day, k.hour, k.minute, k.second, k.microsecond)
  {
    DecimalToTimeAgrees(dayFrac);
    match MakeDate(year, month, day)
    case Err(err) => Err(err)
    case Ok(date) =>
      match DecimalToTime(dayFrac * 24.0)
      case Err(err) => Err(err)
      case Ok(time) =>
        Ok(DateTime(date.year, date.month, date.day, time.hour, time.minute, time.second, time.microsecond))
  }

  /** The class holding one Julian day. */
  datatype JulianDay = JulianDay(julianDay: real) {

    /**
     * `juliandate_to_utc`: the forward conversion on floats, then the date
     * and the time combined. It agrees with `jd_to_datetime` on every
     * Julian day: the same datetime, or the same exception.
     */
    function JuliandateToUtc(): (r: Result<DateTime>)
      ensures r == Conversion.JdToCivil(julianDay)
    {
      var split := Modf(julianDay + 0.5);
      assert split == Packaged.SplitJd(julianDay);
      var cal := LegacyCalendarDay(LegacyCorrectedDay(split.whole), split.frac);
      assert cal == Packaged.CalendarDayOf(Packaged.CorrectedDay(Packaged.JdInt(julianDay)), split.frac) by {
        TruncOfInt(Trunc(julianDay + 0.5));
      }
      var daySplit := Modf(cal.day);
      var day := Trunc(daySplit.whole);
      var k := Packaged.ClockOf(daySplit.frac);
      assert Packaged.Fields(julianDay) == DateTime(cal.year, cal.month, day, k.hour, k.minute, k.second, k.microsecond);
      Conversion.JdToCivilConstructs(julianDay);
      assert -1.0 < daySplit.frac < 1.0;
      DateAndTime(cal.year, cal.month, day, daySplit.frac)
    }
  }

  /** `_decimal_to_time` of the day fraction times 24 is the packaged clock breakdown. */
  lemma DecimalToTimeAgrees(f: real)
    ensures var k := Packaged.ClockOf(f);
      DecimalToTime(f * 24.0) == MakeTime(k.hour, k.minute, k.second, k.microsecond)
  {
    TruncOfInt(Trunc(f * 24.0));
  }
}
