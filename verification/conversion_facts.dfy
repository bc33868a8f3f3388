/**
 * What the two directions of the packaged converter compute, stated against
 * the calendar: which branch the correction takes, which calendar each
 * branch lands in, which Julian days give fields the `datetime` constructor
 * accepts, how consecutive day numbers step through the calendar, and the
 * reverse direction's structure.
 */
module ConversionFacts {
  import opened PyRuntime
  import opened Calendar
  import opened PyDateTime
  import opened DayNumber
  import opened JulianDay

  /** The date the forward direction decodes for `jd_int = n`: Gregorian past the epoch, Julian up to it. */
  function ForwardDate(n: int): Date {
    if n > GregorianEpoch then DateOfDayNumber(GregorianShift(n)) else DateOfDayNumber(n)
  }

  /** Smallest Julian day the forward direction maps into year 1: 1 January 1, 00:00. */
  const MinJd: real := 1721423.5

  /** Julian day of 1 January 10000, 00:00, where year 9999 ends. */
  const MaxJd: real := 5373484.5

  /**
   * For a Julian day from -0.5 on, the forward direction is: split `jd + 0.5`
   * into the day number `n` and the fraction `f`, decode `n` to a date and
   * `f` to clock fields.
   */
  lemma FieldsOfJd(jd: real)
    requires -0.5 <= jd
    ensures var n := JdInt(jd);
      var f := SplitJd(jd).frac;
      var date := ForwardDate(n);
      var k := ClockOf(f);
      && 0 <= n && 0.0 <= f < 1.0 && n as real + f == jd + 0.5
      && Fields(jd) == DateTime(date.year, date.month, date.day, k.hour, k.minute, k.second, k.microsecond)
  {
    var n := JdInt(jd);
    var f := SplitJd(jd).frac;
    assert 0 <= n && n as real + f == jd + 0.5 by {
      TruncOfInt(Trunc(jd + 0.5));
    }
    var b := CorrectedDay(n);
    assert 0 <= b && DateOfDayNumber(b) == ForwardDate(n);
    var date := ForwardDate(n);
    assert CalendarDayOf(b, f) == CalendarDay(date.year, date.month, date.day as real + f) by {
      CalendarDayOfIsDecode(b, f);
    }
    assert 1 <= date.day by {
      DateOfDayNumberIsJulian(b);
    }
    TruncOfIntPlusFrac(date.day, f);
    TruncOfInt(date.day);
    var cal := CalendarDayOf(CorrectedDay(JdInt(jd)), SplitJd(jd).frac);
    assert cal.year == date.year && cal.month == date.month;
    assert Modf(cal.day) == Parts(f, date.day as real);
  }

  /**
   * A Julian day whose shifted value splits into a day number `n` and a
   * fraction `f` in [0, 1) is converted from exactly those two.
   */
  lemma FieldsOfSplit(jd: real, n: int, f: real)
    requires 0 <= n && 0.0 <= f < 1.0 && jd + 0.5 == n as real + f
    ensures JdInt(jd) == n && SplitJd(jd).frac == f
    ensures var date := ForwardDate(n);
      var k := ClockOf(f);
      Fields(jd) == DateTime(date.year, date.month, date.day, k.hour, k.minute, k.second, k.microsecond)
  {
    assert SplitJd(jd) == Parts(f, n as real) by {
      TruncOfIntPlusFrac(n, f);
    }
    TruncOfInt(n);
    FieldsOfJd(jd);
  }

  /**
   * The Gregorian correction applies exactly when `jd_int > 2299160`, that
   * is exactly from Julian day 2299160.5 (15 October 1582, 00:00) on, and it
   * then changes the day count; otherwise `b = jd_int`.
   */
  lemma CorrectionBranch(jd: real)
    ensures JdInt(jd) > GregorianEpoch <==> jd >= 2299160.5
    ensures JdInt(jd) > GregorianEpoch <==> CorrectedDay(JdInt(jd)) != JdInt(jd)
  {
    TruncOfInt(Trunc(jd + 0.5));
  }

  /**
   * The forward direction's fields always lie in the hybrid calendar: a
   * Gregorian date from 15 October 1582 on past the epoch, a Julian date
   * before 5 October 1582 up to it, and a valid time of day. In particular
   * the month is 1..12 and the day lies within that month's length.
   */
  lemma FieldsInHybridCalendar(jd: real)
    requires -0.5 <= jd
    ensures var dt := Fields(jd);
      && ValidTime(dt.hour, dt.minute, dt.second, dt.microsecond)
      && 1 <= dt.month <= 12
      && (jd >= 2299160.5 ==> ValidGregorian(dt.Date()) && !Before(dt.Date(), ReformDate))
      && (jd < 2299160.5 ==> ValidJulian(dt.Date()) && Before(dt.Date(), Date(1582, 10, 5)))
  {
    FieldsOfJd(jd);
    CorrectionBranch(jd);
    var n := JdInt(jd);
    ClockOfFraction(SplitJd(jd).frac);
    if n > GregorianEpoch {
      GregorianDayNumberOfDate(n);
      ShiftedDateFromReform(n);
    } else {
      DateOfDayNumberIsJulian(n);
      UnshiftedDateBeforeReform(n);
    }
  }

  /** From the reform to the end of year 9999 the forward direction's fields are always accepted. */
  lemma ForwardSucceedsAfterReform(jd: real)
    requires 2299160.5 <= jd < MaxJd
    ensures Valid(Fields(jd))
  {
    FieldsOfJd(jd);
    FieldsInHybridCalendar(jd);
    var n := JdInt(jd);
    GregorianDayNumberOfDate(n);
    GregorianYearUpTo9999(ForwardDate(n));
  }

  /**
   * Before the reform the forward direction decodes Julian dates of years
   * 1..1582 with a valid time of day, and the `datetime` constructor
   * rejects exactly those that the Gregorian rule lacks: 29 February of a
   * century year not divisible by 400.
   */
  lemma ForwardBeforeReform(jd: real)
    requires MinJd <= jd < 2299160.5
    ensures var dt := Fields(jd);
      && 1 <= dt.year <= 1582
      && ValidTime(dt.hour, dt.minute, dt.second, dt.microsecond)
      && (!Valid(dt) <==> dt.month == 2 && dt.day == 29 && !GregorianLeap(dt.year))
  {
    FieldsOfJd(jd);
    FieldsInHybridCalendar(jd);
    var n := JdInt(jd);
    JulianDayNumberOfDate(n);
    DateOfDayNumberIsJulian(n);
    JulianYearFromOne(ForwardDate(n));
  }

  /** Below `jd = -0.5` the decoded year is at most -4712. */
  lemma FieldsBeforeHalfDay(jd: real)
    requires jd < -0.5
    ensures Fields(jd).year <= -4712
  {
    var n := JdInt(jd);
    TruncOfInt(Trunc(jd + 0.5));
    var c := n + 1524;
    var x := ((c as real) - 122.1) / 365.25;
    assert x < 4.0;
    assert Trunc(x) <= 3;
  }

  /** The fields are accepted only for Julian days from 1 January 1 up to the end of year 9999. */
  lemma ValidFieldsInRange(jd: real)
    requires Valid(Fields(jd))
    ensures MinJd <= jd < MaxJd
  {
    if jd < -0.5 {
      FieldsBeforeHalfDay(jd);
    }
    FieldsOfJd(jd);
    var n := JdInt(jd);
    var date := ForwardDate(n);
    if n > GregorianEpoch {
      GregorianDayNumberOfDate(n);
      GregorianYearUpTo9999(date);
    } else {
      JulianDayNumberOfDate(n);
      DateOfDayNumberIsJulian(n);
      JulianYearFromOne(date);
    }
  }

  /**
   * A Julian day before the reform whose Julian date is a 29 February that
   * the Gregorian rule lacks, such as 29 February 1500.
   */
  predicate JulianOnlyLeapDay(jd: real) {
    var date := ForwardDate(JdInt(jd));
    jd < 2299160.5 && date.month == 2 && date.day == 29 && !GregorianLeap(date.year)
  }

  /**
   * The `datetime` constructor accepts the forward direction's fields
   * exactly on [1 January 1, 1 January 10000) less the Julian-only leap days.
   */
  lemma ValidFieldsExactly(jd: real)
    ensures Valid(Fields(jd)) <==> MinJd <= jd < MaxJd && !JulianOnlyLeapDay(jd)
  {
    if Valid(Fields(jd)) {
      ValidFieldsInRange(jd);
    }
    if MinJd <= jd {
      FieldsOfJd(jd);
      if jd < 2299160.5 {
        ForwardBeforeReform(jd);
      } else if jd < MaxJd {
        ForwardSucceedsAfterReform(jd);
      }
    }
  }

  /** Whether the reverse direction's comparison with `datetime(1582, 10, 15)` holds is decided by the date alone. */
  lemma AtOrAfterReformByDate(dt: DateTime)
    requires ValidTime(dt.hour, dt.minute, dt.second, dt.microsecond)
    ensures AtOrAfter(dt, ReformInstant) <==> !Before(dt.Date(), ReformDate)
  {
  }

  /**
   * The reverse direction applies `b = 2 - a + int(a / 4)`, with `a` the
   * March-based year divided by 100, exactly from 15 October 1582 on, and
   * `b = 0` before; the rest is the Julian day number less one half plus
   * the time of day as a fraction of a day in [0, 1).
   */
  lemma ReverseStructure(dt: DateTime)
    requires Valid(dt)
    ensures var date := dt.Date();
      var frac := DayFraction(dt.hour, dt.minute, dt.second, dt.microsecond);
      var b := CivilToJd(dt) - (JulianDayNumber(date) as real - 0.5) - frac;
      && 0.0 <= frac < 1.0
      && (!Before(date, ReformDate) ==> b == GregorianCorrection(MarchYear(date)) as real)
      && (Before(date, ReformDate) ==> b == 0.0)
  {
    AtOrAfterReformByDate(dt);
    DayFractionRange(dt.hour, dt.minute, dt.second, dt.microsecond);
  }

  /** At midnight the reverse result is a whole number minus one half. */
  lemma MidnightIsHalfDay(dt: DateTime)
    requires Valid(dt) && dt.hour == 0 && dt.minute == 0 && dt.second == 0 && dt.microsecond == 0
    ensures (CivilToJd(dt) + 0.5).Floor as real == CivilToJd(dt) + 0.5
  {
    var n := if AtOrAfter(dt, ReformInstant) then GregorianDayNumber(dt.Date()) else JulianDayNumber(dt.Date());
    assert DayFraction(0, 0, 0, 0) == 0.0;
    assert CivilToJd(dt) + 0.5 == n as real;
  }

  /**
   * The day after a date of the converter's hybrid calendar: Julian days
   * step by the Julian rule, 4 October 1582 is followed by 15 October 1582,
   * and from the reform on days step by the Gregorian rule.
   */
  function HybridNextDay(d: Date): Date
    requires 1 <= d.month <= 12 && 1 <= d.day
  {
    if d == Date(1582, 10, 4) then ReformDate
    else if Before(d, ReformDate) then NextDay(d, JulianLeap(d.year))
    else NextDay(d, GregorianLeap(d.year))
  }

  /** Day number 2299160 is 4 October 1582 and the next one, past the epoch, is 15 October 1582. */
  lemma ReformJump()
    ensures ForwardDate(GregorianEpoch) == Date(1582, 10, 4)
    ensures ForwardDate(GregorianEpoch + 1) == ReformDate
  {
    assert JulianDayNumber(Date(1582, 10, 4)) == GregorianEpoch;
    DateOfJulianDayNumber(Date(1582, 10, 4));
    assert GregorianDayNumber(ReformDate) == GregorianEpoch + 1;
    DateOfGregorianDayNumber(ReformDate);
  }

  /**
   * Consecutive day numbers decode to consecutive days of the hybrid
   * calendar: the forward direction neither skips nor repeats a date, apart
   * from the ten days the reform removed.
   */
  lemma ForwardDateIsNextDay(n: int)
    ensures 1 <= ForwardDate(n).month <= 12 && 1 <= ForwardDate(n).day
    ensures ForwardDate(n + 1) == HybridNextDay(ForwardDate(n))
  {
    var date := ForwardDate(n);
    if n < GregorianEpoch {
      DecodeOfNextDay(n);
      assert Before(date, ReformDate) && date != Date(1582, 10, 4) by {
        JulianDayNumberOfDate(n);
        UnshiftedDateBeforeReform(n);
        assert JulianDayNumber(Date(1582, 10, 4)) == GregorianEpoch;
      }
    } else if n == GregorianEpoch {
      ReformJump();
    } else {
      ShiftedDecodeOfNextDay(n);
      ShiftedDateFromReform(n);
    }
  }

  /** The forward fields one day later: the next hybrid-calendar day, the same clock. */
  lemma FieldsOfNextJd(jd: real)
    requires -0.5 <= jd
    ensures 1 <= Fields(jd).month <= 12 && 1 <= Fields(jd).day
    ensures var r, s := Fields(jd), Fields(jd + 1.0);
      s.Date() == HybridNextDay(r.Date()) &&
      (s.hour, s.minute, s.second, s.microsecond) == (r.hour, r.minute, r.second, r.microsecond)
  {
    var n := JdInt(jd);
    var f := SplitJd(jd).frac;
    FieldsOfJd(jd);
    FieldsOfSplit(jd + 1.0, n + 1, f);
    ForwardDateIsNextDay(n);
  }
}
