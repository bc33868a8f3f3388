/**
 * The steps of the packaged converter, `jd_to_datetime` and
 * `datetime_to_jd`, written one for one on exact reals with Python's
 * truncating `int()` and `math.modf`. Their contracts and the lemmas at the
 * end connect each step to the integer forms of module DayNumber; module
 * Conversion assembles the two entry points.
 */
module JulianDay {
  import opened PyRuntime
  import opened Calendar
  import opened PyDateTime
  import DayNumber

  /** One microsecond as a fraction of a day. */
  const Microsecond: real := 1.0 / 86400000000.0

  /** The instant `datetime(1582, 10, 15)` that the reverse direction compares against. */
  const ReformInstant: DateTime := DateTime(1582, 10, 15, 0, 0, 0, 0)

  /** Shift the noon-based day to midnight and split it: `math.modf(jd + 0.5)`. */
  function SplitJd(jd: real): Parts {
    Modf(jd + 0.5)
  }

  /** The integer part `jd_int` of the shifted Julian day. */
  function JdInt(jd: real): int {
    Trunc(SplitJd(jd).whole)
  }

  /**
   * The Gregorian correction of the forward direction: `b`. Past the epoch
   * it is the integer shift of DayNumber, which adds back the days the
   * Gregorian calendar dropped; up to it, none.
   */
  function CorrectedDay(jdInt: int): (b: int)
    ensures jdInt > DayNumber.GregorianEpoch ==> b == DayNumber.GregorianShift(jdInt)
    ensures jdInt <= DayNumber.GregorianEpoch ==> b == jdInt
  {
    if jdInt > DayNumber.GregorianEpoch then
      var alpha := Trunc(((jdInt as real) - 1867216.25) / 36524.25);
      assert alpha == DayNumber.CenturyIndex(jdInt) by {
        var k := 4 * jdInt - 7468865;
        assert ((jdInt as real) - 1867216.25) / 36524.25 == k as real / 146097 as real;
        TruncOfQuotient(k, 146097);
      }
      assert Trunc(alpha as real / 4.0) == alpha / 4 by {
        assert alpha as real / 4.0 == alpha as real / 4 as real;
        TruncOfQuotient(alpha, 4);
      }
      jdInt + 1 + alpha - Trunc(alpha as real / 4.0)
    else
      jdInt
  }

  /** Year, month and the real-valued day whose fraction is the time of day. */
  datatype CalendarDay = CalendarDay(year: int, month: int, day: real)

  /** From `b` and the day fraction to year, month and fractional day. */
  function CalendarDayOf(b: int, jdFrac: real): CalendarDay {
    var c := b + 1524;
    var d := Trunc(((c as real) - 122.1) / 365.25);
    var e := Trunc(365.25 * (d as real));
    var g := Trunc(((c - e) as real) / 30.6001);
    var day := (c - e) as real + jdFrac - Trunc(30.6001 * (g as real)) as real;
    var month := if (g as real) < 13.5 then g - 1 else g - 13;
    var year := if (month as real) > 2.5 then d - 4716 else d - 4715;
    CalendarDay(year, month, day)
  }

  datatype Clock = Clock(hour: int, minute: int, second: int, microsecond: int)

  /** The time of day from the fraction of the day: three `modf` steps and a truncation. */
  function ClockOf(dayFrac: real): Clock {
    var hours := Modf(dayFrac * 24.0);
    var minutes := Modf(hours.frac * 60.0);
    var seconds := Modf(minutes.frac * 60.0);
    Clock(Trunc(hours.whole), Trunc(minutes.whole), Trunc(seconds.whole),
          Trunc(seconds.frac * 1000000.0))
  }

  /** The time of day as a fraction of a day, as the reverse direction adds it. */
  function DayFraction(hour: int, minute: int, second: int, microsecond: int): real {
    (hour as real + minute as real / 60.0 + second as real / 3600.0
     + microsecond as real / 3600.0 / 1000000.0) / 24.0
  }

  /** The seven integers the forward direction hands to the `datetime` constructor. */
  function Fields(jd: real): DateTime {
    var split := SplitJd(jd);
    var cal := CalendarDayOf(CorrectedDay(JdInt(jd)), split.frac);
    var daySplit := Modf(cal.day);
    var clock := ClockOf(daySplit.frac);
    DateTime(cal.year, cal.month, Trunc(daySplit.whole),
             clock.hour, clock.minute, clock.second, clock.microsecond)
  }

  /**
   * `datetime_to_jd` on a datetime. From year 1 on its truncations are the
   * integer forms of DayNumber: the result is the Gregorian day number of
   * the date from the reform instant on, the Julian one before it, less one
   * half, plus the time of day as a fraction of a day.
   */
  function CivilToJd(dt: DateTime): (r: real)
    ensures 1 <= dt.year && 1 <= dt.month ==>
      var date := dt.Date();
      var n := if AtOrAfter(dt, ReformInstant) then DayNumber.GregorianDayNumber(date)
               else DayNumber.JulianDayNumber(date);
      r == n as real - 0.5 + DayFraction(dt.hour, dt.minute, dt.second, dt.microsecond)
  {
    var year := if dt.month <= 2 then dt.year - 1 else dt.year;
    var month := if dt.month <= 2 then dt.month + 12 else dt.month;
    var b :=
      if AtOrAfter(dt, ReformInstant) then
        var a := Trunc(year as real / 100.0);
        2 - a + Trunc(a as real / 4.0)
      else
        0;
    var jd := (Trunc(365.25 * ((year + 4716) as real)) + Trunc(30.6001 * ((month + 1) as real))
               + dt.day + b) as real - 1524.5;
    assert 1 <= dt.year && 1 <= dt.month ==>
      && Trunc(365.25 * ((year + 4716) as real)) == DayNumber.YearStart(year + 4716)
      && Trunc(30.6001 * ((month + 1) as real)) == DayNumber.MonthStart(month + 1)
      && b == (if AtOrAfter(dt, ReformInstant) then DayNumber.GregorianCorrection(year) else 0)
    by {
      if 1 <= dt.year && 1 <= dt.month {
        ReverseTerms(year, month);
      }
    }
    jd + DayFraction(dt.hour, dt.minute, dt.second, dt.microsecond)
  }

  /** The three truncations of the reverse direction on a non-negative March-based year and month. */
  lemma ReverseTerms(year: int, month: int)
    requires 0 <= year && 0 <= month
    ensures Trunc(365.25 * ((year + 4716) as real)) == DayNumber.YearStart(year + 4716)
    ensures Trunc(30.6001 * ((month + 1) as real)) == DayNumber.MonthStart(month + 1)
    ensures var a := Trunc(year as real / 100.0);
      2 - a + Trunc(a as real / 4.0) == DayNumber.GregorianCorrection(year)
  {
    TruncYearStart(year + 4716);
    TruncMonthStart(month + 1);
    assert year as real / 100.0 == year as real / 100 as real;
    TruncOfQuotient(year, 100);
    var a := year / 100;
    assert a as real / 4.0 == a as real / 4 as real;
    TruncOfQuotient(a, 4);
  }

  /** `int((c - 122.1) / 365.25)` for c from 123 on. */
  lemma TruncYearIndex(c: int)
    requires 123 <= c
    ensures Trunc(((c as real) - 122.1) / 365.25) == DayNumber.YearIndex(c)
  {
    assert ((c as real) - 122.1) / 365.25 == (100 * c - 12210) as real / 36525 as real;
    TruncOfQuotient(100 * c - 12210, 36525);
  }

  /** `int(365.25 * d)` for non-negative d. */
  lemma TruncYearStart(d: int)
    requires 0 <= d
    ensures Trunc(365.25 * (d as real)) == DayNumber.YearStart(d)
  {
    assert 365.25 * (d as real) == (1461 * d) as real / 4 as real;
    TruncOfQuotient(1461 * d, 4);
  }

  /** `int(r / 30.6001)` for non-negative r. */
  lemma TruncMonthIndex(r: int)
    requires 0 <= r
    ensures Trunc((r as real) / 30.6001) == DayNumber.MonthIndex(r)
  {
    assert (r as real) / 30.6001 == (10000 * r) as real / 306001 as real;
    TruncOfQuotient(10000 * r, 306001);
  }

  /** `int(30.6001 * g)` for non-negative g. */
  lemma TruncMonthStart(g: int)
    requires 0 <= g
    ensures Trunc(30.6001 * (g as real)) == DayNumber.MonthStart(g)
  {
    assert 30.6001 * (g as real) == (306001 * g) as real / 10000 as real;
    TruncOfQuotient(306001 * g, 10000);
  }

  /** On a non-negative day count the real-valued date steps compute DayNumber's integer date. */
  lemma CalendarDayOfIsDecode(b: int, f: real)
    requires 0 <= b
    requires 0.0 <= f < 1.0
    ensures var date := DayNumber.DateOfDayNumber(b);
      CalendarDayOf(b, f) == CalendarDay(date.year, date.month, date.day as real + f)
  {
    var c := b + 1524;
    var d := Trunc(((c as real) - 122.1) / 365.25);
    var e := Trunc(365.25 * (d as real));
    var g := Trunc(((c - e) as real) / 30.6001);
    var start := Trunc(30.6001 * (g as real));
    var month := if (g as real) < 13.5 then g - 1 else g - 13;
    var year := if (month as real) > 2.5 then d - 4716 else d - 4715;
    var day := (c - e) as real + f - start as real;
    assert CalendarDayOf(b, f) == CalendarDay(year, month, day);
    assert d == DayNumber.YearIndex(c) by {
      TruncYearIndex(c);
    }
    assert e == DayNumber.YearStart(d) by {
      TruncYearStart(d);
    }
    assert 123 <= c - e by {
      DayNumber.RemainderRange(c);
    }
    assert g == DayNumber.MonthIndex(c - e) by {
      TruncMonthIndex(c - e);
    }
    assert 0 <= g by {
      DayNumber.MonthIndexRange(c - e);
    }
    assert start == DayNumber.MonthStart(g) by {
      TruncMonthStart(g);
    }
    DecodeSteps(b, d, e, g, start, month, year);
  }

  /**
   * The integer decode of DayNumber, given its intermediate values and the
   * month and year chosen by the real comparisons `g < 13.5` and `month > 2.5`.
   */
  lemma DecodeSteps(b: int, d: int, e: int, g: int, start: int, month: int, year: int)
    requires d == DayNumber.YearIndex(b + 1524) && e == DayNumber.YearStart(d)
    requires g == DayNumber.MonthIndex(b + 1524 - e) && start == DayNumber.MonthStart(g)
    requires month == if (g as real) < 13.5 then g - 1 else g - 13
    requires year == if (month as real) > 2.5 then d - 4716 else d - 4715
    ensures DayNumber.DateOfDayNumber(b) == Date(year, month, b + 1524 - e - start)
  {
    DayNumber.RemainderRange(b + 1524);
    DayNumber.MonthIndexRange(b + 1524 - e);
  }

  /** A valid time of day is a fraction of a day in [0, 1). */
  lemma DayFractionRange(hour: int, minute: int, second: int, microsecond: int)
    requires ValidTime(hour, minute, second, microsecond)
    ensures 0.0 <= DayFraction(hour, minute, second, microsecond) < 1.0
  {
    var rest := minute as real / 60.0 + second as real / 3600.0 + microsecond as real / 3600.0 / 1000000.0;
    assert rest < 1.0;
  }

  /**
   * Breaking a fraction of a day into clock fields gives valid fields that
   * lose less than one microsecond: the truncation of the last step.
   */
  lemma ClockOfFraction(f: real)
    requires 0.0 <= f < 1.0
    ensures var k := ClockOf(f);
      && ValidTime(k.hour, k.minute, k.second, k.microsecond)
      && DayFraction(k.hour, k.minute, k.second, k.microsecond) <= f
      && f < DayFraction(k.hour, k.minute, k.second, k.microsecond) + Microsecond
  {
    var hours := Modf(f * 24.0);
    var minutes := Modf(hours.frac * 60.0);
    var seconds := Modf(minutes.frac * 60.0);
    var k := ClockOf(f);
    var r4 := seconds.frac * 1000000.0 - k.microsecond as real;
    assert 0.0 <= r4 < 1.0;
    assert seconds.frac == (k.microsecond as real + r4) / 1000000.0;
    assert minutes.frac == (k.second as real + seconds.frac) / 60.0;
    assert hours.frac == (k.minute as real + minutes.frac) / 60.0;
    assert f == (k.hour as real + hours.frac) / 24.0;
    assert f == DayFraction(k.hour, k.minute, k.second, k.microsecond) + r4 / 86400000000.0;
  }

  /** The clock fields of a valid time survive the reverse fraction and the forward breakdown. */
  lemma ClockOfDayFraction(hour: int, minute: int, second: int, microsecond: int)
    requires ValidTime(hour, minute, second, microsecond)
    ensures ClockOf(DayFraction(hour, minute, second, microsecond)) == Clock(hour, minute, second, microsecond)
  {
    var f := DayFraction(hour, minute, second, microsecond);
    var r1 := minute as real / 60.0 + second as real / 3600.0 + microsecond as real / 3600000000.0;
    assert f * 24.0 == hour as real + r1;
    TruncOfIntPlusFrac(hour, r1);
    var r2 := second as real / 60.0 + microsecond as real / 60000000.0;
    assert r1 * 60.0 == minute as real + r2;
    TruncOfIntPlusFrac(minute, r2);
    var r3 := microsecond as real / 1000000.0;
    assert r2 * 60.0 == second as real + r3;
    TruncOfIntPlusFrac(second, r3);
    assert r3 * 1000000.0 == microsecond as real;
    TruncOfInt(microsecond);
  }
}
