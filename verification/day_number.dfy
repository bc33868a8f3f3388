/**
 * The integer core of Meeus's Julian-day procedure (Astronomical Algorithms,
 * chapter 7). Every truncation the converter performs against 365.25,
 * 30.6001, 122.1 and 36524.25 is, on the non-negative values it sees, a
 * floor division by an integer constant; this module states the algorithm in
 * that form and proves that it is a bijection between day numbers and dates,
 * in the Julian calendar and, through the century correction, in the
 * Gregorian one.
 *
 * A day number is the integer Julian day of a date's noon, that is the
 * Julian day of its midnight plus one half.
 */
module DayNumber {
  import opened Calendar

  /** `int(365.25 * y)`: days from the algorithm's epoch to 1 March of its year `y`, plus a constant. */
  function YearStart(y: int): int {
    (1461 * y) / 4
  }

  /** `int(30.6001 * g)`: day offset of March-based month `g - 1` within its year, plus 122. */
  function MonthStart(g: int): int {
    (306001 * g) / 10000
  }

  /** `int((c - 122.1) / 365.25)`: the algorithm's year index `d` of the shifted count `c`. */
  function YearIndex(c: int): int {
    (100 * c - 12210) / 36525
  }

  /** `int(r / 30.6001)`: the month index `g` of the day `r` within a March-based year. */
  function MonthIndex(r: int): int {
    (10000 * r) / 306001
  }

  /** `alpha = int((n - 1867216.25) / 36524.25)`: Gregorian centuries elapsed since 1 March 400. */
  function CenturyIndex(n: int): int {
    (4 * n - 7468865) / 146097
  }

  /**
   * The Julian-calendar day count `b` that the forward direction decodes for
   * Gregorian day number `n`: the days the Gregorian calendar dropped are added back.
   */
  function GregorianShift(n: int): int {
    var alpha := CenturyIndex(n);
    n + 1 + alpha - alpha / 4
  }

  /** January and February count as months 13 and 14 of the previous year. */
  function MarchYear(d: Date): int {
    if d.month <= 2 then d.year - 1 else d.year
  }

  function MarchMonth(d: Date): int {
    if d.month <= 2 then d.month + 12 else d.month
  }

  /** The reverse direction's sum without the correction term: the Julian-calendar day number. */
  function JulianDayNumber(d: Date): int {
    YearStart(MarchYear(d) + 4716) + MonthStart(MarchMonth(d) + 1) + d.day - 1524
  }

  /** The reverse direction's correction `b = 2 - a + int(a / 4)` with `a = int(year / 100)`. */
  function GregorianCorrection(marchYear: int): int {
    var a := marchYear / 100;
    2 - a + a / 4
  }

  /** The Gregorian-calendar day number of a date. */
  function GregorianDayNumber(d: Date): int {
    JulianDayNumber(d) + GregorianCorrection(MarchYear(d))
  }

  /** The forward direction's date arithmetic on integers: the Julian-calendar date of day count `b`. */
  function DateOfDayNumber(b: int): Date {
    var c := b + 1524;
    var d := YearIndex(c);
    var e := YearStart(d);
    var g := MonthIndex(c - e);
    var month := if g < 14 then g - 1 else g - 13;
    Date(if month >= 3 then d - 4716 else d - 4715, month, c - e - MonthStart(g))
  }

  /**
   * Within a year index the remainder `c - e` is a March-based day number
   * 123..488; it reaches 488 (a 29 February) only when the year index is 3
   * modulo 4, i.e. when the civil year is a Julian leap year.
   */
  lemma RemainderRange(c: int)
    ensures var r := c - YearStart(YearIndex(c));
      && 123 <= r <= 488
      && (r == 488 ==> YearIndex(c) % 4 == 3)
  {
    var d := YearIndex(c);
    var e := YearStart(d);
    assert 36525 * d <= 100 * c - 12210 < 36525 * d + 36525;
    assert 1461 * d == 4 * e + d % 4;
  }

  /**
   * The month index of a March-based day `r` and the day of month it leaves:
   * months 3..14, days within the month's length, 29 February only at r = 488.
   */
  lemma MonthIndexRange(r: int)
    requires 123 <= r <= 488
    ensures var g := MonthIndex(r);
      var month := if g < 14 then g - 1 else g - 13;
      var day := r - MonthStart(g);
      && 4 <= g <= 15
      && 1 <= day <= MonthLength(month, true)
      && (day <= MonthLength(month, false) || r == 488)
  {
    var g := MonthIndex(r);
    assert 306001 * g <= 10000 * r < 306001 * g + 306001;
    assert 4 <= g <= 15;
  }

  /** Every day count decodes to a valid Julian-calendar date. */
  lemma DateOfDayNumberIsJulian(b: int)
    ensures ValidJulian(DateOfDayNumber(b))
  {
    var c := b + 1524;
    RemainderRange(c);
    MonthIndexRange(c - YearStart(YearIndex(c)));
  }

  /** Decoding then encoding gives the day count back: no day count is lost. */
  lemma JulianDayNumberOfDate(b: int)
    ensures JulianDayNumber(DateOfDayNumber(b)) == b
  {
    var c := b + 1524;
    RemainderRange(c);
    MonthIndexRange(c - YearStart(YearIndex(c)));
  }

  /**
   * The March-based day `r` of a valid Julian date: 123..488, 488 only for a
   * 29 February, and its month index is the March-based month plus one.
   */
  lemma MonthOffset(date: Date)
    requires ValidJulian(date)
    ensures var m := MarchMonth(date);
      var r := MonthStart(m + 1) + date.day;
      && 123 <= r <= 488
      && (r == 488 ==> (MarchYear(date) + 4716) % 4 == 3)
      && (r == 488 ==> date.month == 2 && date.day == 29)
      && MonthIndex(r) == m + 1
  {
    var m := MarchMonth(date);
    var r := MonthStart(m + 1) + date.day;
    assert 306001 * (m + 1) <= 10000 * r < 306001 * (m + 2);
  }

  /** Year start plus a March-based day in range has year index `y` again. */
  lemma YearIndexOfStart(y: int, r: int)
    requires 123 <= r <= 488
    requires r == 488 ==> y % 4 == 3
    ensures YearIndex(YearStart(y) + r) == y
  {
    assert 1461 * y == 4 * YearStart(y) + y % 4;
  }

  /** The date decoded from year start `y` plus March-based day `r`. */
  lemma DecodeAt(b: int, y: int, r: int)
    requires b + 1524 == YearStart(y) + r
    requires 123 <= r <= 488 && (r == 488 ==> y % 4 == 3)
    ensures var g := MonthIndex(r);
      var month := if g < 14 then g - 1 else g - 13;
      DateOfDayNumber(b) == Date(if month >= 3 then y - 4716 else y - 4715, month, r - MonthStart(g))
  {
    YearIndexOfStart(y, r);
  }

  /** Encoding a valid Julian-calendar date then decoding gives the date back. */
  lemma DateOfJulianDayNumber(date: Date)
    requires ValidJulian(date)
    ensures DateOfDayNumber(JulianDayNumber(date)) == date
  {
    var y, m := MarchYear(date) + 4716, MarchMonth(date);
    var r := MonthStart(m + 1) + date.day;
    MonthOffset(date);
    DecodeAt(JulianDayNumber(date), y, r);
  }

  /** The year start split by centuries of the March-based year `y`. */
  lemma YearStartByCentury(y: int)
    ensures YearStart(y + 4716) == 36525 * (y / 100) + 1722519 + (1461 * (y % 100)) / 4
  {
    var a, rest := y / 100, y % 100;
    assert 1461 * (y + 4716) == 4 * (36525 * a + 1722519) + 1461 * rest;
  }

  /** A March-based year ending a century whose next year is a Gregorian leap year has a century 3 modulo 4. */
  lemma CenturyLeap(y: int)
    requires GregorianLeap(y + 1)
    requires y % 100 == 99
    ensures (y / 100) % 4 == 3
  {
    var a := y / 100;
    assert y + 1 == 100 * (a + 1);
    var t := (y + 1) / 400;
    assert 100 * (a + 1) == 400 * t;
    assert a + 1 == 4 * t;
  }

  /**
   * The century index of a Gregorian day number whose date lies in
   * March-based century `a`, at year `rest` of that century and March-based
   * day `off` of that year: it is `a - 4`.
   */
  lemma CenturyArithmetic(a: int, rest: int, off: int, n: int)
    requires 0 <= rest < 100
    requires 123 <= off <= 488
    requires off == 488 && rest == 99 ==> a % 4 == 3
    requires n == 36524 * a + a / 4 + 1720997 + (1461 * rest) / 4 + off
    ensures CenturyIndex(n) == a - 4
  {
    var x := (1461 * rest) / 4;
    assert 0 <= x <= 36159;
    assert x == 36159 ==> rest == 99;
    assert 146097 * (a - 4) <= 4 * n - 7468865 < 146097 * (a - 3);
  }

  /**
   * On a valid Gregorian date the forward direction's century index is the
   * reverse direction's `a` minus 4, so the two corrections cancel and the
   * shift recovers the Julian-calendar day count of the same date.
   */
  lemma CenturyOfGregorianDate(date: Date)
    requires ValidGregorian(date)
    ensures CenturyIndex(GregorianDayNumber(date)) == MarchYear(date) / 100 - 4
    ensures GregorianShift(GregorianDayNumber(date)) == JulianDayNumber(date)
  {
    GregorianDateIsJulian(date);
    MonthOffset(date);
    var y := MarchYear(date);
    var a, rest := y / 100, y % 100;
    var off := MonthStart(MarchMonth(date) + 1) + date.day;
    YearStartByCentury(y);
    if off == 488 && rest == 99 {
      CenturyLeap(y);
    }
    var n := GregorianDayNumber(date);
    CenturyArithmetic(a, rest, off, n);
  }

  /**
   * The day number `n` and the century index the forward direction derives
   * from it: `n` lies in the century that starts 36524 * alpha + alpha / 4
   * days after 1 March 400, and only every fourth century has the extra day.
   */
  lemma CenturyBounds(n: int)
    ensures var alpha := CenturyIndex(n);
      var t := n - 1867217;
      && 36524 * alpha + alpha / 4 <= t
      && t <= 36524 * alpha + alpha / 4 + 36523 + (if alpha % 4 == 3 then 1 else 0)
  {
    var alpha := CenturyIndex(n);
    assert 146097 * alpha <= 4 * n - 7468865 < 146097 * alpha + 146097;
  }

  /**
   * The date the forward direction decodes after the shift lies in the
   * century the shift assumed: its March-based year divided by 100 is alpha + 4.
   */
  lemma CenturyOfShiftedDate(n: int)
    ensures var c := GregorianShift(n) + 1524;
      (YearIndex(c) - 4716) / 100 == CenturyIndex(n) + 4
  {
    CenturyBounds(n);
    var alpha := CenturyIndex(n);
    var c := GregorianShift(n) + 1524;
    var d := YearIndex(c);
    assert 36525 * d <= 100 * c - 12210 < 36525 * d + 36525;
    assert 36525 * (100 * alpha + 5116) <= 100 * c - 12210;
    assert 100 * c - 12210 <= 36525 * (100 * alpha + 5216) - 10;
  }

  /** The decoded date's March-based year is the year index less 4716. */
  lemma MarchYearOfDecodedDate(b: int)
    ensures MarchYear(DateOfDayNumber(b)) == YearIndex(b + 1524) - 4716
  {
    var c := b + 1524;
    RemainderRange(c);
    MonthIndexRange(c - YearStart(YearIndex(c)));
  }

  /** Gregorian date to day number and back gives the same date. */
  lemma DateOfGregorianDayNumber(date: Date)
    requires ValidGregorian(date)
    ensures DateOfDayNumber(GregorianShift(GregorianDayNumber(date))) == date
  {
    CenturyOfGregorianDate(date);
    GregorianDateIsJulian(date);
    DateOfJulianDayNumber(date);
  }

  /** A decoded 29 February sits at remainder 488 of a year index that is 3 modulo 4. */
  lemma DecodedLeapDay(b: int)
    requires DateOfDayNumber(b).month == 2 && DateOfDayNumber(b).day == 29
    ensures var c := b + 1524;
      var d := YearIndex(c);
      && c - YearStart(d) == 488 && d % 4 == 3
      && DateOfDayNumber(b).year == d - 4715
  {
    var c := b + 1524;
    RemainderRange(c);
    MonthIndexRange(c - YearStart(YearIndex(c)));
  }

  /**
   * If the shifted count decodes to the last day of a March-based century,
   * that century is one of the 97-leap-day kind: alpha is 3 modulo 4.
   */
  lemma LastDayOfCentury(n: int)
    requires var c := GregorianShift(n) + 1524;
      var d := YearIndex(c);
      d == 100 * CenturyIndex(n) + 5215 && c - YearStart(d) == 488
    ensures CenturyIndex(n) % 4 == 3
  {
    CenturyBounds(n);
    var alpha := CenturyIndex(n);
    assert YearStart(100 * alpha + 5215) == 36525 * alpha + 1904778;
    assert n - 1867217 == 36524 * alpha + alpha / 4 + 36524;
  }

  /**
   * The year of a 29 February at year index `d` in century index `alpha` is a
   * Gregorian leap year, provided the last year of the century has one only
   * when alpha is 3 modulo 4.
   */
  lemma LeapYearOfIndex(d: int, alpha: int)
    requires d % 4 == 3
    requires (d - 4716) / 100 == alpha + 4
    requires d == 100 * alpha + 5215 ==> alpha % 4 == 3
    ensures GregorianLeap(d - 4715)
  {
    var year := d - 4715;
    assert year == 4 * (d / 4 - 1178);
    var k := (d - 4716) % 100;
    assert year == 100 * (alpha + 4) + k + 1;
    if year % 100 == 0 {
      var h := year / 100;
      assert 100 * h == 100 * (alpha + 4) + k + 1;
      assert h == alpha + 5;
      assert d == 100 * alpha + 5215;
      assert year == 400 * ((alpha + 5) / 4);
    }
  }

  /**
   * A 29 February the forward direction decodes after the shift falls in a
   * Gregorian leap year: the shift only leaves the day in place when the
   * century has one.
   */
  lemma LeapDayOfShiftedDate(n: int)
    requires var date := DateOfDayNumber(GregorianShift(n)); date.month == 2 && date.day == 29
    ensures GregorianLeap(DateOfDayNumber(GregorianShift(n)).year)
  {
    var b := GregorianShift(n);
    DecodedLeapDay(b);
    CenturyOfShiftedDate(n);
    var d := YearIndex(b + 1524);
    var alpha := CenturyIndex(n);
    if d == 100 * alpha + 5215 {
      LastDayOfCentury(n);
    }
    LeapYearOfIndex(d, alpha);
  }

  /**
   * Every day number decodes, through the shift, to a valid Gregorian date
   * whose Gregorian day number is that day number again.
   */
  lemma GregorianDayNumberOfDate(n: int)
    ensures ValidGregorian(DateOfDayNumber(GregorianShift(n)))
    ensures GregorianDayNumber(DateOfDayNumber(GregorianShift(n))) == n
  {
    var b := GregorianShift(n);
    var date := DateOfDayNumber(b);
    JulianDayNumberOfDate(b);
    DateOfDayNumberIsJulian(b);
    MarchYearOfDecodedDate(b);
    CenturyOfShiftedDate(n);
    if date.month == 2 && date.day == 29 {
      LeapDayOfShiftedDate(n);
    }
  }

  /** The first Gregorian day, 15 October 1582, which the reverse direction compares against. */
  const ReformDate: Date := Date(1582, 10, 15)

  /**
   * The day number of the last Julian-calendar day, 4 October 1582: the
   * converter's `GREGORIAN_EPOCH`.
   */
  const GregorianEpoch: int := 2299160

  /** Day numbers past the last Julian day decode, after the shift, to dates on or after the reform. */
  lemma ShiftedDateFromReform(n: int)
    requires n > GregorianEpoch
    ensures !Before(DateOfDayNumber(GregorianShift(n)), ReformDate)
  {
    var alpha := CenturyIndex(n);
    assert alpha >= 11;
    var b := GregorianShift(n);
    assert b >= 2299171;
    var c := b + 1524;
    var d := YearIndex(c);
    assert d >= 6298;
    var e := YearStart(d);
    RemainderRange(c);
    MonthIndexRange(c - e);
    if d == 6298 {
      assert e == 2300344;
      assert MonthIndex(c - e) >= 11;
    }
  }

  /** Day numbers up to the last Julian day decode, unshifted, to dates before 5 October 1582. */
  lemma UnshiftedDateBeforeReform(n: int)
    requires n <= GregorianEpoch
    ensures Before(DateOfDayNumber(n), Date(1582, 10, 5))
  {
    var c := n + 1524;
    var d := YearIndex(c);
    assert d <= 6298;
    var e := YearStart(d);
    RemainderRange(c);
    MonthIndexRange(c - e);
    if d == 6298 {
      assert e == 2300344;
      assert MonthIndex(c - e) <= 11;
    }
  }

  /** A Gregorian date on or after the reform has a day number past the last Julian day. */
  lemma GregorianDayNumberFromReform(date: Date)
    requires ValidGregorian(date) && !Before(date, ReformDate)
    ensures GregorianDayNumber(date) > GregorianEpoch
  {
    var y := MarchYear(date);
    assert y >= 1582;
    if y == 1582 {
      assert MarchMonth(date) >= 10;
      assert YearStart(y + 4716) == 2300344;
    } else {
      assert YearStart(y + 4716) >= 365 * (y + 4716) + (y + 4716) / 4;
    }
  }

  /** A Julian date before 5 October 1582 has a day number no later than the last Julian day. */
  lemma JulianDayNumberBeforeReform(date: Date)
    requires ValidJulian(date) && Before(date, Date(1582, 10, 5))
    ensures JulianDayNumber(date) <= GregorianEpoch
  {
    var y := MarchYear(date);
    assert y <= 1582;
    assert YearStart(y + 4716) <= YearStart(6298);
  }

  /** A Julian date lies in year 1 or later exactly when its day number is 1721424 (1 January 1) or later. */
  lemma JulianYearFromOne(date: Date)
    requires ValidJulian(date)
    ensures 1 <= date.year <==> JulianDayNumber(date) >= 1721424
  {
    var y := MarchYear(date);
    if y >= 1 {
      assert YearStart(y + 4716) >= YearStart(4717);
    }
  }

  /** A Gregorian date lies in year 9999 or earlier exactly when its day number is 5373484 (31 December 9999) or less. */
  lemma GregorianYearUpTo9999(date: Date)
    requires ValidGregorian(date)
    ensures date.year <= 9999 <==> GregorianDayNumber(date) <= 5373484
  {
    var y := MarchYear(date);
    if y <= 9998 {
      var a := y / 100;
      assert y == 100 * a + y % 100;
      assert YearStart(y + 4716) <= 36525 * a + 1722519 + 36159 by {
        YearStartByCentury(y);
      }
    }
  }

  /** A date from year 1 on has a positive Julian day number. */
  lemma JulianDayNumberPositive(date: Date)
    requires ValidJulian(date) && 1 <= date.year
    ensures 0 < JulianDayNumber(date)
  {
    assert MarchYear(date) >= 0;
    assert YearStart(MarchYear(date) + 4716) >= YearStart(4716);
  }

  /** `int(365.25 * y)` grows by 366 days into a year index divisible by 4 and by 365 otherwise. */
  lemma YearStartStep(y: int)
    ensures YearStart(y + 1) - YearStart(y) == if (y + 1) % 4 == 0 then 366 else 365
  {
    var q, r := y / 4, y % 4;
    assert 1461 * y == 4 * (1461 * q) + 1461 * r;
    assert 1461 * (y + 1) == 4 * (1461 * q) + 1461 * r + 1461;
  }

  /**
   * The Julian day number advances by one to the next day of a calendar
   * whose leap years are Julian leap years too, and by two across a
   * 28 February that ends a month the Julian calendar would have lengthened.
   */
  lemma JulianDayNumberOfNextDay(date: Date, leap: bool)
    requires 1 <= date.month <= 12 && 1 <= date.day <= MonthLength(date.month, leap)
    requires leap ==> JulianLeap(date.year)
    ensures var skipped := date.month == 2 && date.day == 28 && !leap && JulianLeap(date.year);
      JulianDayNumber(NextDay(date, leap)) == JulianDayNumber(date) + if skipped then 2 else 1
  {
    if date.day == MonthLength(date.month, leap) && date.month == 2 {
      YearStartStep(date.year + 4715);
    }
  }

  /**
   * The reverse correction drops by one day into a March-based year that is
   * a Julian but not a Gregorian leap year, and is unchanged otherwise.
   */
  lemma CorrectionStep(y: int)
    ensures GregorianCorrection(y + 1) - GregorianCorrection(y)
         == if JulianLeap(y + 1) && !GregorianLeap(y + 1) then -1 else 0
  {
    var a := (y + 1) / 100;
    if (y + 1) % 100 == 0 {
      assert y + 1 == 100 * a;
      assert y / 100 == a - 1;
      assert y + 1 == 4 * (25 * a);
      assert ((y + 1) % 400 == 0) == (a % 4 == 0);
    } else {
      assert y / 100 == a;
    }
  }

  /**
   * Across the end of February the March-based year advances, and the
   * correction drops by one exactly when the Julian calendar would have had
   * a 29 February that the Gregorian one lacks.
   */
  lemma CorrectionOfNextDay(date: Date)
    requires ValidGregorian(date)
    ensures var leap := GregorianLeap(date.year);
      var skipped := date.month == 2 && date.day == 28 && !leap && JulianLeap(date.year);
      GregorianCorrection(MarchYear(NextDay(date, leap)))
        == GregorianCorrection(MarchYear(date)) - if skipped then 1 else 0
  {
    var next := NextDay(date, GregorianLeap(date.year));
    if date.month == 2 && date.day == MonthLength(2, GregorianLeap(date.year)) {
      assert MarchYear(date) + 1 == MarchYear(next) == date.year;
      assert (date.day == 28) == !GregorianLeap(date.year);
      CorrectionStep(MarchYear(date));
    } else {
      assert MarchYear(next) == MarchYear(date);
    }
  }

  /** The Gregorian day number advances by exactly one to the next Gregorian day. */
  lemma GregorianDayNumberOfNextDay(date: Date)
    requires ValidGregorian(date)
    ensures GregorianDayNumber(NextDay(date, GregorianLeap(date.year))) == GregorianDayNumber(date) + 1
  {
    JulianDayNumberOfNextDay(date, GregorianLeap(date.year));
    CorrectionOfNextDay(date);
  }

  /** Consecutive day counts decode to consecutive Julian-calendar dates. */
  lemma DecodeOfNextDay(b: int)
    ensures ValidJulian(DateOfDayNumber(b))
    ensures var date := DateOfDayNumber(b);
      DateOfDayNumber(b + 1) == NextDay(date, JulianLeap(date.year))
  {
    var date := DateOfDayNumber(b);
    DateOfDayNumberIsJulian(b);
    JulianDayNumberOfDate(b);
    var next := NextDay(date, JulianLeap(date.year));
    JulianDayNumberOfNextDay(date, JulianLeap(date.year));
    NextDayIsValid(date);
    DateOfJulianDayNumber(next);
  }

  /** Consecutive Gregorian day numbers decode, through the shift, to consecutive Gregorian dates. */
  lemma ShiftedDecodeOfNextDay(n: int)
    ensures ValidGregorian(DateOfDayNumber(GregorianShift(n)))
    ensures var date := DateOfDayNumber(GregorianShift(n));
      DateOfDayNumber(GregorianShift(n + 1)) == NextDay(date, GregorianLeap(date.year))
  {
    var date := DateOfDayNumber(GregorianShift(n));
    GregorianDayNumberOfDate(n);
    var next := NextDay(date, GregorianLeap(date.year));
    GregorianDayNumberOfNextDay(date);
    NextDayIsValid(date);
    DateOfGregorianDayNumber(next);
  }
}
