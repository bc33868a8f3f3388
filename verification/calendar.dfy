/**
 * Calendar dates and the two leap-year rules the converter mixes: the Julian
 * rule (every fourth year) below the 1582 reform and the Gregorian rule
 * (every fourth year except centuries not divisible by 400) from it on.
 */
module Calendar {

  /** A civil date: year, month 1..12, day of month. */
  datatype Date = Date(year: int, month: int, day: int)

  predicate JulianLeap(y: int) {
    y % 4 == 0
  }

  /** The rule Python's `datetime` applies to every year (proleptic Gregorian). */
  predicate GregorianLeap(y: int) {
    y % 4 == 0 && (y % 100 != 0 || y % 400 == 0)
  }

  function MonthLength(month: int, leap: bool): (n: int)
    requires 1 <= month <= 12
    ensures 28 <= n <= 31
    ensures n == 29 <==> month == 2 && leap
  {
    if month == 2 then (if leap then 29 else 28)
    else if month == 4 || month == 6 || month == 9 || month == 11 then 30
    else 31
  }

  predicate ValidJulian(d: Date) {
    1 <= d.month <= 12 && 1 <= d.day <= MonthLength(d.month, JulianLeap(d.year))
  }

  predicate ValidGregorian(d: Date) {
    1 <= d.month <= 12 && 1 <= d.day <= MonthLength(d.month, GregorianLeap(d.year))
  }

  /** Every Gregorian leap year is a Julian one, so every Gregorian date is a Julian date. */
  lemma GregorianDateIsJulian(d: Date)
    requires ValidGregorian(d)
    ensures ValidJulian(d)
  {
  }

  /** Strict lexicographic order on (year, month, day). */
  predicate Before(a: Date, b: Date) {
    a.year < b.year
    || (a.year == b.year && a.month < b.month)
    || (a.year == b.year && a.month == b.month && a.day < b.day)
  }

  /** The day after `d` in a calendar where `d`'s year is a leap year exactly when `leap`. */
  function NextDay(d: Date, leap: bool): (r: Date)
    requires 1 <= d.month <= 12 && 1 <= d.day
    ensures Before(d, r)
    ensures 1 <= r.month <= 12 && 1 <= r.day
  {
    if d.day < MonthLength(d.month, leap) then Date(d.year, d.month, d.day + 1)
    else if d.month < 12 then Date(d.year, d.month + 1, 1)
    else Date(d.year + 1, 1, 1)
  }

  /** The day after a Julian date is a Julian date, and likewise for Gregorian dates. */
  lemma NextDayIsValid(d: Date)
    ensures ValidJulian(d) ==> ValidJulian(NextDay(d, JulianLeap(d.year)))
    ensures ValidGregorian(d) ==> ValidGregorian(NextDay(d, GregorianLeap(d.year)))
  {
  }
}
