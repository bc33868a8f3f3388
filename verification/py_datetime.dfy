/**
 * The parts of Python's `datetime.datetime` the converter touches: the
 * record of seven integer fields, the validation its constructor performs,
 * and the ordering used by `>=`. Only naive (timezone-less) values exist here.
 */
module PyDateTime {
  import opened PyRuntime
  import opened Calendar

  const MinYear: int := 1
  const MaxYear: int := 9999

  datatype DateTime = DateTime(
    year: int, month: int, day: int,
    hour: int, minute: int, second: int, microsecond: int)
  {
    function Date(): Date {
      Calendar.Date(year, month, day)
    }
  }

  predicate ValidTime(hour: int, minute: int, second: int, microsecond: int) {
    0 <= hour <= 23 && 0 <= minute <= 59 && 0 <= second <= 59 && 0 <= microsecond <= 999999
  }

  /** What `datetime.datetime(...)` accepts: years 1..9999, proleptic Gregorian dates. */
  predicate Valid(dt: DateTime) {
    MinYear <= dt.year <= MaxYear
    && ValidGregorian(dt.Date())
    && ValidTime(dt.hour, dt.minute, dt.second, dt.microsecond)
  }

  /** Whether all seven arguments of the constructor fit a C `int`. */
  predicate FitsCInt(dt: DateTime) {
    IsCInt(dt.year) && IsCInt(dt.month) && IsCInt(dt.day)
    && IsCInt(dt.hour) && IsCInt(dt.minute) && IsCInt(dt.second) && IsCInt(dt.microsecond)
  }

  /**
   * The constructor: argument parsing raises `OverflowError` on an integer
   * beyond a C `int`; then the range checks raise `ValueError`.
   */
  function MakeDateTime(year: int, month: int, day: int,
                        hour: int, minute: int, second: int, microsecond: int): (r: Result<DateTime>)
    ensures var dt := DateTime(year, month, day, hour, minute, second, microsecond);
      && (r.Ok? <==> Valid(dt))
      && (r.Ok? ==> r.value == dt)
      && (r == Err(OverflowError) <==> !FitsCInt(dt))
      && (r == Err(ValueError) <==> FitsCInt(dt) && !Valid(dt))
  {
    var dt := DateTime(year, month, day, hour, minute, second, microsecond);
    if !FitsCInt(dt) then Err(OverflowError)
    else if Valid(dt) then Ok(dt)
    else Err(ValueError)
  }

  /** `a >= b` on naive datetimes: lexicographic on the seven fields. */
  predicate AtOrAfter(a: DateTime, b: DateTime) {
    if a.year != b.year then a.year > b.year
    else if a.month != b.month then a.month > b.month
    else if a.day != b.day then a.day > b.day
    else if a.hour != b.hour then a.hour > b.hour
    else if a.minute != b.minute then a.minute > b.minute
    else if a.second != b.second then a.second > b.second
    else a.microsecond >= b.microsecond
  }

  /** The values a `datetime` object can hold: its constructor admits no other. */
  type ValidDateTime = dt: DateTime | Valid(dt) witness DateTime(1, 1, 1, 0, 0, 0, 0)

  /** The dynamically typed arguments a caller can pass. */
  datatype PyObject =
    | PyInt(i: int)
    | PyBool(b: bool)
    | PyFloat(x: real)
    | PyStr(s: string)
    | PyNone
    | PyDateTime(dt: ValidDateTime)
  {
    /** `isinstance(self, (int, float))`; `bool` is a subclass of `int`. */
    predicate IsNumber() {
      PyInt? || PyBool? || PyFloat?
    }

    /** The numeric value of an `int`, `bool` or `float`. */
    function AsReal(): real
      requires IsNumber()
    {
      match this
      case PyInt(i) => i as real
      case PyBool(b) => if b then 1.0 else 0.0
      case PyFloat(x) => x
    }
  }
}
