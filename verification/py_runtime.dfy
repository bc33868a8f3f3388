/**
 * The few pieces of Python's runtime that the converter leans on, stated on
 * exact reals: `int()` applied to a float, `math.modf`, the range of a C
 * `int` that argument parsing enforces, and the exception kinds the
 * conversion raises.
 */
module PyRuntime {

  /**
   * The exceptions the conversion functions can raise: a wrong argument
   * kind, a field out of its calendar range, and an integer argument that
   * does not fit the C `int` a constructor parses it into.
   */
  datatype Error = TypeError | ValueError | OverflowError

  const CIntMin: int := -0x8000_0000
  const CIntMax: int := 0x7fff_ffff

  /** Whether an integer argument survives the `"i"` conversion of C argument parsing. */
  predicate IsCInt(x: int) {
    CIntMin <= x <= CIntMax
  }

  /** A value or the exception raised instead of it. */
  datatype Result<+T> = Ok(value: T) | Err(error: Error)

  /** Python's `int(x)` on a float: rounds toward zero (not toward minus infinity). */
  function Trunc(x: real): (r: int)
    ensures 0.0 <= x ==> r as real <= x < r as real + 1.0
    ensures x < 0.0 ==> r as real - 1.0 < x <= r as real
    ensures (0.0 <= x) == (0 <= r) || (-1.0 < x < 0.0 && r == 0)
  {
    if x >= 0.0 then x.Floor else -((-x).Floor)
  }

  /** The pair returned by `math.modf`: fractional part first, integral part second. */
  datatype Parts = Parts(frac: real, whole: real)

  /** `math.modf(x)`: both parts carry the sign of `x` and add up to `x`. */
  function Modf(x: real): (p: Parts)
    ensures p.frac + p.whole == x
    ensures p.whole == (Trunc(x) as real)
    ensures 0.0 <= x ==> 0.0 <= p.frac < 1.0
    ensures x < 0.0 ==> -1.0 < p.frac <= 0.0
  {
    Parts(x - Trunc(x) as real, Trunc(x) as real)
  }

  /** `int()` of an integral float gives that integer back. */
  lemma TruncOfInt(k: int)
    ensures Trunc(k as real) == k
  {
  }

  /** A non-negative integer plus a fraction in [0, 1) truncates to the integer. */
  lemma TruncOfIntPlusFrac(k: int, f: real)
    requires 0 <= k
    requires 0.0 <= f < 1.0
    ensures Trunc(k as real + f) == k
    ensures Modf(k as real + f) == Parts(f, k as real)
  {
  }

  /**
   * For non-negative operands, truncating a real quotient is integer division.
   * Every constant-coefficient truncation in the algorithm reduces to this.
   */
  lemma TruncOfQuotient(k: int, m: int)
    requires 0 <= k && 0 < m
    ensures Trunc(k as real / m as real) == k / m
  {
    var q, r := k / m, k % m;
    assert (q * m) as real == q as real * m as real;
    assert k as real == q as real * m as real + r as real;
    var f := r as real / m as real;
    assert 0.0 <= f < 1.0;
    assert k as real / m as real == q as real + f;
    assert (q as real + f).Floor == q;
  }
}
