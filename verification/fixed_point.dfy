/**
 * 17.14 fixed-point arithmetic on 32-bit signed integers: a real number r is
 * held as the int r * 2^14. Every operation is one C expression; C's signed
 * division truncates toward zero, which CDiv models, and each function
 * requires that every intermediate the C code computes in `int` (and its
 * result) fits in 32 bits, since a signed overflow there has no defined value.
 * The two 64-bit intermediates (the products in mult_fp_fp and div_fp_fp)
 * cannot overflow for 32-bit operands and so carry no such requirement.
 */
module FixedPoint {

  const Q: nat := 14
  const FRAC: int := 16384  // 1 << Q

  const INT32_MIN: int := -0x8000_0000
  const INT32_MAX: int := 0x7FFF_FFFF

  predicate IsInt32(x: int) {
    INT32_MIN <= x <= INT32_MAX
  }

  function Abs(x: int): nat {
    if x < 0 then -x else x
  }

  /** C's `/` on signed operands: the quotient rounded toward zero. */
  function CDiv(a: int, b: int): (q: int)
    requires b != 0
    ensures Abs(q) * Abs(b) <= Abs(a) < (Abs(q) + 1) * Abs(b)
    ensures q > 0 ==> (a > 0) == (b > 0)
    ensures q < 0 ==> (a > 0) != (b > 0)
  {
    var m := Abs(a) / Abs(b);
    DivBoundsNat(Abs(a), Abs(b));
    if (a >= 0) == (b > 0) then m else -m
  }

  /** The quotient of naturals, times the divisor, is the dividend less its remainder. */
  lemma DivBoundsNat(a: nat, b: nat)
    requires b > 0
    ensures (a / b) * b <= a < (a / b + 1) * b
  {
    var q, r := a / b, a % b;
    assert a == q * b + r && 0 <= r < b;
    assert (q + 1) * b == q * b + b;
  }

  /** The real number a fixed-point value stands for: x / 2^14. */
  ghost function Real(x: int): real {
    x as real / FRAC as real
  }

  function RAbs(v: real): real {
    if v < 0.0 then -v else v
  }

  /**
   * Real(r) is v truncated toward zero to a multiple of 1/FRAC: no larger
   * in magnitude, less than one step below it, and of the same sign.
   */
  ghost predicate Truncates(r: int, v: real) {
    && RAbs(Real(r)) <= RAbs(v) < RAbs(Real(r)) + 1.0 / FRAC as real
    && (r > 0 ==> v > 0.0)
    && (r < 0 ==> v < 0.0)
  }

  /** Multiplying by a positive number keeps the sign. */
  lemma MulSign(a: real, d: real)
    requires d > 0.0
    ensures a < 0.0 ==> a * d < 0.0
    ensures a <= 0.0 ==> a * d <= 0.0
  {
  }

  /** Bounds on p, in multiples of a positive d, are bounds on p / d. */
  lemma QuotBounds(p: real, d: real, m: real)
    requires d > 0.0 && m * d <= p < (m + 1.0) * d
    ensures m <= p / d < m + 1.0
  {
    var t := p / d;
    assert t * d == p;
    assert (t - m) * d == p - m * d;
    assert (m + 1.0 - t) * d == (m + 1.0) * d - p;
    MulSign(t - m, d);
    MulSign(m + 1.0 - t, d);
  }

  /** The sign and magnitude of a quotient by a positive number. */
  lemma QuotSignPos(a: real, d: real)
    requires d > 0.0
    ensures a > 0.0 ==> a / d > 0.0
    ensures a < 0.0 ==> a / d < 0.0
    ensures RAbs(a / d) == RAbs(a) / d
  {
    var t := a / d;
    assert t * d == a;
    assert (-t) * d == -a;
    assert (-a) / d == -t;
    MulSign(t, d);
    MulSign(-t, d);
  }

  /** A quotient is the one number that gives back the dividend. */
  lemma QuotUnique(x: real, y: real, z: real)
    requires y != 0.0 && z * y == x
    ensures x / y == z
  {
    assert (x / y) * y == x;
    assert (x / y - z) * y == 0.0;
  }

  /** The sign of a real quotient. */
  lemma QuotSign(a: real, b: real)
    requires b != 0.0
    ensures a != 0.0 && (a > 0.0) == (b > 0.0) ==> a / b > 0.0
    ensures a != 0.0 && (a > 0.0) != (b > 0.0) ==> a / b < 0.0
    ensures RAbs(a / b) == RAbs(a) / RAbs(b)
  {
    if b < 0.0 {
      assert (a / b) * (-b) == -a;
      QuotUnique(-a, -b, a / b);
      QuotSignPos(-a, -b);
    } else {
      QuotSignPos(a, b);
    }
  }

  lemma CastMul(a: int, b: int)
    ensures (a * b) as real == a as real * b as real
  {
  }

  /** A truncated integer quotient, read as a real: within one of the exact quotient, on its side of zero. */
  lemma CDivReal(a: int, b: int)
    requires b != 0
    ensures var q := CDiv(a, b);
      && RAbs(q as real) <= RAbs(a as real / b as real) < RAbs(q as real) + 1.0
      && (q > 0 ==> a as real / b as real > 0.0)
      && (q < 0 ==> a as real / b as real < 0.0)
  {
    var q := CDiv(a, b);
    CastMul(Abs(q), Abs(b));
    CastMul(Abs(q) + 1, Abs(b));
    assert RAbs(a as real) == Abs(a) as real && RAbs(b as real) == Abs(b) as real;
    assert RAbs(q as real) == Abs(q) as real;
    QuotBounds(Abs(a) as real, Abs(b) as real, Abs(q) as real);
    QuotSign(a as real, b as real);
  }

  /** Scaling a truncation by 1/FRAC: an integer quotient q of v becomes the fixed-point truncation of v / FRAC. */
  lemma TruncatesScaled(q: int, v: real)
    requires RAbs(q as real) <= RAbs(v) < RAbs(q as real) + 1.0
    requires q > 0 ==> v > 0.0
    requires q < 0 ==> v < 0.0
    ensures Truncates(q, v / FRAC as real)
  {
    assert RAbs(v / FRAC as real) == RAbs(v) / FRAC as real;
    assert RAbs(Real(q)) == RAbs(q as real) / FRAC as real;
  }

  /** mult_fp_fp's quotient is the fixed-point truncation of the product of the values. */
  lemma MultFpFpMeaning(x: int, y: int)
    ensures Truncates(CDiv(x * y, FRAC), Real(x) * Real(y))
  {
    CDivReal(x * y, FRAC);
    CastMul(x, y);
    TruncatesScaled(CDiv(x * y, FRAC), (x * y) as real / FRAC as real);
    assert Real(x) * Real(y) == (x as real * y as real) / 16384.0 / 16384.0;
  }

  /** Moving the scale factor through a quotient. */
  lemma DivScale(a: real, b: real)
    requires b != 0.0
    ensures (a * 16384.0 / b) / 16384.0 == (a / 16384.0) / (b / 16384.0)
    ensures (a / 16384.0) / b == (a / b) / 16384.0
  {
  }

  /** div_fp_fp's quotient is the fixed-point truncation of the quotient of the values. */
  lemma DivFpFpMeaning(x: int, y: int)
    requires y != 0
    ensures Truncates(CDiv(x * FRAC, y), Real(x) / Real(y))
  {
    CDivReal(x * FRAC, y);
    CastMul(x, FRAC);
    TruncatesScaled(CDiv(x * FRAC, y), (x * FRAC) as real / y as real);
    DivScale(x as real, y as real);
  }

  /** div_fp_int's quotient is the fixed-point truncation of the value divided by n. */
  lemma DivFpIntMeaning(x: int, n: int)
    requires n != 0
    ensures Truncates(CDiv(x, n), Real(x) / n as real)
  {
    CDivReal(x, n);
    TruncatesScaled(CDiv(x, n), x as real / n as real);
    DivScale(x as real, n as real);
  }

  /** int_to_fp: the fixed-point value standing for exactly n. */
  function IntToFp(n: int): (r: int)
    requires IsInt32(n * FRAC)
    ensures Real(r) == n as real
  {
    n * FRAC
  }

  /** fp_to_int_zero: the integer part, rounded toward zero. */
  function FpToIntZero(x: int): (r: int)
    requires IsInt32(x)
    ensures Abs(r) * FRAC <= Abs(x) < (Abs(r) + 1) * FRAC
    ensures r > 0 ==> x > 0
    ensures r < 0 ==> x < 0
  {
    CDiv(x, FRAC)
  }

  /**
   * fp_to_int_nearest: the nearest integer, halves rounded away from zero.
   * The C code adds or subtracts FRAC / 2 in `int` first.
   */
  function FpToIntNearest(x: int): (r: int)
    requires IsInt32(x)
    requires x >= 0 ==> IsInt32(x + FRAC / 2)
    requires x < 0 ==> IsInt32(x - FRAC / 2)
    ensures x >= 0 ==> -FRAC / 2 <= x - r * FRAC < FRAC / 2
    ensures x < 0 ==> -FRAC / 2 < x - r * FRAC <= FRAC / 2
  {
    if x >= 0 then CDiv(x + FRAC / 2, FRAC) else CDiv(x - FRAC / 2, FRAC)
  }

  /** add_fp_fp: exact, the sum of the two values. */
  function AddFpFp(x: int, y: int): (r: int)
    requires IsInt32(x) && IsInt32(y) && IsInt32(x + y)
    ensures Real(r) == Real(x) + Real(y)
  {
    x + y
  }

  /** add_fp_int: exact, the value plus n. */
  function AddFpInt(x: int, n: int): (r: int)
    requires IsInt32(x) && IsInt32(n * FRAC) && IsInt32(x + n * FRAC)
    ensures Real(r) == Real(x) + n as real
  {
    x + n * FRAC
  }

  /** sub_fp_fp: exact, the difference of the two values. */
  function SubFpFp(x: int, y: int): (r: int)
    requires IsInt32(x) && IsInt32(y) && IsInt32(x - y)
    ensures Real(r) == Real(x) - Real(y)
  {
    x - y
  }

  /** sub_fp_int: exact, the value minus n. */
  function SubFpInt(x: int, n: int): (r: int)
    requires IsInt32(x) && IsInt32(n * FRAC) && IsInt32(x - n * FRAC)
    ensures Real(r) == Real(x) - n as real
  {
    x - n * FRAC
  }

  /**
   * mult_fp_fp: ((int64_t) x) * y / FRAC, converted back to int; the
   * product of the two values, truncated toward zero to a step of 1/FRAC.
   */
  function MultFpFp(x: int, y: int): (r: int)
    requires IsInt32(x) && IsInt32(y) && IsInt32(CDiv(x * y, FRAC))
    ensures Truncates(r, Real(x) * Real(y))
  {
    MultFpFpMeaning(x, y);
    CDiv(x * y, FRAC)
  }

  /** mult_fp_int: exact, the value times n. */
  function MultFpInt(x: int, n: int): (r: int)
    requires IsInt32(x) && IsInt32(n) && IsInt32(x * n)
    ensures Real(r) == Real(x) * n as real
  {
    x * n
  }

  /**
   * div_fp_fp: ((int64_t) x) * FRAC / y, converted back to int; the
   * quotient of the two values, truncated toward zero to a step of 1/FRAC.
   */
  function DivFpFp(x: int, y: int): (r: int)
    requires IsInt32(x) && IsInt32(y) && y != 0 && IsInt32(CDiv(x * FRAC, y))
    ensures Truncates(r, Real(x) / Real(y))
  {
    DivFpFpMeaning(x, y);
    CDiv(x * FRAC, y)
  }

  /** div_fp_int: the value divided by n, truncated toward zero to a step of 1/FRAC. */
  function DivFpInt(x: int, n: int): (r: int)
    requires IsInt32(x) && IsInt32(n) && n != 0 && IsInt32(CDiv(x, n))
    ensures Truncates(r, Real(x) / n as real)
  {
    DivFpIntMeaning(x, n);
    CDiv(x, n)
  }

  /** Dividing an exact multiple of a positive number by it. */
  lemma DivExactNat(a: nat, b: nat)
    requires b > 0
    ensures (a * b) / b == a
  {
    var q, r := (a * b) / b, (a * b) % b;
    assert (a - q) * b == r;
    ZeroByBound(a - q, b, r);
  }

  lemma ZeroByBound(d: int, b: nat, r: int)
    requires b > 0 && d * b == r && 0 <= r < b
    ensures d == 0
  {
  }

  /** Dividing an exact multiple: CDiv(k * b, b) == k for every sign of k and b. */
  lemma CDivExact(k: int, b: int)
    requires b != 0
    ensures CDiv(k * b, b) == k
  {
    var ak, ab, p := Abs(k), Abs(b), k * b;
    if k == 0 {
      assert p == 0;
      return;
    }
    var q: int := ak * ab;
    DivExactNat(ak, ab);
    assert q != 0;
    if k > 0 && b > 0 {
      assert p == q;
    } else if k > 0 {
      assert p == -(k * (-b)) == -q;
    } else if b > 0 {
      assert p == -((-k) * b) == -q;
    } else {
      assert p == (-k) * (-b) == q;
    }
    assert Abs(p) / Abs(b) == ak;
  }

  /** Converting an integer to fixed point and back, by either rounding, gives it back. */
  lemma IntRoundTrip(n: int)
    requires IsInt32(n * FRAC)
    ensures FpToIntZero(IntToFp(n)) == n
    ensures n >= 0 && IsInt32(n * FRAC + FRAC / 2) ==> FpToIntNearest(IntToFp(n)) == n
    ensures n < 0 && IsInt32(n * FRAC - FRAC / 2) ==> FpToIntNearest(IntToFp(n)) == n
  {
    CDivExact(n, FRAC);
  }

  /** Adding or subtracting an integer is adding or subtracting its fixed-point image. */
  lemma MixedAddSub(x: int, n: int)
    requires IsInt32(x) && IsInt32(n * FRAC)
    ensures IsInt32(x + n * FRAC) ==> AddFpInt(x, n) == AddFpFp(x, IntToFp(n))
    ensures IsInt32(x - n * FRAC) ==> SubFpInt(x, n) == SubFpFp(x, IntToFp(n))
  {
  }

  /** Scaling the fixed-point image of a by n gives the image of a * n. */
  lemma MultIntOfConverted(a: int, n: int)
    requires IsInt32(a * FRAC) && IsInt32(n) && IsInt32(a * n * FRAC)
    ensures MultFpInt(IntToFp(a), n) == IntToFp(a * n)
  {
    assert a * FRAC * n == a * n * FRAC;
  }

  /** Dividing by n undoes multiplying by n when the product fits. */
  lemma DivUndoesMultInt(x: int, n: int)
    requires IsInt32(x) && IsInt32(n) && n != 0 && IsInt32(x * n)
    ensures IsInt32(CDiv(MultFpInt(x, n), n))
    ensures DivFpInt(MultFpInt(x, n), n) == x
  {
    CDivExact(x, n);
  }

  /** One, in fixed point, is the unit of fixed-point multiplication and division. */
  lemma OneIsUnit(x: int)
    requires IsInt32(x)
    ensures IntToFp(1) == FRAC
    ensures IsInt32(CDiv(x * FRAC, FRAC)) && MultFpFp(x, IntToFp(1)) == x
    ensures IsInt32(CDiv(x * FRAC, FRAC)) && DivFpFp(x, IntToFp(1)) == x
  {
    CDivExact(x, FRAC);
  }
}
