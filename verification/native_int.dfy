/** C/C++ integer division and remainder.

    Dafny's `/` and `%` on `int` are Euclidean (the remainder is never
    negative). C++ truncates the quotient toward zero, so the remainder takes
    the sign of the dividend. The backend headers rely on that behaviour
    (`mod2` corrects a negative remainder, the file-size budget is a truncating
    division), so it is written out here once and used by every module.
 */
module NativeInt {

  function Abs(x: int): nat
  {
    if x < 0 then -x else x
  }

  /** A count that a C++ loop `for (i = 0; i < x; i++)` runs for: `x`, or 0
      when `x` is negative. */
  function Max0(x: int): nat
  {
    if x > 0 then x else 0
  }

  /** `a / b` in C++: the magnitude is |a| / |b|, the sign is the product of
      the operands' signs, so the quotient is truncated toward zero. */
  function CDiv(a: int, b: int): int
    requires b != 0
  {
    var m := Abs(a) / Abs(b);
    if (a >= 0) == (b > 0) then m else -m
  }

  /** `a % b` in C++: the magnitude is |a| % |b| and the sign is the dividend's. */
  function CRem(a: int, b: int): int
    requires b != 0
  {
    var m := Abs(a) % Abs(b);
    if a >= 0 then m else -m
  }

  /** For a positive divisor a non-zero product is at least the divisor. */
  lemma MulAtLeast(d: int, b: int)
    requires b > 0
    ensures d == 0 || Abs(d * b) >= b
  {
    if d >= 1 {
      assert d * b == (d - 1) * b + b;
      assert (d - 1) * b >= 0;
    } else if d <= -1 {
      assert -(d * b) == (-d - 1) * b + b;
      assert (-d - 1) * b >= 0;
    }
  }

  /** Euclidean division is unique: a quotient and an in-range remainder that
      reassemble `a` are Dafny's `/` and `%`. */
  lemma EuclidUnique(a: int, b: int, q: int, r: int)
    requires b > 0
    requires 0 <= r < b
    requires a == q * b + r
    ensures a / b == q && a % b == r
  {
    var q0, r0 := a / b, a % b;
    assert (q - q0) * b == r0 - r;
    MulAtLeast(q - q0, b);
  }

  /** For a positive divisor and a non-negative dividend C++ and Dafny agree. */
  lemma CDivNonNegative(a: int, b: int)
    requires a >= 0 && b > 0
    ensures CDiv(a, b) == a / b && CRem(a, b) == a % b
  {
  }

  /** The remainder by a positive divisor is zero in C++ exactly when it is zero
      in Dafny: a divisibility test such as `n % w != 0` does not depend on the
      rounding convention. An exact division is undone by multiplication. */
  lemma CRemZeroIff(a: int, b: int)
    requires b > 0
    ensures CRem(a, b) == 0 <==> a % b == 0
    ensures CRem(a, b) == 0 ==> CDiv(a, b) * b == a
  {
    if a < 0 {
      var t, s := (-a) / b, (-a) % b;
      assert -a == t * b + s;
      if s == 0 {
        EuclidUnique(a, b, -t, 0);
        assert CDiv(a, b) == -t;
      } else {
        assert a == (-t - 1) * b + (b - s);
        EuclidUnique(a, b, -t - 1, b - s);
      }
    }
  }

  /** A truncating quotient of a dividend at least as large as a positive
      divisor is at least 1 and is the whole number of divisors that fit. */
  lemma QuotientBounds(a: int, b: int)
    requires b != 0
    ensures a >= b > 0 ==> CDiv(a, b) >= 1 && CDiv(a, b) * b <= a < (CDiv(a, b) + 1) * b
  {
    if a >= b > 0 {
      CDivNonNegative(a, b);
      var q := a / b;
      assert a == q * b + a % b;
      assert (q + 1) * b == q * b + b;
      MulAtLeast(q, b);
    }
  }
}
