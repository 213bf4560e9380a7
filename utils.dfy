/** Numeric helpers shared by the whole ray tracer: the "infinity" constant,
    `fabs`/`fmax`, the C++ conversion from double to int, and the square root.

    Doubles are modelled as Dafny `real` (idealised: no rounding, overflow or NaN).
    The square root is not defined here: every member that needs it takes a
    parameter `sqrt: real -> real`, and the lemmas that depend on what a square
    root is require `IsSqrt(sqrt)`. */
module Utils {

  /** An optional value: what a `bool hit(..., rec)` call reports, with the
      record it filled in. */
  datatype Option<T> = None | Some(value: T)

  /** `utils::infinity` is not IEEE infinity but the largest finite double, DBL_MAX,
      written out exactly ((2 - 2^-52) * 2^1023). */
  const DblMax: real := 179769313486231570814527423731704356798070567525844996598917476803157260780028538760589558632766878171540458953514382464234321326889464182768467546703537516986049910576551282076245490090389328944075868508455133942304583236903222948165808559332123348274797826204144723168738177180919299881250404026184124858368.0

  /** `std::fabs` */
  function Abs(x: real): (r: real)
    ensures 0.0 <= r
    ensures r == x || r == -x
  {
    if x < 0.0 then -x else x
  }

  /** `std::fmax` on non-NaN arguments */
  function Max(a: real, b: real): (r: real)
    ensures a <= r && b <= r
    ensures r == a || r == b
  {
    if a < b then b else a
  }

  /** `x * x`, which is zero only at zero. */
  function Square(x: real): (r: real)
    ensures 0.0 <= r
    ensures r == 0.0 <==> x == 0.0
  {
    ZeroSquare(x);
    x * x
  }

  lemma ZeroSquare(x: real)
    ensures x * x == 0.0 ==> x == 0.0
  {
    if x * x == 0.0 {
      ZeroProduct(x, x);
    }
  }

  /** A product is zero only if a factor is. */
  lemma ZeroProduct(x: real, y: real)
    requires x * y == 0.0
    ensures x == 0.0 || y == 0.0
  {
  }

  /** `sqrt` is a square root function on the non-negative reals. */
  ghost predicate IsSqrt(sqrt: real -> real)
  {
    forall x :: 0.0 <= x ==> 0.0 <= sqrt(x) && sqrt(x) * sqrt(x) == x
  }

  /** The square root is zero only at zero. */
  lemma SqrtPositive(sqrt: real -> real, x: real)
    requires IsSqrt(sqrt)
    requires 0.0 < x
    ensures 0.0 < sqrt(x)
  {
  }

  /** The square root is monotone. */
  lemma SqrtMonotone(sqrt: real -> real, x: real, y: real)
    requires IsSqrt(sqrt)
    requires 0.0 <= x <= y
    ensures sqrt(x) <= sqrt(y)
  {
    NonNegativeSquareLe(sqrt(x), sqrt(y));
  }

  /** The square root of a square is the absolute value. */
  lemma SqrtOfSquare(sqrt: real -> real, x: real)
    requires IsSqrt(sqrt)
    ensures sqrt(x * x) == Abs(x)
  {
    var s, a := sqrt(x * x), Abs(x);
    assert 0.0 <= x * x;
    NonNegativeSquareRootUnique(s, a);
  }

  /** Two non-negative numbers with the same square are equal. */
  lemma NonNegativeSquareRootUnique(s: real, a: real)
    requires 0.0 <= s && 0.0 <= a && s * s == a * a
    ensures s == a
  {
    assert (s - a) * (s + a) == s * s - a * a;
    assert s - a == 0.0 || s + a == 0.0;
  }

  /** Of two non-negative numbers, the one with the smaller square is smaller. */
  lemma NonNegativeSquareLe(a: real, b: real)
    requires 0.0 <= a && 0.0 <= b && a * a <= b * b
    ensures a <= b
  {
    if b < a {
      MulStrictMonotone(b, a, b, a);
    }
  }

  /** Products of non-negative numbers are monotone in both factors. */
  lemma MulStrictMonotone(a: real, b: real, c: real, d: real)
    requires 0.0 <= a < b && 0.0 <= c < d
    ensures a * c < b * d
  {
  }

  /** A positive factor keeps the sign of a product. */
  lemma PositiveFactorSign(k: real, x: real)
    requires 0.0 < k
    ensures k * x < 0.0 <==> x < 0.0
    ensures 0.0 < k * x <==> 0.0 < x
  {
  }

  /** The C++ conversion `int(x)` of a double to an integer: truncation toward zero. */
  function TruncToInt(x: real): (n: int)
    ensures 0.0 <= x ==> n as real <= x < n as real + 1.0
    ensures x < 0.0 ==> n as real - 1.0 < x <= n as real
  {
    if 0.0 <= x then x.Floor else -((-x).Floor)
  }
}
