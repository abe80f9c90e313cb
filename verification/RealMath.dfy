/** The little of `math` the geometry needs, over exact reals. Products that a proof must carry
    around unexpanded are written with `Times` and `Square`, whose bodies the proof can then hide. */
module RealMath {

  function Min(a: real, b: real): real {
    if a <= b then a else b
  }

  function Max(a: real, b: real): real {
    if a >= b then a else b
  }

  function Abs(a: real): real {
    if a >= 0.0 then a else -a
  }

  /** The smallest integer not below `a`. */
  function Ceil(a: real): (n: int)
    ensures (n - 1) as real < a <= n as real
  {
    -((-a).Floor)
  }

  lemma CeilUnique(a: real, n: int)
    requires (n - 1) as real < a <= n as real
    ensures Ceil(a) == n
  {
  }

  function Times(a: real, b: real): real {
    a * b
  }

  function Square(a: real): real {
    a * a
  }

  lemma ProductPositive(a: real, b: real, p: real)
    requires (a > 0.0 && b > 0.0) || (a < 0.0 && b < 0.0)
    requires p == a * b
    ensures p > 0.0
  {
  }

  lemma TimesNonNegative(a: real, b: real)
    requires a >= 0.0 && b >= 0.0
    ensures Times(a, b) >= 0.0
  {
    if a > 0.0 && b > 0.0 {
      ProductPositive(a, b, Times(a, b));
    }
  }

  lemma TimesPositive(a: real, b: real)
    requires a > 0.0 && b > 0.0
    ensures Times(a, b) > 0.0
  {
    ProductPositive(a, b, Times(a, b));
  }

  lemma TimesLinear(a: real, b: real, k: real)
    ensures Times(k, a + b) == Times(k, a) + Times(k, b)
    ensures Times(k, a - b) == Times(k, a) - Times(k, b)
    ensures Times(a, k) == Times(k, a)
  {
  }

  lemma TimesMonotone(a: real, b: real, c: real)
    requires a <= b && c >= 0.0
    ensures Times(c, a) <= Times(c, b)
    ensures Times(a, c) <= Times(b, c)
  {
    TimesNonNegative(b - a, c);
    TimesLinear(b, a, c);
    TimesLinear(b - a, 0.0, c);
    TimesLinear(a, 0.0, c);
  }

  lemma SquarePositive(a: real)
    requires a != 0.0
    ensures Square(a) > 0.0
  {
    ProductPositive(a, a, Square(a));
  }

  lemma SquareNonNegative(a: real)
    ensures Square(a) >= 0.0
  {
    if a != 0.0 {
      SquarePositive(a);
    }
  }

  lemma DifferenceOfSquares(a: real, b: real)
    ensures Square(a) - Square(b) == Times(a - b, a + b)
  {
  }

  /** Squares order non-negative numbers as the numbers themselves. */
  lemma SquareOrder(a: real, b: real)
    requires a >= 0.0 && b >= 0.0
    ensures Square(a) <= Square(b) <==> a <= b
  {
    hide *;
    DifferenceOfSquares(a, b);
    DifferenceOfSquares(b, a);
    if a <= b {
      TimesNonNegative(b - a, b + a);
    } else {
      TimesPositive(a - b, a + b);
    }
  }

  lemma SquareOfSum(a: real, b: real)
    ensures Square(a + b) == Square(a) + 2.0 * Times(a, b) + Square(b)
    ensures Square(a - b) == Square(a) - 2.0 * Times(a, b) + Square(b)
    ensures Square(-a) == Square(a)
  {
  }

  lemma TimesRegroup(a: real, b: real, c: real)
    ensures Times(a, Times(b, c)) == Times(Times(a, b), c)
    ensures Times(a, b) == Times(b, a)
    ensures Square(Times(a, b)) == Times(Square(a), Square(b))
  {
  }

  lemma QuotientBack(n: real, d: real)
    requires d != 0.0
    ensures Times(n / d, d) == n
  {
  }

  /** A quotient is what multiplies back to the numerator. */
  lemma QuotientIs(n: real, d: real, q: real)
    requires d != 0.0 && Times(q, d) == n
    ensures n / d == q
  {
  }

  lemma UnitQuotient(n: real, d: real)
    requires 0.0 <= n <= d && 0.0 < d
    ensures 0.0 <= n / d <= 1.0
  {
  }

  lemma TimesUnits(a: real)
    ensures Times(a, 0.0) == 0.0 && Times(0.0, a) == 0.0
    ensures Times(a, 1.0) == a && Times(1.0, a) == a
  {
  }

  lemma TimesNegate(a: real, b: real)
    ensures Times(-a, b) == -Times(a, b)
    ensures Times(a, -b) == -Times(a, b)
  {
  }
}
