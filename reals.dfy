/** Real products and the facts about them that the model uses.

    A product that may be a square is written `Mul(a, b)` rather than
    `a * b`: the solver then treats it as one term, and only the lemmas of
    this module look inside it. */
module Reals {

  function Mul(a: real, b: real): real {
    a * b
  }

  lemma PositiveProduct(a: real, b: real)
    requires 0.0 < a && 0.0 < b
    ensures 0.0 < Mul(a, b)
  {
  }

  lemma NegativeProduct(a: real, b: real)
    requires a < 0.0 && b < 0.0
    ensures 0.0 < Mul(a, b)
  {
  }

  lemma ZeroProduct(a: real, b: real)
    requires a == 0.0
    ensures Mul(a, b) == 0.0
  {
  }

  /** A square is never negative, and it is zero exactly when its root is. */
  lemma Square(x: real)
    ensures Mul(x, x) >= 0.0
    ensures Mul(x, x) == 0.0 <==> x == 0.0
  {
    if 0.0 < x {
      PositiveProduct(x, x);
    } else if x < 0.0 {
      NegativeProduct(x, x);
    } else {
      ZeroProduct(x, x);
    }
  }

  lemma SquareOfSum(p: real, q: real)
    ensures Mul(p + q, p + q) == Mul(p, p) + 2.0 * Mul(p, q) + Mul(q, q)
  {
  }

  lemma SquareOfDifference(p: real, q: real)
    ensures Mul(p - q, p - q) == Mul(p, p) - 2.0 * Mul(p, q) + Mul(q, q)
  {
  }

  /** `2pq <= p^2 + q^2` and `-(p^2 + q^2) <= 2pq`. */
  lemma ProductBound(p: real, q: real)
    ensures 2.0 * Mul(p, q) <= Mul(p, p) + Mul(q, q)
    ensures -(Mul(p, p) + Mul(q, q)) <= 2.0 * Mul(p, q)
  {
    Square(p - q);
    Square(p + q);
    SquareOfSum(p, q);
    SquareOfDifference(p, q);
  }

  lemma DifferenceOfSquares(x: real, y: real)
    ensures Mul(y - x, y + x) == Mul(y, y) - Mul(x, x)
  {
  }

  /** Squaring is strictly increasing on the non-negative reals. */
  lemma SquareLess(x: real, y: real)
    requires 0.0 <= x < y
    ensures Mul(x, x) < Mul(y, y)
  {
    PositiveProduct(y - x, y + x);
    DifferenceOfSquares(x, y);
  }

  /** Non-negative square roots are unique. */
  lemma RootUnique(x: real, y: real)
    requires 0.0 <= x && 0.0 <= y && Mul(x, x) == Mul(y, y)
    ensures x == y
  {
    if x < y {
      SquareLess(x, y);
    } else if y < x {
      SquareLess(y, x);
    }
  }

  /** One step of summing an affine image: the head `a x + b` joins the
      tail's `a r + b n`. */
  lemma AffineStep(a: real, b: real, x: real, r: real, n: real, sum: real, len: real)
    requires sum == x + r && len == n + 1.0
    ensures (Mul(a, x) + b) + (Mul(a, r) + Mul(b, n)) == Mul(a, sum) + Mul(b, len)
  {
  }

  lemma Regroup(a: real, b: real, p1: real, q1: real, p2: real, q2: real, p: real, q: real)
    requires p == p1 + p2 && q == q1 + q2
    ensures (Mul(a, p1) + Mul(b, q1)) + (Mul(a, p2) + Mul(b, q2)) == Mul(a, p) + Mul(b, q)
  {
  }

  /** One step of a scaled product sum: `(a p)(b q) + a (b t) = a (b (p q + t))`. */
  lemma ScaleStep(a: real, b: real, p: real, q: real, t: real, sum: real)
    requires sum == Mul(p, q) + t
    ensures Mul(Mul(a, p), Mul(b, q)) + Mul(a, Mul(b, t)) == Mul(a, Mul(b, sum))
  {
  }

  lemma Factor(a: real, b: real, p: real, q: real, sum: real)
    requires sum == p + q
    ensures Mul(a, Mul(b, p)) + Mul(a, Mul(b, q)) == Mul(a, Mul(b, sum))
  {
  }

  lemma CountStep(n: real, m: real, w: real)
    requires m == n - 1.0
    ensures w + Mul(m, w) == Mul(n, w)
  {
  }

  /** An integer product cast to a real is the product of the casts. */
  lemma CastProduct(h: nat, w: nat)
    ensures (h * w) as real == Mul(h as real, w as real)
  {
  }

  /** Subtracting the mean `s / n` from `n` values removes their sum `s`. */
  lemma CenterSum(s: real, n: real)
    requires 0.0 < n
    ensures Mul(1.0, s) + Mul(-(s / n), n) == 0.0
  {
  }

  lemma DivideAsMul(x: real, k: real)
    requires k != 0.0
    ensures x / k == Mul(1.0 / k, x)
  {
  }

  lemma InverseTimes(n: real)
    requires n != 0.0
    ensures Mul(1.0 / n, n) == 1.0
  {
  }

  /** Dividing a square twice by its positive root leaves one. */
  lemma UnitFromSquare(n: real, d: real)
    requires 0.0 < n && Mul(n, n) == d
    ensures Mul(1.0 / n, Mul(1.0 / n, d)) == 1.0
  {
    InverseTimes(n);
    assert Mul(1.0 / n, Mul(1.0 / n, Mul(n, n))) == Mul(Mul(1.0 / n, n), Mul(1.0 / n, n));
  }

  /** A quotient of `0 <= u <= d` by `d > 0` lies in `[0, 1]`, and is `0` or `1`
      exactly at the ends. */
  lemma UnitQuotient(u: real, d: real)
    requires 0.0 <= u <= d && 0.0 < d
    ensures 0.0 <= u / d <= 1.0
    ensures u / d == 0.0 <==> u == 0.0
    ensures u / d == 1.0 <==> u == d
  {
  }

  /** Dividing by a positive number keeps the order both ways. */
  lemma QuotientOrder(u: real, v: real, d: real)
    requires 0.0 < d
    ensures u <= v <==> u / d <= v / d
  {
  }

  lemma MulZero(a: real, b: real)
    requires b == 0.0
    ensures Mul(a, b) == 0.0
  {
  }

  lemma QuotientOfMul(x: real, n: real)
    requires n != 0.0
    ensures Mul(x, n) / n == x
  {
  }

  lemma NonNegativeProduct(a: real, b: real)
    requires 0.0 <= a && 0.0 <= b
    ensures 0.0 <= Mul(a, b)
  {
  }

  /** The mean of an affine image is the affine image of the mean. */
  lemma MeanAffine(s1: real, n: real, a: real, b: real, s2: real)
    requires 0.0 < n && s2 == Mul(a, s1) + Mul(b, n)
    ensures s2 / n == Mul(a, s1 / n) + b
  {
  }

  lemma CenterAffine(a: real, b: real, x: real, mu: real)
    ensures (Mul(a, x) + b) - (Mul(a, mu) + b) == Mul(a, x - mu) + 0.0
  {
  }

  lemma SquareScaled(a: real, n: real, d: real)
    requires Mul(n, n) == d
    ensures Mul(Mul(a, n), Mul(a, n)) == Mul(a, Mul(a, d))
  {
  }

  /** Scaling a value and its divisor by the same factor cancels. */
  lemma CancelScale(a: real, x: real, n: real)
    requires a != 0.0 && n != 0.0
    ensures Mul(1.0 / Mul(a, n), Mul(a, x)) == Mul(1.0 / n, x)
  {
  }

  /** Where `x` sits between `lo` and `hi`, as a fraction of the distance. */
  function Ratio(x: real, lo: real, hi: real): real
    requires lo < hi
  {
    (x - lo) / (hi - lo)
  }

  lemma RatioUnit(x: real, lo: real, hi: real)
    requires lo <= x <= hi && lo < hi
    ensures 0.0 <= Ratio(x, lo, hi) <= 1.0
    ensures Ratio(x, lo, hi) == 0.0 <==> x == lo
    ensures Ratio(x, lo, hi) == 1.0 <==> x == hi
  {
    UnitQuotient(x - lo, hi - lo);
  }

  lemma RatioOrder(x: real, y: real, lo: real, hi: real)
    requires lo < hi
    ensures x <= y <==> Ratio(x, lo, hi) <= Ratio(y, lo, hi)
  {
    QuotientOrder(x - lo, y - lo, hi - lo);
  }
}
