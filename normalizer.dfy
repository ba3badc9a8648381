/** `standardize` and `rescale` over exact reals, with the sums they rest on. */
module Normalizer {
  import opened Matrices
  import opened Reals

  // ---------------------------------------------------------------------
  // Sums over rows and over a whole matrix.

  function RowSum(s: seq<real>): real {
    if s == [] then 0.0 else s[0] + RowSum(s[1..])
  }

  function RowDot(x: seq<real>, y: seq<real>): real
    requires |x| == |y|
  {
    if x == [] then 0.0 else Mul(x[0], y[0]) + RowDot(x[1..], y[1..])
  }

  function Total(rows: seq<seq<real>>): real {
    if rows == [] then 0.0 else RowSum(rows[0]) + Total(rows[1..])
  }

  /** Two lists of rows of pairwise equal lengths. */
  predicate Conform(xs: seq<seq<real>>, ys: seq<seq<real>>) {
    |xs| == |ys| && forall r :: 0 <= r < |xs| ==> |xs[r]| == |ys[r]|
  }

  function TotalDot(xs: seq<seq<real>>, ys: seq<seq<real>>): real
    requires Conform(xs, ys)
  {
    if xs == [] then 0.0 else RowDot(xs[0], ys[0]) + TotalDot(xs[1..], ys[1..])
  }

  /** Number of elements in a list of rows. */
  function Count(rows: seq<seq<real>>): real {
    if rows == [] then 0.0 else |rows[0]| as real + Count(rows[1..])
  }

  lemma {:induction false} CountRect(rows: seq<seq<real>>, w: nat)
    requires forall r :: 0 <= r < |rows| ==> |rows[r]| == w
    ensures Count(rows) == Mul(|rows| as real, w as real)
  {
    if rows != [] {
      CountRect(rows[1..], w);
      CountStep(|rows| as real, |rows[1..]| as real, w as real);
    }
  }

  /** `np.sum(arr)`. */
  function Sum(m: Matrix<real>): real {
    Total(m.cells)
  }

  /** `np.mean(arr)`. */
  function Mean(m: Matrix<real>): real
    requires m.Size() > 0
  {
    Sum(m) / m.Size() as real
  }

  /** `np.sum(np.multiply(x, y))`: the sum of the elementwise products. */
  function Dot(x: Matrix<real>, y: Matrix<real>): real
    requires SameShape(x, y)
  {
    TotalDot(x.cells, y.cells)
  }

  /** The rows of a matrix hold `arr.size` elements. */
  lemma SizeCount(m: Matrix<real>)
    requires m.Valid()
    ensures Count(m.cells) == m.Size() as real
  {
    CountRect(m.cells, m.width);
    CastProduct(m.height, m.width);
  }

  // ---------------------------------------------------------------------
  // Linearity of the sums.

  predicate RowAffine(s2: seq<real>, s1: seq<real>, a: real, b: real) {
    |s2| == |s1| && forall k :: 0 <= k < |s1| ==> s2[k] == Mul(a, s1[k]) + b
  }

  /** Every cell of `m2` is `a * x + b` for the cell `x` of `m1` at its index. */
  ghost predicate AffineImage(m2: Matrix<real>, m1: Matrix<real>, a: real, b: real) {
    SameShape(m2, m1) &&
    forall r, c :: m1.InRange(r, c) ==> m2.cells[r][c] == Mul(a, m1.cells[r][c]) + b
  }

  lemma {:induction false} RowSumAffine(s2: seq<real>, s1: seq<real>, a: real, b: real)
    requires RowAffine(s2, s1, a, b)
    ensures RowSum(s2) == Mul(a, RowSum(s1)) + Mul(b, |s1| as real)
  {
    if s1 != [] {
      RowSumAffine(s2[1..], s1[1..], a, b);
      AffineStep(a, b, s1[0], RowSum(s1[1..]), |s1[1..]| as real, RowSum(s1), |s1| as real);
    }
  }

  lemma {:induction false} TotalAffine(rows2: seq<seq<real>>, rows1: seq<seq<real>>, a: real, b: real)
    requires |rows2| == |rows1|
    requires forall r :: 0 <= r < |rows1| ==> RowAffine(rows2[r], rows1[r], a, b)
    ensures Total(rows2) == Mul(a, Total(rows1)) + Mul(b, Count(rows1))
  {
    if rows1 != [] {
      RowSumAffine(rows2[0], rows1[0], a, b);
      TotalAffine(rows2[1..], rows1[1..], a, b);
      Regroup(a, b, RowSum(rows1[0]), |rows1[0]| as real, Total(rows1[1..]), Count(rows1[1..]),
              Total(rows1), Count(rows1));
    }
  }

  /** An affine map of the cells maps the sum the same way. */
  lemma SumAffine(m2: Matrix<real>, m1: Matrix<real>, a: real, b: real)
    requires AffineImage(m2, m1, a, b)
    ensures Sum(m2) == Mul(a, Sum(m1)) + Mul(b, m1.Size() as real)
  {
    forall r | 0 <= r < m1.height
      ensures RowAffine(m2.cells[r], m1.cells[r], a, b)
    {
      assert forall k :: 0 <= k < m1.width ==> m1.InRange(r, k);
    }
    TotalAffine(m2.cells, m1.cells, a, b);
    SizeCount(m1);
  }

  lemma {:induction false} RowDotScaled(x2: seq<real>, y2: seq<real>, x1: seq<real>, y1: seq<real>, a: real, b: real)
    requires RowAffine(x2, x1, a, 0.0) && RowAffine(y2, y1, b, 0.0) && |x1| == |y1|
    ensures RowDot(x2, y2) == Mul(a, Mul(b, RowDot(x1, y1)))
  {
    if x1 != [] {
      RowDotScaled(x2[1..], y2[1..], x1[1..], y1[1..], a, b);
      assert x2[0] == Mul(a, x1[0]) && y2[0] == Mul(b, y1[0]);
      ScaleStep(a, b, x1[0], y1[0], RowDot(x1[1..], y1[1..]), RowDot(x1, y1));
    }
  }

  lemma {:induction false} TotalDotScaled(xs2: seq<seq<real>>, ys2: seq<seq<real>>, xs1: seq<seq<real>>, ys1: seq<seq<real>>, a: real, b: real)
    requires Conform(xs1, ys1) && |xs2| == |xs1| && |ys2| == |ys1|
    requires forall r :: 0 <= r < |xs1| ==> RowAffine(xs2[r], xs1[r], a, 0.0) && RowAffine(ys2[r], ys1[r], b, 0.0)
    ensures Conform(xs2, ys2)
    ensures TotalDot(xs2, ys2) == Mul(a, Mul(b, TotalDot(xs1, ys1)))
  {
    if xs1 != [] {
      RowDotScaled(xs2[0], ys2[0], xs1[0], ys1[0], a, b);
      TotalDotScaled(xs2[1..], ys2[1..], xs1[1..], ys1[1..], a, b);
      Factor(a, b, RowDot(xs1[0], ys1[0]), TotalDot(xs1[1..], ys1[1..]), TotalDot(xs1, ys1));
    }
  }

  /** Scaling the two factors scales their elementwise-product sum by both. */
  lemma DotScaled(x2: Matrix<real>, y2: Matrix<real>, x1: Matrix<real>, y1: Matrix<real>, a: real, b: real)
    requires SameShape(x1, y1) && AffineImage(x2, x1, a, 0.0) && AffineImage(y2, y1, b, 0.0)
    ensures SameShape(x2, y2)
    ensures Dot(x2, y2) == Mul(a, Mul(b, Dot(x1, y1)))
  {
    forall r | 0 <= r < x1.height
      ensures RowAffine(x2.cells[r], x1.cells[r], a, 0.0) && RowAffine(y2.cells[r], y1.cells[r], b, 0.0)
    {
      assert forall k :: 0 <= k < x1.width ==> x1.InRange(r, k);
    }
    TotalDotScaled(x2.cells, y2.cells, x1.cells, y1.cells, a, b);
  }

  // ---------------------------------------------------------------------
  // Sums of squares.

  predicate RowZero(s: seq<real>) {
    forall k :: 0 <= k < |s| ==> s[k] == 0.0
  }

  lemma {:induction false} RowSquares(s: seq<real>)
    ensures RowDot(s, s) >= 0.0
    ensures RowDot(s, s) == 0.0 <==> RowZero(s)
  {
    if s != [] {
      RowSquares(s[1..]);
      Square(s[0]);
      assert RowZero(s) <==> s[0] == 0.0 && RowZero(s[1..]);
    }
  }

  lemma {:induction false} TotalSquares(rows: seq<seq<real>>)
    ensures Conform(rows, rows)
    ensures TotalDot(rows, rows) >= 0.0
    ensures TotalDot(rows, rows) == 0.0 <==> forall r :: 0 <= r < |rows| ==> RowZero(rows[r])
  {
    if rows != [] {
      RowSquares(rows[0]);
      TotalSquares(rows[1..]);
      assert (forall r :: 0 <= r < |rows| ==> RowZero(rows[r])) <==>
             RowZero(rows[0]) && forall r :: 0 <= r < |rows[1..]| ==> RowZero(rows[1..][r]);
    }
  }

  /** The sum of squares is never negative, and it is zero exactly when
      every element is zero. */
  lemma Squares(m: Matrix<real>)
    requires m.Valid()
    ensures Dot(m, m) >= 0.0
    ensures Dot(m, m) == 0.0 <==> forall r, c :: m.InRange(r, c) ==> m.cells[r][c] == 0.0
  {
    TotalSquares(m.cells);
    if forall r, c :: m.InRange(r, c) ==> m.cells[r][c] == 0.0 {
      forall r | 0 <= r < m.height ensures RowZero(m.cells[r]) {
        assert forall k :: 0 <= k < m.width ==> m.InRange(r, k);
      }
    }
  }

  lemma {:induction false} RowDotBound(x: seq<real>, y: seq<real>)
    requires |x| == |y|
    ensures 2.0 * RowDot(x, y) <= RowDot(x, x) + RowDot(y, y)
    ensures -(RowDot(x, x) + RowDot(y, y)) <= 2.0 * RowDot(x, y)
  {
    if x != [] {
      RowDotBound(x[1..], y[1..]);
      ProductBound(x[0], y[0]);
    }
  }

  lemma {:induction false} TotalDotBound(xs: seq<seq<real>>, ys: seq<seq<real>>)
    requires Conform(xs, ys)
    ensures Conform(xs, xs) && Conform(ys, ys)
    ensures 2.0 * TotalDot(xs, ys) <= TotalDot(xs, xs) + TotalDot(ys, ys)
    ensures -(TotalDot(xs, xs) + TotalDot(ys, ys)) <= 2.0 * TotalDot(xs, ys)
  {
    if xs != [] {
      RowDotBound(xs[0], ys[0]);
      TotalDotBound(xs[1..], ys[1..]);
    }
  }

  /** Twice the elementwise-product sum is bounded by the two sums of squares
      (the form of Cauchy-Schwarz that unit-norm arrays need). */
  lemma DotBound(x: Matrix<real>, y: Matrix<real>)
    requires SameShape(x, y)
    ensures -(Dot(x, x) + Dot(y, y)) <= 2.0 * Dot(x, y) <= Dot(x, x) + Dot(y, y)
  {
    TotalDotBound(x.cells, y.cells);
  }

  // ---------------------------------------------------------------------
  // standardize

  /** A non-negative square root. The one inside `np.linalg.norm` is not
      modelled; every operation that needs it takes it as a parameter that
      must satisfy this. */
  ghost predicate IsSquareRoot(sqrt: real -> real) {
    forall x {:trigger RootSquared(sqrt, x)} :: 0.0 <= x ==> 0.0 <= sqrt(x) && RootSquared(sqrt, x) == x
  }

  /** `sqrt(x) * sqrt(x)`. The square-root property is stated on this term
      so that it is used only where a proof mentions it. */
  function RootSquared(sqrt: real -> real, x: real): real {
    Mul(sqrt(x), sqrt(x))
  }

  /** `arr - np.mean(arr)`: every element moves by minus the mean, and the
      elements then sum to zero. */
  function Center(m: Matrix<real>): (c: Matrix<real>)
    requires m.Valid() && m.Size() > 0
    ensures AffineImage(c, m, 1.0, -Mean(m))
    ensures Sum(c) == 0.0
  {
    var mean := Mean(m);
    var c := Matrix(m.height, m.width,
                    seq(m.height, r requires 0 <= r < m.height =>
                      seq(m.width, k requires 0 <= k < m.width => m.cells[r][k] - mean)));
    SumAffine(c, m, 1.0, -mean);
    CenterSum(Sum(m), m.Size() as real);
    c
  }

  /** `np.linalg.norm(arr)`: the non-negative number whose square is the sum
      of squares; it is zero exactly for an all-zero array. */
  function Norm(m: Matrix<real>, sqrt: real -> real): (n: real)
    requires m.Valid() && IsSquareRoot(sqrt)
    ensures 0.0 <= n && Mul(n, n) == Dot(m, m)
    ensures n == 0.0 <==> forall r, c :: m.InRange(r, c) ==> m.cells[r][c] == 0.0
  {
    Squares(m);
    var n := sqrt(Dot(m, m));
    assert RootSquared(sqrt, Dot(m, m)) == Dot(m, m);
    Square(n);
    n
  }

  /** `arr / k`: every element scaled by `1 / k`. */
  function Divide(m: Matrix<real>, k: real): (d: Matrix<real>)
    requires m.Valid() && k != 0.0
    ensures AffineImage(d, m, 1.0 / k, 0.0)
  {
    var d := Matrix(m.height, m.width,
                    seq(m.height, r requires 0 <= r < m.height =>
                      seq(m.width, c requires 0 <= c < m.width => m.cells[r][c] / k)));
    assert forall r, c :: m.InRange(r, c) ==> d.cells[r][c] == Mul(1.0 / k, m.cells[r][c]) + 0.0 by {
      forall r, c | m.InRange(r, c) ensures d.cells[r][c] == Mul(1.0 / k, m.cells[r][c]) + 0.0 {
        DivideAsMul(m.cells[r][c], k);
      }
    }
    d
  }

  /** A constant array is its mean everywhere. */
  lemma ConstantMean(m: Matrix<real>)
    requires m.Valid() && m.Size() > 0 && IsConstant(m)
    ensures forall r, c :: m.InRange(r, c) ==> m.cells[r][c] == Mean(m)
  {
    forall r, c | m.InRange(r, c) ensures m.cells[r][c] == Mul(0.0, m.cells[r][c]) + m.cells[0][0] {
      ZeroProduct(0.0, m.cells[r][c]);
    }
    SumAffine(m, m, 0.0, m.cells[0][0]);
    ZeroProduct(0.0, Sum(m));
    QuotientOfMul(m.cells[0][0], m.Size() as real);
  }

  /** Subtracting the mean leaves only zeros exactly when the array is constant. */
  lemma CenteredZero(m: Matrix<real>)
    requires m.Valid() && m.Size() > 0
    ensures IsConstant(m) <==> forall r, c :: m.InRange(r, c) ==> Center(m).cells[r][c] == 0.0
  {
    var c := Center(m);
    if IsConstant(m) {
      ConstantMean(m);
    }
    if forall r, k :: m.InRange(r, k) ==> c.cells[r][k] == 0.0 {
      forall r, k | m.InRange(r, k) ensures m.cells[r][k] == m.cells[0][0] {
        assert c.cells[r][k] == 0.0 && c.cells[0][0] == 0.0;
      }
    }
  }

  /** `standardize(arr)`: subtract the mean, divide by the L2 norm. `None`
      is the all-NaN array numpy computes when the norm is zero, which
      happens exactly for a constant array. Otherwise the result has the
      input's shape, sums to zero and has a sum of squares of one. */
  function Standardize(m: Matrix<real>, sqrt: real -> real): (s: Option<Matrix<real>>)
    requires m.Valid() && m.Size() > 0 && IsSquareRoot(sqrt)
    ensures s.None? <==> IsConstant(m)
    ensures s.Some? ==> SameShape(s.value, m)
    ensures s.Some? ==> Sum(s.value) == 0.0
    ensures s.Some? ==> Dot(s.value, s.value) == 1.0
  {
    var c := Center(m);
    var n := Norm(c, sqrt);
    CenteredZero(m);
    if n == 0.0 then
      None
    else
      var s := Divide(c, n);
      SumAffine(s, c, 1.0 / n, 0.0);
      MulZero(1.0 / n, Sum(c));
      DotScaled(s, s, c, c, 1.0 / n, 1.0 / n);
      UnitFromSquare(n, Dot(c, c));
      Some(s)
  }

  /** Standardizing undoes any brightness shift `b` and any positive contrast
      factor `a`: the result for `a * arr + b` is the result for `arr`. */
  lemma StandardizeAffine(m2: Matrix<real>, m1: Matrix<real>, a: real, b: real, sqrt: real -> real)
    requires m1.Valid() && m1.Size() > 0 && IsSquareRoot(sqrt)
    requires 0.0 < a && AffineImage(m2, m1, a, b)
    ensures m2.Size() > 0
    ensures Standardize(m2, sqrt) == Standardize(m1, sqrt)
  {
    assert m2.Size() == m1.Size();
    var c1, c2 := Center(m1), Center(m2);
    SumAffine(m2, m1, a, b);
    MeanAffine(Sum(m1), m1.Size() as real, a, b, Sum(m2));
    forall r, c | m1.InRange(r, c) ensures c2.cells[r][c] == Mul(a, c1.cells[r][c]) + 0.0 {
      CenterAffine(a, b, m1.cells[r][c], Mean(m1));
    }
    DotScaled(c2, c2, c1, c1, a, a);
    var n1, n2 := Norm(c1, sqrt), Norm(c2, sqrt);
    SquareScaled(a, n1, Dot(c1, c1));
    NonNegativeProduct(a, n1);
    RootUnique(Mul(a, n1), n2);
    if n1 == 0.0 {
      MulZero(a, n1);
    } else {
      PositiveProduct(a, n1);
      var s1, s2 := Divide(c1, n1), Divide(c2, n2);
      forall r, c | s1.InRange(r, c) ensures s2.cells[r][c] == s1.cells[r][c] {
        CancelScale(a, c1.cells[r][c], n1);
      }
      Extensionality(s2, s1);
    }
  }

  // ---------------------------------------------------------------------
  // rescale

  /** Index of a smallest element. */
  function RowArgMin(s: seq<real>): (k: nat)
    requires |s| > 0
    ensures k < |s| && forall j :: 0 <= j < |s| ==> s[k] <= s[j]
  {
    if |s| == 1 then 0
    else
      var k := RowArgMin(s[1..]) + 1;
      if s[0] <= s[k] then 0 else k
  }

  /** Index of a largest element. */
  function RowArgMax(s: seq<real>): (k: nat)
    requires |s| > 0
    ensures k < |s| && forall j :: 0 <= j < |s| ==> s[j] <= s[k]
  {
    if |s| == 1 then 0
    else
      var k := RowArgMax(s[1..]) + 1;
      if s[k] <= s[0] then 0 else k
  }

  predicate Rect(rows: seq<seq<real>>, w: nat) {
    forall r :: 0 <= r < |rows| ==> |rows[r]| == w
  }

  /** Row and column of a smallest element of a non-empty rectangle. */
  function ArgMin(rows: seq<seq<real>>, w: nat): (p: (nat, nat))
    requires |rows| > 0 && w > 0 && Rect(rows, w)
    ensures p.0 < |rows| && p.1 < w
    ensures forall r, c :: 0 <= r < |rows| && 0 <= c < w ==> rows[p.0][p.1] <= rows[r][c]
  {
    var c0 := RowArgMin(rows[0]);
    if |rows| == 1 then (0, c0)
    else
      var p := ArgMin(rows[1..], w);
      if rows[0][c0] <= rows[p.0 + 1][p.1] then (0, c0) else (p.0 + 1, p.1)
  }

  /** Row and column of a largest element of a non-empty rectangle. */
  function ArgMax(rows: seq<seq<real>>, w: nat): (p: (nat, nat))
    requires |rows| > 0 && w > 0 && Rect(rows, w)
    ensures p.0 < |rows| && p.1 < w
    ensures forall r, c :: 0 <= r < |rows| && 0 <= c < w ==> rows[r][c] <= rows[p.0][p.1]
  {
    var c0 := RowArgMax(rows[0]);
    if |rows| == 1 then (0, c0)
    else
      var p := ArgMax(rows[1..], w);
      if rows[p.0 + 1][p.1] <= rows[0][c0] then (0, c0) else (p.0 + 1, p.1)
  }

  /** `arr.min()`: no element is smaller, and some element equals it. */
  function Min(m: Matrix<real>): (v: real)
    requires m.Valid() && m.height > 0 && m.width > 0
    ensures forall r, c :: m.InRange(r, c) ==> v <= m.cells[r][c]
    ensures exists r, c :: m.InRange(r, c) && m.cells[r][c] == v
  {
    var p := ArgMin(m.cells, m.width);
    assert m.InRange(p.0, p.1);
    m.cells[p.0][p.1]
  }

  /** `arr.max()`: no element is larger, and some element equals it. */
  function Max(m: Matrix<real>): (v: real)
    requires m.Valid() && m.height > 0 && m.width > 0
    ensures forall r, c :: m.InRange(r, c) ==> m.cells[r][c] <= v
    ensures exists r, c :: m.InRange(r, c) && m.cells[r][c] == v
  {
    var p := ArgMax(m.cells, m.width);
    assert m.InRange(p.0, p.1);
    m.cells[p.0][p.1]
  }

  /** The smallest and largest elements coincide exactly for a constant array. */
  lemma MinMaxConstant(m: Matrix<real>)
    requires m.Valid() && m.height > 0 && m.width > 0
    ensures Min(m) == Max(m) <==> IsConstant(m)
  {
    if IsConstant(m) {
      var r, c :| m.InRange(r, c) && m.cells[r][c] == Min(m);
      var r', c' :| m.InRange(r', c') && m.cells[r'][c'] == Max(m);
    }
    if Min(m) == Max(m) {
      assert m.InRange(0, 0);
    }
  }

  /** Every element moved to its place between `lo` and `hi`. */
  function Spread(m: Matrix<real>, lo: real, hi: real): (s: Matrix<real>)
    requires m.Valid() && lo < hi
    ensures SameShape(s, m)
    ensures forall r, c :: m.InRange(r, c) ==> s.cells[r][c] == Ratio(m.cells[r][c], lo, hi)
  {
    Matrix(m.height, m.width,
           seq(m.height, r requires 0 <= r < m.height =>
             seq(m.width, c requires 0 <= c < m.width => Ratio(m.cells[r][c], lo, hi))))
  }

  /** Between the extremes every element lands in `[0, 1]`, at 0 exactly on
      the minimum and at 1 exactly on the maximum. */
  lemma SpreadUnit(m: Matrix<real>)
    requires m.Valid() && m.height > 0 && m.width > 0 && Min(m) < Max(m)
    ensures forall r, c :: m.InRange(r, c) ==>
              var x := Spread(m, Min(m), Max(m)).cells[r][c];
              0.0 <= x <= 1.0 &&
              (x == 0.0 <==> m.cells[r][c] == Min(m)) &&
              (x == 1.0 <==> m.cells[r][c] == Max(m))
  {
    forall r, c | m.InRange(r, c)
      ensures var x := Spread(m, Min(m), Max(m)).cells[r][c];
              0.0 <= x <= 1.0 &&
              (x == 0.0 <==> m.cells[r][c] == Min(m)) &&
              (x == 1.0 <==> m.cells[r][c] == Max(m))
    {
      RatioUnit(m.cells[r][c], Min(m), Max(m));
    }
  }

  /** The spread keeps the order between any two elements, both ways. */
  lemma SpreadOrder(m: Matrix<real>, lo: real, hi: real)
    requires m.Valid() && lo < hi
    ensures forall r1, c1, r2, c2 :: m.InRange(r1, c1) && m.InRange(r2, c2) ==>
              (m.cells[r1][c1] <= m.cells[r2][c2] <==>
               Spread(m, lo, hi).cells[r1][c1] <= Spread(m, lo, hi).cells[r2][c2])
  {
    forall r1, c1, r2, c2 | m.InRange(r1, c1) && m.InRange(r2, c2)
      ensures m.cells[r1][c1] <= m.cells[r2][c2] <==>
              Spread(m, lo, hi).cells[r1][c1] <= Spread(m, lo, hi).cells[r2][c2]
    {
      RatioOrder(m.cells[r1][c1], m.cells[r2][c2], lo, hi);
    }
  }

  /** An array within `[0, 1]` that holds both a 0 and a 1 has those extremes. */
  lemma UnitExtremes(s: Matrix<real>, r: nat, c: nat, r': nat, c': nat)
    requires s.Valid() && s.InRange(r, c) && s.InRange(r', c')
    requires forall u, v :: s.InRange(u, v) ==> 0.0 <= s.cells[u][v] <= 1.0
    requires s.cells[r][c] == 0.0 && s.cells[r'][c'] == 1.0
    ensures Min(s) == 0.0 && Max(s) == 1.0
  {
    var r0, c0 :| s.InRange(r0, c0) && s.cells[r0][c0] == Min(s);
    var r1, c1 :| s.InRange(r1, c1) && s.cells[r1][c1] == Max(s);
  }

  /** Spread between its own extremes, an array runs from exactly 0 to exactly 1. */
  lemma SpreadRange(m: Matrix<real>)
    requires m.Valid() && m.height > 0 && m.width > 0 && Min(m) < Max(m)
    ensures Min(Spread(m, Min(m), Max(m))) == 0.0 && Max(Spread(m, Min(m), Max(m))) == 1.0
  {
    var s := Spread(m, Min(m), Max(m));
    SpreadUnit(m);
    var r, c :| m.InRange(r, c) && m.cells[r][c] == Min(m);
    var r', c' :| m.InRange(r', c') && m.cells[r'][c'] == Max(m);
    UnitExtremes(s, r, c, r', c');
  }

  /** `(arr - arr.min()) / (arr.max() - arr.min())` on finite values. `None`
      is the all-NaN array of a division 0 / 0, which happens exactly for a
      constant array. Otherwise every element lands in `[0, 1]`, at 0 exactly
      where the input is smallest and at 1 exactly where it is largest, and the
      order between any two elements is kept. */
  function RescaleValues(m: Matrix<real>): (s: Option<Matrix<real>>)
    requires m.Valid() && m.height > 0 && m.width > 0
    ensures s.None? <==> IsConstant(m)
    ensures s.Some? ==> SameShape(s.value, m)
    ensures s.Some? ==> forall r, c :: m.InRange(r, c) ==>
              0.0 <= s.value.cells[r][c] <= 1.0 &&
              (s.value.cells[r][c] == 0.0 <==> m.cells[r][c] == Min(m)) &&
              (s.value.cells[r][c] == 1.0 <==> m.cells[r][c] == Max(m))
    ensures s.Some? ==> forall r1, c1, r2, c2 :: m.InRange(r1, c1) && m.InRange(r2, c2) ==>
              (m.cells[r1][c1] <= m.cells[r2][c2] <==> s.value.cells[r1][c1] <= s.value.cells[r2][c2])
    ensures s.Some? ==> Min(s.value) == 0.0 && Max(s.value) == 1.0
  {
    MinMaxConstant(m);
    if Max(m) == Min(m) then
      None
    else
      SpreadUnit(m);
      SpreadRange(m);
      SpreadOrder(m, Min(m), Max(m));
      Some(Spread(m, Min(m), Max(m)))
  }

  /** Every element is a number rather than NaN. */
  predicate AllFinite(m: Matrix<Score>)
    requires m.Valid()
  {
    forall r, c :: 0 <= r < m.height && 0 <= c < m.width ==> m.cells[r][c].Finite?
  }

  function Values(m: Matrix<Score>): (v: Matrix<real>)
    requires m.Valid() && AllFinite(m)
    ensures SameShape(v, m)
    ensures forall r, c :: m.InRange(r, c) ==> Finite(v.cells[r][c]) == m.cells[r][c]
  {
    Matrix(m.height, m.width,
           seq(m.height, r requires 0 <= r < m.height =>
             seq(m.width, c requires 0 <= c < m.width => m.cells[r][c].value)))
  }

  /** `rescale(arr)` on a response map. `arr.min()` and `arr.max()` are NaN
      as soon as one element is, and then so is every quotient; otherwise
      this is `RescaleValues`. */
  function Rescale(m: Matrix<Score>): (s: Option<Matrix<real>>)
    requires m.Valid() && m.height > 0 && m.width > 0
    ensures s.None? <==> !AllFinite(m) || IsConstant(Values(m))
    ensures s.Some? ==> AllFinite(m) && s == RescaleValues(Values(m))
    ensures s.Some? ==> SameShape(s.value, m) && Min(s.value) == 0.0 && Max(s.value) == 1.0
  {
    if AllFinite(m) then
      var v := Values(m);
      RescaleValues(v)
    else
      None
  }
}
