/** Polynomial fits by the normal equations: least squares solves
    (AᵀA)·c = Aᵀb and ridge regression solves (AᵀA + λI)·c = Aᵀb, with A the
    design matrix of powers of the abscissae. Each solve is a matrix inverse
    applied to Aᵀb; the inverse is a parameter of the model. */
module PolynomialFit {
  import opened Geometry
  import opened Matrices

  /** xⁿ, with x⁰ = 1 for every x (0⁰ included). */
  function Pow(x: real, n: nat): real {
    if n == 0 then 1.0 else x * Pow(x, n - 1)
  }

  lemma {:induction false} PowAdd(x: real, i: nat, j: nat)
    ensures Pow(x, i) * Pow(x, j) == Pow(x, i + j)
    decreases i
  {
    if i > 0 {
      PowAdd(x, i - 1, j);
      assert Pow(x, i) * Pow(x, j) == x * (Pow(x, i - 1) * Pow(x, j));
    }
  }

  /** The effective degree: the requested `highest`, lowered to `length − 2` when
      that is smaller, so the system never has more unknowns than points less one. */
  function ClampDegree(highest: int, length: int): (d: int)
    ensures d <= highest && d <= length - 2
    ensures d == highest || d == length - 2
    ensures length > 2 && highest >= 1 ==> 2 <= d + 1 <= length - 1
  {
    if length - 2 > highest then highest else length - 2
  }

  /** The design matrix: one row per point, holding x⁰ … x^d of its abscissa. */
  function DesignMatrix(pts: seq<Point>, d: nat): (a: Matrix)
    ensures IsMatrix(a, |pts|, d + 1)
  {
    seq(|pts|, i requires 0 <= i < |pts| => seq(d + 1, j requires 0 <= j < d + 1 => Pow(pts[i].x, j)))
  }

  /** AᵀA. */
  function NormalMatrix(a: Matrix, cols: nat): (n: Matrix)
    requires IsMatrix(a, |a|, cols)
    ensures IsMatrix(n, cols, cols)
  {
    MatMul(Transpose(a, cols), a, cols)
  }

  /** AᵀA + λI. */
  function RidgeMatrix(a: Matrix, cols: nat, penalty: real): (r: Matrix)
    requires IsMatrix(a, |a|, cols)
    ensures IsMatrix(r, cols, cols)
  {
    MatAdd(NormalMatrix(a, cols), Scale(penalty, Identity(cols), cols, cols), cols, cols)
  }

  /** Aᵀb. */
  function NormalRhs(a: Matrix, cols: nat, b: Vector): (r: Vector)
    requires IsMatrix(a, |b|, cols)
    ensures |r| == cols
  {
    MatVec(Transpose(a, cols), b)
  }

  /** Σ over the indices `i < m` of cᵢ·xⁱ. */
  function PowerSumUpTo(c: Vector, x: real, m: nat): real
    requires m <= |c|
  {
    if m == 0 then 0.0 else PowerSumUpTo(c, x, m - 1) + c[m - 1] * Pow(x, m - 1)
  }

  /** The polynomial with coefficients `c` (constant term first), evaluated at `x`. */
  function PolyValue(c: Vector, x: real): real {
    PowerSumUpTo(c, x, |c|)
  }

  /** Horner's rule: an independent evaluation order for the same polynomial. */
  function Horner(c: Vector, x: real): real
    decreases |c|
  {
    if |c| == 0 then 0.0 else c[0] + x * Horner(c[1..], x)
  }

  lemma {:induction false} PowerSumPeelsConstant(c: Vector, x: real, m: nat)
    requires 1 <= m <= |c|
    ensures PowerSumUpTo(c, x, m) == c[0] + x * PowerSumUpTo(c[1..], x, m - 1)
  {
    if m > 1 {
      PowerSumPeelsConstant(c, x, m - 1);
      assert c[1..][m - 2] == c[m - 1];
      assert c[m - 1] * Pow(x, m - 1) == x * (c[1..][m - 2] * Pow(x, m - 2));
    }
  }

  /** The power sum the fitting code evaluates equals Horner's rule. */
  lemma {:induction false} PolyValueIsHorner(c: Vector, x: real)
    ensures PolyValue(c, x) == Horner(c, x)
    decreases |c|
  {
    if |c| > 0 {
      PowerSumPeelsConstant(c, x, |c|);
      PolyValueIsHorner(c[1..], x);
    }
  }

  /** The polynomial with coefficients `c` sampled at every query abscissa. */
  function Curve(c: Vector, xs: seq<real>): (ys: seq<real>)
    ensures |ys| == |xs|
  {
    seq(|xs|, q requires 0 <= q < |xs| => PolyValue(c, xs[q]))
  }

  /** The least-squares coefficients of degree `d`: inverse(AᵀA)·Aᵀb. */
  function LeastSquaresCoefficients(pts: seq<Point>, d: nat, inverse: Matrix -> Matrix): (c: Vector)
    requires SquareInverse(inverse)
    ensures |c| == d + 1
  {
    var a := DesignMatrix(pts, d);
    MatVec(inverse(NormalMatrix(a, d + 1)), NormalRhs(a, d + 1, Ordinates(pts)))
  }

  /** The ridge coefficients of degree `d`: inverse(AᵀA + λI)·Aᵀb. */
  function RidgeCoefficients(pts: seq<Point>, d: nat, penalty: real, inverse: Matrix -> Matrix): (c: Vector)
    requires SquareInverse(inverse)
    ensures |c| == d + 1
  {
    var a := DesignMatrix(pts, d);
    MatVec(inverse(RidgeMatrix(a, d + 1, penalty)), NormalRhs(a, d + 1, Ordinates(pts)))
  }

  /** The least-squares curve: empty for at most two points. */
  function LeastSquaresCurve(pts: seq<Point>, highest: int, inverse: Matrix -> Matrix, xs: seq<real>): seq<real>
    requires highest >= 0 && SquareInverse(inverse)
  {
    if |pts| <= 2 then [] else Curve(LeastSquaresCoefficients(pts, ClampDegree(highest, |pts|), inverse), xs)
  }

  /** The ridge-regression curve: empty for at most two points. */
  function RidgeCurve(pts: seq<Point>, highest: int, penalty: real, inverse: Matrix -> Matrix, xs: seq<real>): seq<real>
    requires highest >= 0 && SquareInverse(inverse)
  {
    if |pts| <= 2 then [] else Curve(RidgeCoefficients(pts, ClampDegree(highest, |pts|), penalty, inverse), xs)
  }

  /** Σ over the points `k < m` of x_kᵉ. */
  function AbscissaPowerSum(pts: seq<Point>, e: nat, m: nat): real
    requires m <= |pts|
  {
    if m == 0 then 0.0 else AbscissaPowerSum(pts, e, m - 1) + Pow(pts[m - 1].x, e)
  }

  lemma {:induction false} ColumnProductIsPowerSum(pts: seq<Point>, d: nat, i: nat, j: nat, m: nat)
    requires i <= d && j <= d && m <= |pts|
    ensures Dot(Column(DesignMatrix(pts, d), i)[..m], Column(DesignMatrix(pts, d), j)[..m])
         == AbscissaPowerSum(pts, i + j, m)
  {
    if m > 0 {
      var a := DesignMatrix(pts, d);
      var u, v := Column(a, i), Column(a, j);
      var x := pts[m - 1].x;
      ColumnProductIsPowerSum(pts, d, i, j, m - 1);
      assert u[..m][..m - 1] == u[..m - 1];
      assert v[..m][..m - 1] == v[..m - 1];
      assert u[m - 1] == Pow(x, i) && v[m - 1] == Pow(x, j);
      assert Dot(u[..m], v[..m]) == Dot(u[..m - 1], v[..m - 1]) + Pow(x, i) * Pow(x, j);
      PowAdd(x, i, j);
    }
  }

  /** Entry (i, j) of the least-squares matrix built from the design matrix is
      the power sum Σₖ x_k^(i+j). */
  lemma NormalMatrixEntry(pts: seq<Point>, d: nat, i: nat, j: nat)
    requires i <= d && j <= d
    ensures NormalMatrix(DesignMatrix(pts, d), d + 1)[i][j] == AbscissaPowerSum(pts, i + j, |pts|)
  {
    var a := DesignMatrix(pts, d);
    assert Transpose(a, d + 1)[i] == Column(a, i);
    ColumnProductIsPowerSum(pts, d, i, j, |pts|);
    assert Column(a, i)[..|pts|] == Column(a, i);
    assert Column(a, j)[..|pts|] == Column(a, j);
  }

  /** The least-squares matrix built from the design matrix is square of size
      d + 1 and symmetric. */
  lemma NormalMatrixOfDesignSymmetric(pts: seq<Point>, d: nat)
    ensures IsSymmetric(NormalMatrix(DesignMatrix(pts, d), d + 1), d + 1)
  {
    TransposeProductSymmetric(DesignMatrix(pts, d), d + 1);
  }

  /** Σ over the points `k < m` of x_kᵉ·y_k. */
  function OrdinateMoment(pts: seq<Point>, e: nat, m: nat): real
    requires m <= |pts|
  {
    if m == 0 then 0.0 else OrdinateMoment(pts, e, m - 1) + Pow(pts[m - 1].x, e) * pts[m - 1].y
  }

  lemma {:induction false} ColumnOrdinateProduct(pts: seq<Point>, d: nat, i: nat, m: nat)
    requires i <= d && m <= |pts|
    ensures Dot(Column(DesignMatrix(pts, d), i)[..m], Ordinates(pts)[..m]) == OrdinateMoment(pts, i, m)
  {
    if m > 0 {
      var u, b := Column(DesignMatrix(pts, d), i), Ordinates(pts);
      ColumnOrdinateProduct(pts, d, i, m - 1);
      assert u[..m][..m - 1] == u[..m - 1];
      assert b[..m][..m - 1] == b[..m - 1];
      assert u[m - 1] == Pow(pts[m - 1].x, i) && b[m - 1] == pts[m - 1].y;
    }
  }

  /** Entry i of the right-hand side Aᵀb, for A the design matrix and b the
      ordinates, is the moment Σₖ x_kⁱ·y_k. */
  lemma NormalRhsEntry(pts: seq<Point>, d: nat, i: nat)
    requires i <= d
    ensures NormalRhs(DesignMatrix(pts, d), d + 1, Ordinates(pts))[i] == OrdinateMoment(pts, i, |pts|)
  {
    var a := DesignMatrix(pts, d);
    assert Transpose(a, d + 1)[i] == Column(a, i);
    ColumnOrdinateProduct(pts, d, i, |pts|);
    assert Column(a, i)[..|pts|] == Column(a, i);
    assert Ordinates(pts)[..|pts|] == Ordinates(pts);
  }

  /** The ridge matrix is the least-squares matrix with λ added on the diagonal
      and nothing changed off it; so it is symmetric too. */
  lemma RidgeMatrixAddsDiagonal(a: Matrix, cols: nat, penalty: real)
    requires IsMatrix(a, |a|, cols)
    ensures forall i, j :: 0 <= i < cols && 0 <= j < cols ==>
      RidgeMatrix(a, cols, penalty)[i][j] == NormalMatrix(a, cols)[i][j] + (if i == j then penalty else 0.0)
    ensures IsSymmetric(RidgeMatrix(a, cols, penalty), cols)
  {
    TransposeProductSymmetric(a, cols);
  }

  /** With λ = 0 the ridge matrix is the least-squares matrix. */
  lemma RidgeWithoutPenaltyIsNormal(a: Matrix, cols: nat)
    requires IsMatrix(a, |a|, cols)
    ensures RidgeMatrix(a, cols, 0.0) == NormalMatrix(a, cols)
  {
    var r, n := RidgeMatrix(a, cols, 0.0), NormalMatrix(a, cols);
    RidgeMatrixAddsDiagonal(a, cols, 0.0);
    forall i | 0 <= i < cols
      ensures r[i] == n[i]
    {
    }
  }

  /** Given the same inverse, ridge regression with λ = 0 draws the least-squares curve. */
  lemma RidgeZeroIsLeastSquares(pts: seq<Point>, highest: int, inverse: Matrix -> Matrix, xs: seq<real>)
    requires highest >= 0 && SquareInverse(inverse)
    ensures RidgeCurve(pts, highest, 0.0, inverse, xs) == LeastSquaresCurve(pts, highest, inverse, xs)
  {
    if |pts| > 2 {
      var d := ClampDegree(highest, |pts|);
      RidgeWithoutPenaltyIsNormal(DesignMatrix(pts, d), d + 1);
    }
  }

  /** Asking for any degree at or above length − 2 fits the same curve as asking for length − 2. */
  lemma ClampSaturates(pts: seq<Point>, highest: int, penalty: real, inverse: Matrix -> Matrix, xs: seq<real>)
    requires |pts| > 2 && highest >= |pts| - 2 && SquareInverse(inverse)
    ensures LeastSquaresCurve(pts, highest, inverse, xs) == LeastSquaresCurve(pts, |pts| - 2, inverse, xs)
    ensures RidgeCurve(pts, highest, penalty, inverse, xs) == RidgeCurve(pts, |pts| - 2, penalty, inverse, xs)
  {
  }

  /** With three points the clamp lowers every requested degree of at least 1
      to 1, so least squares and ridge regression both draw a straight line
      c₀ + c₁·x, which cannot pass through three points that are not collinear. */
  lemma ThreePointsFitALine(pts: seq<Point>, highest: int, penalty: real, inverse: Matrix -> Matrix, xs: seq<real>)
    requires |pts| == 3 && highest >= 1 && SquareInverse(inverse)
    ensures ClampDegree(highest, |pts|) == 1
    ensures var c := LeastSquaresCoefficients(pts, 1, inverse);
      forall q :: 0 <= q < |xs| ==> LeastSquaresCurve(pts, highest, inverse, xs)[q] == c[0] + c[1] * xs[q]
    ensures var c := RidgeCoefficients(pts, 1, penalty, inverse);
      forall q :: 0 <= q < |xs| ==> RidgeCurve(pts, highest, penalty, inverse, xs)[q] == c[0] + c[1] * xs[q]
  {
    forall c: Vector, x: real | |c| == 2
      ensures PolyValue(c, x) == c[0] + c[1] * x
    {
      assert Pow(x, 0) == 1.0 && Pow(x, 1) == x;
      assert PowerSumUpTo(c, x, 1) == c[0];
      assert PowerSumUpTo(c, x, 2) == c[0] + c[1] * x;
    }
  }

  /** The shared first half of `LSM` and `RR`: fill A with powers of each
      abscissa, column by column, and b with the ordinates. */
  method BuildDesign(points: seq<Point>, d: nat) returns (a: Matrix, b: Vector)
    ensures IsMatrix(a, |points|, d + 1)
    ensures forall i, j :: 0 <= i < |points| && 0 <= j <= d ==> a[i][j] == Pow(points[i].x, j)
    ensures a == DesignMatrix(points, d)
    ensures b == Ordinates(points)
  {
    var target := DesignMatrix(points, d);
    a, b := [], [];
    for i := 0 to |points|
      invariant a == target[..i]
      invariant b == Ordinates(points)[..i]
    {
      var row := [];
      for j := 0 to d + 1
        invariant row == target[i][..j]
      {
        row := row + [Pow(points[i].x, j)];
      }
      assert row == target[i];
      a := a + [row];
      b := b + [points[i].y];
    }
    assert a == target;
    assert b == Ordinates(points);
  }

  /** The shared last half of `LSM` and `RR`: start from the constant term and
      add cᵢ·xⁱ for i = 1 … d at every query abscissa. */
  method EvaluatePolynomial(c: Vector, xs: seq<real>) returns (ys: seq<real>)
    requires |c| >= 1
    ensures ys == Curve(c, xs)
    ensures forall q :: 0 <= q < |xs| ==> ys[q] == Horner(c, xs[q])
  {
    ys := [];
    for q := 0 to |xs|
      invariant |ys| == q
      invariant forall p :: 0 <= p < q ==> ys[p] == PolyValue(c, xs[p])
    {
      var x := xs[q];
      var y := c[0];
      for i := 1 to |c|
        invariant y == PowerSumUpTo(c, x, i)
      {
        y := y + c[i] * Pow(x, i);
      }
      ys := ys + [y];
    }
    forall q | 0 <= q < |xs|
      ensures ys[q] == Horner(c, xs[q])
    {
      PolyValueIsHorner(c, xs[q]);
    }
  }

  /** `LSM`: nothing for at most two points; otherwise one value per query
      abscissa, sampling the polynomial whose coefficients are inverse(AᵀA)·Aᵀb. */
  method LeastSquares(points: seq<Point>, highest: int, xs: seq<real>, inverse: Matrix -> Matrix)
    returns (ys: seq<real>)
    requires highest >= 0 && SquareInverse(inverse)
    ensures |points| <= 2 ==> ys == []
    ensures |points| > 2 ==> |ys| == |xs|
    ensures ys == LeastSquaresCurve(points, highest, inverse, xs)
  {
    var length := |points|;
    var d := ClampDegree(highest, length);
    ys := [];
    if length > 2 {
      var a, b := BuildDesign(points, d);
      var ata := NormalMatrix(a, d + 1);
      var atb := NormalRhs(a, d + 1, b);
      var c := MatVec(inverse(ata), atb);
      ys := EvaluatePolynomial(c, xs);
    }
  }

  /** `RR`: as `LSM`, with λ added to the diagonal of AᵀA before inverting. */
  method Ridge(points: seq<Point>, highest: int, penalty: real, xs: seq<real>, inverse: Matrix -> Matrix)
    returns (ys: seq<real>)
    requires highest >= 0 && SquareInverse(inverse)
    ensures |points| <= 2 ==> ys == []
    ensures |points| > 2 ==> |ys| == |xs|
    ensures ys == RidgeCurve(points, highest, penalty, inverse, xs)
  {
    var length := |points|;
    var d := ClampDegree(highest, length);
    ys := [];
    if length > 2 {
      var a, b := BuildDesign(points, d);
      var ataAdd := RidgeMatrix(a, d + 1, penalty);
      var atb := NormalRhs(a, d + 1, b);
      var c := MatVec(inverse(ataAdd), atb);
      ys := EvaluatePolynomial(c, xs);
    }
  }
}
