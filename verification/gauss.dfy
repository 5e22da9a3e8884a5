/** Gaussian-kernel regression: solve K·w = y for the weights, with K the
    kernel matrix of the scatter abscissae, then evaluate
    y(x) = Σᵢ wᵢ · k(x, xᵢ) at each query abscissa. The exponential and the
    linear solve are parameters of the model. */
module KernelRegression {
  import opened Geometry
  import opened Matrices

  /** Fixed kernel bandwidth σ. */
  const Sigma: real := 100.0
  /** 1/σ², computed once before the loops. */
  const InvSigmaSq: real := 1.0 / (Sigma * Sigma)

  function Square(r: real): real { r * r }

  /** k(a, b) = exp(−½·(a − b)²/σ²), over the exponential `exp`. */
  function Kernel(exp: real -> real, a: real, b: real): real {
    exp(-0.5 * Square(a - b) * InvSigmaSq)
  }

  /** The kernel matrix: 1 on the diagonal, k(xⱼ, xᵢ) in row i, column j elsewhere. */
  function KernelMatrix(exp: real -> real, pts: seq<Point>): (k: Matrix)
    ensures IsMatrix(k, |pts|, |pts|)
  {
    seq(|pts|, i requires 0 <= i < |pts| =>
      seq(|pts|, j requires 0 <= j < |pts| => if i == j then 1.0 else Kernel(exp, pts[j].x, pts[i].x)))
  }

  /** Σ over the nodes `i < m` of wᵢ·k(x, xᵢ). */
  function WeightedKernelSum(exp: real -> real, pts: seq<Point>, w: Vector, x: real, m: nat): real
    requires |w| == |pts| && m <= |pts|
  {
    if m == 0 then 0.0 else WeightedKernelSum(exp, pts, w, x, m - 1) + w[m - 1] * Kernel(exp, x, pts[m - 1].x)
  }

  /** The fitted curve with weights `w`, evaluated at `x`. */
  function KernelCurveAt(exp: real -> real, pts: seq<Point>, w: Vector, x: real): real
    requires |w| == |pts|
  {
    WeightedKernelSum(exp, pts, w, x, |pts|)
  }

  /** The kernel matrix has a unit diagonal, is symmetric, and off the diagonal
      holds exp(−(xⱼ − xᵢ)²/(2σ²)) with σ = 100. */
  lemma KernelMatrixShape(exp: real -> real, pts: seq<Point>)
    ensures IsSymmetric(KernelMatrix(exp, pts), |pts|)
    ensures forall i :: 0 <= i < |pts| ==> KernelMatrix(exp, pts)[i][i] == 1.0
    ensures forall i, j :: 0 <= i < |pts| && 0 <= j < |pts| && i != j ==>
      KernelMatrix(exp, pts)[i][j] == exp(-((pts[j].x - pts[i].x) * (pts[j].x - pts[i].x)) / 20000.0)
  {
    var k := KernelMatrix(exp, pts);
    forall i, j | 0 <= i < |pts| && 0 <= j < |pts| && i != j
      ensures k[i][j] == k[j][i]
      ensures k[i][j] == exp(-((pts[j].x - pts[i].x) * (pts[j].x - pts[i].x)) / 20000.0)
    {
      var d := pts[j].x - pts[i].x;
      assert Square(pts[i].x - pts[j].x) == d * d;
      assert -0.5 * (d * d) * InvSigmaSq == -(d * d) / 20000.0;
    }
  }

  /** Off-diagonal entries depend on the points only through (xⱼ − xᵢ)²: in
      particular, moving every point sideways by the same amount leaves K unchanged. */
  lemma {:induction false} KernelMatrixShiftInvariant(exp: real -> real, pts: seq<Point>, dx: real)
    ensures KernelMatrix(exp, Shift(pts, dx)) == KernelMatrix(exp, pts)
  {
    var moved := Shift(pts, dx);
    var k, k' := KernelMatrix(exp, pts), KernelMatrix(exp, moved);
    forall i | 0 <= i < |pts|
      ensures k'[i] == k[i]
    {
      forall j | 0 <= j < |pts|
        ensures k'[i][j] == k[i][j]
      {
        if i != j {
          var gap, gap' := pts[j].x - pts[i].x, moved[j].x - moved[i].x;
          assert gap' == gap;
          assert Square(gap') == Square(gap);
        }
      }
    }
  }

  /** k(xₖ, xⱼ) is entry (k, j) of K, the diagonal included once exp(0) = 1. */
  lemma KernelAtNodeIsEntry(exp: real -> real, pts: seq<Point>, k: nat, j: nat)
    requires exp(0.0) == 1.0
    requires k < |pts| && j < |pts|
    ensures Kernel(exp, pts[k].x, pts[j].x) == KernelMatrix(exp, pts)[k][j]
  {
    var gap, gap' := pts[k].x - pts[j].x, pts[j].x - pts[k].x;
    if j == k {
      assert gap == 0.0;
      assert Square(gap) == 0.0;
    } else {
      assert gap' == -gap;
      assert Square(gap') == Square(gap);
    }
  }

  /** The curve at node k's abscissa is row k of K applied to the weights. */
  lemma {:induction false} WeightedSumIsKernelRow(exp: real -> real, pts: seq<Point>, w: Vector, k: nat, m: nat)
    requires exp(0.0) == 1.0
    requires |w| == |pts| && k < |pts| && m <= |pts|
    ensures WeightedKernelSum(exp, pts, w, pts[k].x, m) == Dot(KernelMatrix(exp, pts)[k][..m], w[..m])
  {
    var row := KernelMatrix(exp, pts)[k];
    if m > 0 {
      WeightedSumIsKernelRow(exp, pts, w, k, m - 1);
      assert row[..m][..m - 1] == row[..m - 1];
      assert w[..m][..m - 1] == w[..m - 1];
      KernelAtNodeIsEntry(exp, pts, k, m - 1);
    }
  }

  /** When the solver really solves K·w = y and exp(0) = 1, the fitted curve
      passes through every scatter point. */
  lemma ReproducesNodesWhenSolved(exp: real -> real, pts: seq<Point>, w: Vector, k: nat)
    requires exp(0.0) == 1.0
    requires |w| == |pts| && k < |pts|
    requires MatVec(KernelMatrix(exp, pts), w) == Ordinates(pts)
    ensures KernelCurveAt(exp, pts, w, pts[k].x) == pts[k].y
  {
    var row := KernelMatrix(exp, pts)[k];
    WeightedSumIsKernelRow(exp, pts, w, k, |pts|);
    assert row[..|pts|] == row;
    assert w[..|pts|] == w;
  }

  /** The first half of `Gauss`: fill K entry by entry and b with the ordinates. */
  method BuildKernelSystem(exp: real -> real, points: seq<Point>) returns (a: Matrix, b: Vector)
    ensures a == KernelMatrix(exp, points)
    ensures b == Ordinates(points)
  {
    var length := |points|;
    var target := KernelMatrix(exp, points);
    a, b := [], [];
    for i := 0 to length
      invariant a == target[..i]
      invariant b == Ordinates(points)[..i]
    {
      var row := [];
      for j := 0 to length
        invariant row == target[i][..j]
      {
        if i == j {
          row := row + [1.0];
        } else {
          row := row + [Kernel(exp, points[j].x, points[i].x)];
        }
      }
      assert row == target[i];
      a := a + [row];
      b := b + [points[i].y];
    }
    assert a == target;
    assert b == Ordinates(points);
  }

  /** The second half of `Gauss`: evaluate the weighted kernel sum at every query abscissa. */
  method EvaluateKernelCurve(exp: real -> real, points: seq<Point>, w: Vector, xs: seq<real>)
    returns (ys: seq<real>)
    requires |w| == |points|
    ensures |ys| == |xs|
    ensures forall q :: 0 <= q < |xs| ==> ys[q] == KernelCurveAt(exp, points, w, xs[q])
  {
    ys := [];
    for q := 0 to |xs|
      invariant |ys| == q
      invariant forall p :: 0 <= p < q ==> ys[p] == KernelCurveAt(exp, points, w, xs[p])
    {
      var x := xs[q];
      var y := 0.0;
      for i := 0 to |points|
        invariant y == WeightedKernelSum(exp, points, w, x, i)
      {
        y := y + w[i] * Kernel(exp, x, points[i].x);
      }
      ys := ys + [y];
    }
  }

  /** `Gauss`: nothing for fewer than two points; otherwise one value per query
      abscissa, in query order, each Σᵢ wᵢ·k(x, xᵢ) with w = solve(K, y). */
  method Gauss(points: seq<Point>, xs: seq<real>, exp: real -> real, solve: (Matrix, Vector) -> Vector)
    returns (ys: seq<real>)
    requires SquareSolver(solve)
    ensures |points| < 2 ==> ys == []
    ensures |points| >= 2 ==> |ys| == |xs|
    ensures |points| >= 2 ==>
      var w := solve(KernelMatrix(exp, points), Ordinates(points));
      |w| == |points| && forall q :: 0 <= q < |xs| ==> ys[q] == KernelCurveAt(exp, points, w, xs[q])
  {
    ys := [];
    if |points| >= 2 {
      var a, b := BuildKernelSystem(exp, points);
      assert IsMatrix(a, |b|, |b|);
      var w := solve(a, b);
      ys := EvaluateKernelCurve(exp, points, w, xs);
    }
  }
}
