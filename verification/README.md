# Curve fitting on a scatter canvas — Dafny model

The demo places points on a 2-D canvas by mouse clicks and draws up to four
curves through them, recomputed whenever the point list changes. The
engineering core is four free functions in `CanvasSystem.cpp`: each takes the
ordered scatter points and a list of query x-coordinates and returns one
y-value per query x, or nothing when there are too few points:

- `lagrange` — Lagrange interpolation, evaluated term by term (at least 2 points);
- `Gauss` — Gaussian-kernel regression with fixed bandwidth σ = 100: solve K·w = y, evaluate Σᵢ wᵢ·k(x, xᵢ) (at least 2 points);
- `LSM` — least-squares polynomial fit through the normal equations (AᵀA)·c = Aᵀb (more than 2 points);
- `RR` — ridge regression, the same with (AᵀA + λI) (more than 2 points).

`LSM` and `RR` lower the requested degree to `min(highest, length − 2)`.

This project models those four functions over exact `real` arithmetic and
proves what they compute.

Layout (one module per concept):

- `geometry.dfy` — `Geometry`: the `Point` record, the ordinate vector b, distinct abscissae, horizontal shift.
- `matrices.dfy` — `Matrices`: vectors and matrices as nested sequences, with dot product, transpose, product, sum, scaling and identity. It also holds the shape-only contracts `SquareSolver` and `SquareInverse` for the library's linear solves.
- `lagrange.dfy` — `Interpolation`: `lagrange`.
- `gauss.dfy` — `KernelRegression`: `Gauss`.
- `polyfit.dfy` — `PolynomialFit`: `LSM` and `RR` (as `LeastSquares` and `Ridge`) and what they share.

Each C++ function is a Dafny method that follows its loops statement by
statement. The method's contract ties its output to a reference definition
stated separately:

- `Interpolant`: Σᵢ yᵢ·Lᵢ(x);
- `KernelCurveAt`: Σᵢ wᵢ·k(x, xᵢ);
- `LeastSquaresCurve` and `RidgeCurve`: the polynomial built from the solved coefficients.

Lemmas then state the properties of these references: interpolation, kernel
symmetry, the normal-matrix entries, and ridge with λ = 0 being least squares (λ is the parameter `penalty`).

The exponential, the QR solve (`colPivHouseholderQr().solve`) and the matrix
inverse (`.inverse()`) are function-valued parameters. The only thing assumed
about the solve and the inverse is the shape of their result. So every
statement here is about how the systems are built and how the results are
evaluated around the solves. It is never about the numerical quality of a
solve.

`LSM` and `RR` add cᵢ·pow(x, i) term by term; `PolyValueIsHorner` proves this
equals Horner's rule.

Reference definitions, stated once and used by the contracts:

- `KernelRegression.Kernel`: k(a, b) = exp(−½·(a − b)²·(1/σ²)), the kernel of lines 54 and 63.
- `KernelRegression.KernelMatrix`: the matrix of lines 50-54, with 1 on the diagonal and k(x_j, x_i) at row i, column j.
- `PolynomialFit.Pow`: `pow(x, j)` of lines 84, 95 and 128, with x⁰ = 1 (0⁰ included).
- `Interpolation.Interpolant`, `KernelRegression.KernelCurveAt`, `PolynomialFit.LeastSquaresCurve` and `PolynomialFit.RidgeCurve`: the curves the four methods return.

With three points, `LSM` and `RR` always fit a straight line. The clamp lowers
any degree ≥ 1 to 3 − 2 = 1, so they cannot pass through three points that are not collinear
(`ThreePointsFitALine`). For (0, 0), (1, 1), (2, 4), an exact inverse makes
`LSM` return −1/3, 5/3, 11/3 at x = 0, 1, 2, not 0, 1, 4.

## Model

| member | source | states |
|---|---|---|
| Interpolation.Lagrange | homeworks/project/src/hw1/Systems/CanvasSystem.cpp:11-38 | Fewer than 2 points give the empty list. Otherwise the output has exactly one value per query x, in query order, and value q is Σᵢ yᵢ·Lᵢ(xs[q]). When the abscissae are pairwise distinct, a query x equal to point k's x yields point k's y. |
| Interpolation.Recip | homeworks/project/src/hw1/Systems/CanvasSystem.cpp:28 | The reciprocal taken in the inner loop satisfies d·(1/d) = 1 for every nonzero divisor d. |
| Interpolation.BasisVanishesAtOtherNode | homeworks/project/src/hw1/Systems/CanvasSystem.cpp:23-29 | The basis product of node i is 0 at the abscissa of any other node k, because it contains the factor (x_k − x_k). |
| Interpolation.BasisIsOneAtOwnNode | homeworks/project/src/hw1/Systems/CanvasSystem.cpp:23-29 | With distinct abscissae, the basis product of node k is exactly 1 at x_k, because every factor cancels. |
| Interpolation.InterpolantUpToAtNode | homeworks/project/src/hw1/Systems/CanvasSystem.cpp:20-32 | At x_k, the running sum over nodes 0..m−1 is y_k once node k is included and 0 before that. |
| Interpolation.InterpolatesNodes | homeworks/project/src/hw1/Systems/CanvasSystem.cpp:20-31 | The interpolation property: with pairwise-distinct abscissae, the Lagrange sum at point k's x equals point k's y. |
| Interpolation.SquaresEverywhere | homeworks/project/src/hw1/Systems/CanvasSystem.cpp:11-38 | Through (0,0), (1,1), (2,4) the interpolant equals x² at every real x (so 0, 1, 4 at the nodes and 9 at x = 3). |
| KernelRegression.KernelMatrixShape | homeworks/project/src/hw1/Systems/CanvasSystem.cpp:47-54 | The kernel matrix is n×n and symmetric, with a unit diagonal. Off the diagonal it holds exp(−(x_j − x_i)²/20000), i.e. exp(−½·Δ²/σ²) with σ = 100. |
| KernelRegression.KernelMatrixShiftInvariant | homeworks/project/src/hw1/Systems/CanvasSystem.cpp:52-54 | Entries depend only on (x_j − x_i)². Moving every point sideways by the same amount leaves the kernel matrix unchanged. |
| KernelRegression.KernelAtNodeIsEntry | homeworks/project/src/hw1/Systems/CanvasSystem.cpp:52-63 | The evaluation kernel at node k's x, against node j, is the matrix entry (k, j). For j = k this needs exp(0) = 1. |
| KernelRegression.WeightedSumIsKernelRow | homeworks/project/src/hw1/Systems/CanvasSystem.cpp:59-64 | At node k's x, the weighted kernel sum over the first m nodes is the dot product of row k of K with w, both cut to m entries. |
| KernelRegression.ReproducesNodesWhenSolved | homeworks/project/src/hw1/Systems/CanvasSystem.cpp:57-65 | If the solve really returns a w with K·w = y, and exp(0) = 1, then the fitted curve passes through every scatter point. |
| KernelRegression.BuildKernelSystem | homeworks/project/src/hw1/Systems/CanvasSystem.cpp:50-56 | The nested loops produce exactly the kernel matrix and the ordinate vector. |
| KernelRegression.EvaluateKernelCurve | homeworks/project/src/hw1/Systems/CanvasSystem.cpp:59-65 | One value per query x, in order, each Σᵢ wᵢ·exp(−½(x − x_i)²/σ²). |
| KernelRegression.Gauss | homeworks/project/src/hw1/Systems/CanvasSystem.cpp:40-68 | Fewer than 2 points give the empty list. Otherwise the solver's weight vector has one entry per point, and the output has one value per query x, each the kernel sum with w = solve(K, y). |
| Matrices.DotCommutes | homeworks/project/src/hw1/Systems/CanvasSystem.cpp:87 | The dot product that builds AᵀA does not depend on operand order. |
| Matrices.TransposeProductSymmetric | homeworks/project/src/hw1/Systems/CanvasSystem.cpp:87 | The product of a matrix's transpose with the matrix is square and symmetric. |
| PolynomialFit.ClampDegree | homeworks/project/src/hw1/Systems/CanvasSystem.cpp:72 | The effective degree is min(highest, length − 2): at most each bound and equal to one of them. When length > 2 and highest ≥ 1, the number of unknowns d + 1 lies in [2, length − 1]. |
| PolynomialFit.ClampSaturates | homeworks/project/src/hw1/Systems/CanvasSystem.cpp:72-74 | Any requested degree at or above length − 2 gives the same least-squares curve and the same ridge curve as requesting length − 2. |
| PolynomialFit.BuildDesign | homeworks/project/src/hw1/Systems/CanvasSystem.cpp:81-86 | The loops produce an n×(d+1) matrix with A[i][j] = x_iʲ, and b[i] = y_i. |
| PolynomialFit.ColumnProductIsPowerSum | homeworks/project/src/hw1/Systems/CanvasSystem.cpp:84-87 | Over the first m points, columns i and j of the design matrix have dot product Σ_k x_k^(i+j). |
| PolynomialFit.NormalMatrixEntry | homeworks/project/src/hw1/Systems/CanvasSystem.cpp:81-87 | Entry (i, j) of AᵀA, for A the design matrix, is the power sum Σ_k x_k^(i+j). |
| PolynomialFit.ColumnOrdinateProduct | homeworks/project/src/hw1/Systems/CanvasSystem.cpp:85-88 | Over the first m points, column i of the design matrix dotted with the ordinates is Σ_k x_kⁱ·y_k. |
| PolynomialFit.NormalRhsEntry | homeworks/project/src/hw1/Systems/CanvasSystem.cpp:85-88 | Entry i of Aᵀb, for A the design matrix and b the ordinates, is the moment Σ_k x_kⁱ·y_k. |
| PolynomialFit.LeastSquaresCoefficients | homeworks/project/src/hw1/Systems/CanvasSystem.cpp:87-89 | inverse(AᵀA)·Aᵀb has exactly d + 1 coefficients, one per power 0..d. |
| PolynomialFit.RidgeCoefficients | homeworks/project/src/hw1/Systems/CanvasSystem.cpp:120-122 | inverse(AᵀA + λI)·Aᵀb has exactly d + 1 coefficients, one per power 0..d. |
| PolynomialFit.ThreePointsFitALine | homeworks/project/src/hw1/Systems/CanvasSystem.cpp:72-98 | With three points and a requested degree ≥ 1 the effective degree is 1, and every least-squares and every ridge output value is c₀ + c₁·x for the two solved coefficients: a straight line. |
| PolynomialFit.NormalMatrixOfDesignSymmetric | homeworks/project/src/hw1/Systems/CanvasSystem.cpp:81-87 | AᵀA is square of size d + 1 and symmetric. |
| PolynomialFit.RidgeMatrixAddsDiagonal | homeworks/project/src/hw1/Systems/CanvasSystem.cpp:120 | AᵀA + λI equals AᵀA off the diagonal and AᵀA + λ on it. It is symmetric. |
| PolynomialFit.RidgeWithoutPenaltyIsNormal | homeworks/project/src/hw1/Systems/CanvasSystem.cpp:120 | With λ = 0 the ridge system matrix is the least-squares matrix. |
| PolynomialFit.RidgeZeroIsLeastSquares | homeworks/project/src/hw1/Systems/CanvasSystem.cpp:120-122 | Given the same inverse, ridge regression with λ = 0 yields exactly the least-squares output. |
| PolynomialFit.PowerSumPeelsConstant | homeworks/project/src/hw1/Systems/CanvasSystem.cpp:93-95 | The sum c₀ + Σ cᵢxⁱ splits into the constant plus x times the same sum over the shifted coefficients. |
| PolynomialFit.PolyValueIsHorner | homeworks/project/src/hw1/Systems/CanvasSystem.cpp:93-95 | The term-by-term power sum the code evaluates equals Horner's rule. |
| PolynomialFit.EvaluatePolynomial | homeworks/project/src/hw1/Systems/CanvasSystem.cpp:91-97 | One value per query x, in order. Each starts from c₀ and adds cᵢ·xⁱ for i = 1..d, which equals Horner's rule at that x. |
| PolynomialFit.LeastSquares | homeworks/project/src/hw1/Systems/CanvasSystem.cpp:70-100 | At most 2 points give the empty list. Otherwise the output has one value per query x: the polynomial with coefficients inverse(AᵀA)·Aᵀb, built from the clamped degree. |
| PolynomialFit.Ridge | homeworks/project/src/hw1/Systems/CanvasSystem.cpp:102-133 | At most 2 points give the empty list. Otherwise the output has one value per query x: the polynomial with coefficients inverse(AᵀA + λI)·Aᵀb, built from the clamped degree. |

## Left out

- `CanvasSystem::OnUpdate` (lines 135-325): widgets, drawing, mouse and scroll handling, the context menu's point-list edits, and logging. It is UI plumbing tied to a windowing toolkit. Its call sites guard `LSM`/`RR` with more than 2 points and the Lagrange/Gauss drawing with more than 1.
- `CanvasData.h`: a plain state record with defaults (`highest = 1`, `lamda = 1.0f`) and no behaviour.
- IEEE `float` rounding, NaN and infinity, and the accuracy of `exp` and `pow`. All arithmetic is over `real`, and `exp` is an arbitrary `real -> real` parameter.
- The Eigen solves: QR with column pivoting in `Gauss`, and the explicit inverse in `LSM`/`RR`. They are parameters whose only contract is the shape of the result, so singular and ill-conditioned systems are not modelled.
- Interpolation.Lagrange: with two points sharing an x-coordinate, the source divides by zero and produces infinities or NaN. The model reads 1/0 as 0 (`Recip`), so its values in that case are not the source's. The interpolation property is stated only for distinct abscissae.
- PolynomialFit.LeastSquares: requires highest ≥ 0. The source sizes Eigen matrices with highest + 1 columns and reads coefficient 0, which is undefined for a negative degree. The caller's slider keeps highest in 1..10.
- PolynomialFit.Ridge: requires highest ≥ 0, for the same reason as `LeastSquares`.
- PolynomialFit.LeastSquares: with exactly three points it fits a straight line, so it cannot pass through three points that are not collinear. The degree clamp at line 72 fixes the degree at 1, so the output is a straight line (`ThreePointsFitALine`). The model reproduces this behaviour and does not promise an exact fit through three points.
- The Eigen matrices sized before the length check in `LSM`/`RR` are not modelled. With zero points the degree clamps to −2, so the source constructs an Eigen matrix with −1 columns. The caller never reaches that case, and the model returns the empty list.
