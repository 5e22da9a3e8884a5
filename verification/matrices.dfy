/** Dense real vectors and matrices as nested sequences (row-major), with the
    operations the fitting code takes from its linear-algebra library. The
    library's solvers are not modelled: they enter as function parameters,
    constrained only by the shape of what they return. */
module Matrices {

  type Vector = seq<real>
  type Matrix = seq<seq<real>>

  /** `m` has exactly `rows` rows of `cols` entries each. */
  ghost predicate IsMatrix(m: Matrix, rows: nat, cols: nat) {
    |m| == rows && forall i :: 0 <= i < rows ==> |m[i]| == cols
  }

  /** `m` is an `n`-by-`n` matrix equal to its transpose. */
  ghost predicate IsSymmetric(m: Matrix, n: nat) {
    IsMatrix(m, n, n) && forall i, j :: 0 <= i < n && 0 <= j < n ==> m[i][j] == m[j][i]
  }

  /** A linear solve `solve(m, b)` (the `w` with `m·w = b`) returns, for a square
      system, a vector with one entry per unknown. Nothing else is assumed. */
  ghost predicate SquareSolver(solve: (Matrix, Vector) -> Vector) {
    forall m, b :: IsMatrix(m, |b|, |b|) ==> |solve(m, b)| == |b|
  }

  /** A matrix inverse maps an `n`-by-`n` matrix to an `n`-by-`n` matrix.
      Nothing else is assumed. */
  ghost predicate SquareInverse(inverse: Matrix -> Matrix) {
    forall m {:trigger inverse(m)} :: IsMatrix(m, |m|, |m|) ==> IsMatrix(inverse(m), |m|, |m|)
  }

  /** Sum of the pairwise products of `u` and `v`, accumulated from index 0 upwards. */
  function Dot(u: Vector, v: Vector): real
    requires |u| == |v|
    decreases |u|
  {
    if |u| == 0 then 0.0 else Dot(u[..|u| - 1], v[..|v| - 1]) + u[|u| - 1] * v[|v| - 1]
  }

  lemma {:induction false} DotCommutes(u: Vector, v: Vector)
    requires |u| == |v|
    ensures Dot(u, v) == Dot(v, u)
    decreases |u|
  {
    if |u| > 0 {
      DotCommutes(u[..|u| - 1], v[..|v| - 1]);
    }
  }

  /** Column `j` of `m`. */
  function Column(m: Matrix, j: nat): (c: Vector)
    requires forall i :: 0 <= i < |m| ==> j < |m[i]|
    ensures |c| == |m|
    ensures forall i :: 0 <= i < |m| ==> c[i] == m[i][j]
  {
    seq(|m|, i requires 0 <= i < |m| && j < |m[i]| => m[i][j])
  }

  function Transpose(m: Matrix, cols: nat): (t: Matrix)
    requires IsMatrix(m, |m|, cols)
    ensures IsMatrix(t, cols, |m|)
    ensures forall i, j :: 0 <= i < cols && 0 <= j < |m| ==> t[i][j] == m[j][i]
  {
    seq(cols, j requires 0 <= j < cols => Column(m, j))
  }

  /** Product of a matrix `p` with `|q|` columns and a matrix `q` with `cols` columns. */
  function MatMul(p: Matrix, q: Matrix, cols: nat): (r: Matrix)
    requires IsMatrix(q, |q|, cols)
    requires IsMatrix(p, |p|, |q|)
    ensures IsMatrix(r, |p|, cols)
    ensures forall i, j :: 0 <= i < |p| && 0 <= j < cols ==> r[i][j] == Dot(p[i], Column(q, j))
  {
    seq(|p|, i requires 0 <= i < |p| =>
      seq(cols, j requires 0 <= j < cols => Dot(p[i], Column(q, j))))
  }

  function MatVec(m: Matrix, v: Vector): (r: Vector)
    requires IsMatrix(m, |m|, |v|)
    ensures |r| == |m|
    ensures forall i :: 0 <= i < |m| ==> r[i] == Dot(m[i], v)
  {
    seq(|m|, i requires 0 <= i < |m| => Dot(m[i], v))
  }

  function MatAdd(a: Matrix, b: Matrix, rows: nat, cols: nat): (r: Matrix)
    requires IsMatrix(a, rows, cols) && IsMatrix(b, rows, cols)
    ensures IsMatrix(r, rows, cols)
    ensures forall i, j :: 0 <= i < rows && 0 <= j < cols ==> r[i][j] == a[i][j] + b[i][j]
  {
    seq(rows, i requires 0 <= i < rows =>
      seq(cols, j requires 0 <= j < cols => a[i][j] + b[i][j]))
  }

  function Scale(k: real, m: Matrix, rows: nat, cols: nat): (r: Matrix)
    requires IsMatrix(m, rows, cols)
    ensures IsMatrix(r, rows, cols)
    ensures forall i, j :: 0 <= i < rows && 0 <= j < cols ==> r[i][j] == k * m[i][j]
  {
    seq(rows, i requires 0 <= i < rows =>
      seq(cols, j requires 0 <= j < cols => k * m[i][j]))
  }

  function Identity(n: nat): (r: Matrix)
    ensures IsMatrix(r, n, n)
    ensures forall i, j :: 0 <= i < n && 0 <= j < n ==> r[i][j] == if i == j then 1.0 else 0.0
  {
    seq(n, i requires 0 <= i < n => seq(n, j requires 0 <= j < n => if i == j then 1.0 else 0.0))
  }

  /** The Gram matrix `mᵀ·m` of any matrix is symmetric. */
  lemma TransposeProductSymmetric(m: Matrix, cols: nat)
    requires IsMatrix(m, |m|, cols)
    ensures IsSymmetric(MatMul(Transpose(m, cols), m, cols), cols)
  {
    var t := Transpose(m, cols);
    var g := MatMul(t, m, cols);
    forall j | 0 <= j < cols
      ensures t[j] == Column(m, j)
    {
    }
    forall i, j | 0 <= i < cols && 0 <= j < cols
      ensures g[i][j] == g[j][i]
    {
      DotCommutes(Column(m, i), Column(m, j));
    }
  }
}
