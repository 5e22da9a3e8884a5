/** Lagrange interpolation through the scatter points, evaluated directly at
    each query abscissa: y(x) = Σᵢ yᵢ · Πⱼ≠ᵢ (x − xⱼ)/(xᵢ − xⱼ). */
module Interpolation {
  import opened Geometry

  /** The reciprocal taken by the product's second factor. When two points
      share an x-coordinate the C++ `lagrange` divides by zero and gets an IEEE
      infinity, which `real` cannot hold; that case is read as 0 here. */
  function Recip(d: real): (r: real)
    ensures d != 0.0 ==> d * r == 1.0
  {
    if d == 0.0 then 0.0 else 1.0 / d
  }

  /** What node `j` contributes to the basis polynomial of node `i` at `x`. */
  function Factor(pts: seq<Point>, i: nat, j: nat, x: real): real
    requires i < |pts| && j < |pts|
  {
    (x - pts[j].x) * Recip(pts[i].x - pts[j].x)
  }

  /** The basis product of node `i` over the nodes `j < m`, skipping `j == i`. */
  function BasisUpTo(pts: seq<Point>, i: nat, x: real, m: nat): real
    requires i < |pts| && m <= |pts|
  {
    if m == 0 then 1.0
    else if m - 1 == i then BasisUpTo(pts, i, x, m - 1)
    else BasisUpTo(pts, i, x, m - 1) * Factor(pts, i, m - 1, x)
  }

  /** Lᵢ(x), the Lagrange basis polynomial of node `i`. */
  function Basis(pts: seq<Point>, i: nat, x: real): real
    requires i < |pts|
  {
    BasisUpTo(pts, i, x, |pts|)
  }

  /** Σ over the nodes `i < m` of yᵢ·Lᵢ(x). */
  function InterpolantUpTo(pts: seq<Point>, x: real, m: nat): real
    requires m <= |pts|
  {
    if m == 0 then 0.0 else InterpolantUpTo(pts, x, m - 1) + pts[m - 1].y * Basis(pts, m - 1, x)
  }

  /** The Lagrange interpolating polynomial of `pts`, evaluated at `x`. */
  function Interpolant(pts: seq<Point>, x: real): real {
    InterpolantUpTo(pts, x, |pts|)
  }

  /** Lᵢ vanishes at every other node: its product holds the factor (xₖ − xₖ). */
  lemma {:induction false} BasisVanishesAtOtherNode(pts: seq<Point>, i: nat, k: nat, m: nat)
    requires i < |pts| && k < |pts| && i != k
    requires k < m <= |pts|
    ensures BasisUpTo(pts, i, pts[k].x, m) == 0.0
  {
    if m - 1 == k {
      assert Factor(pts, i, k, pts[k].x) == 0.0;
    } else {
      BasisVanishesAtOtherNode(pts, i, k, m - 1);
    }
  }

  /** Lₖ is 1 at its own node: with distinct abscissae every factor cancels. */
  lemma {:induction false} BasisIsOneAtOwnNode(pts: seq<Point>, k: nat, m: nat)
    requires DistinctAbscissae(pts)
    requires k < |pts| && m <= |pts|
    ensures BasisUpTo(pts, k, pts[k].x, m) == 1.0
  {
    if m > 0 {
      BasisIsOneAtOwnNode(pts, k, m - 1);
      if m - 1 != k {
        assert pts[k].x - pts[m - 1].x != 0.0;
        assert Factor(pts, k, m - 1, pts[k].x) == 1.0;
      }
    }
  }

  lemma {:induction false} InterpolantUpToAtNode(pts: seq<Point>, k: nat, m: nat)
    requires DistinctAbscissae(pts)
    requires k < |pts| && m <= |pts|
    ensures InterpolantUpTo(pts, pts[k].x, m) == if k < m then pts[k].y else 0.0
  {
    if m > 0 {
      InterpolantUpToAtNode(pts, k, m - 1);
      if m - 1 == k {
        BasisIsOneAtOwnNode(pts, k, |pts|);
      } else {
        BasisVanishesAtOtherNode(pts, m - 1, k, |pts|);
      }
    }
  }

  /** The interpolation property: at node k's abscissa the polynomial takes node k's ordinate. */
  lemma InterpolatesNodes(pts: seq<Point>, k: nat)
    requires DistinctAbscissae(pts)
    requires k < |pts|
    ensures Interpolant(pts, pts[k].x) == pts[k].y
  {
    InterpolantUpToAtNode(pts, k, |pts|);
  }

  /** Three points on the parabola y = x². */
  const Squares: seq<Point> := [Point(0.0, 0.0), Point(1.0, 1.0), Point(2.0, 4.0)]

  /** Through (0, 0), (1, 1), (2, 4) the interpolant is x² at every x: it
      returns 0, 1, 4 at the nodes and, for instance, 9 at x = 3. */
  lemma SquaresEverywhere(x: real)
    ensures Interpolant(Squares, x) == x * x
  {
    var pts := Squares;
    assert Recip(-1.0) == -1.0 && Recip(-2.0) == -0.5 && Recip(1.0) == 1.0 && Recip(2.0) == 0.5;
    assert Factor(pts, 1, 0, x) == x;
    assert Factor(pts, 1, 2, x) == 2.0 - x;
    assert Factor(pts, 2, 0, x) == 0.5 * x;
    assert Factor(pts, 2, 1, x) == x - 1.0;
    assert BasisUpTo(pts, 1, x, 1) == x;
    assert BasisUpTo(pts, 1, x, 2) == x;
    assert BasisUpTo(pts, 1, x, 3) == x * (2.0 - x);
    assert BasisUpTo(pts, 2, x, 1) == 0.5 * x;
    assert BasisUpTo(pts, 2, x, 2) == 0.5 * x * (x - 1.0);
    assert BasisUpTo(pts, 2, x, 3) == 0.5 * x * (x - 1.0);
    assert InterpolantUpTo(pts, x, 1) == 0.0;
    assert InterpolantUpTo(pts, x, 2) == x * (2.0 - x);
    assert InterpolantUpTo(pts, x, 3) == x * (2.0 - x) + 4.0 * (0.5 * x * (x - 1.0));
  }

  /** `lagrange`: nothing for fewer than two points; otherwise one value per
      query abscissa, in query order, computed by the triple loop of the C++ code. */
  method Lagrange(points: seq<Point>, xs: seq<real>) returns (ys: seq<real>)
    ensures |points| < 2 ==> ys == []
    ensures |points| >= 2 ==> |ys| == |xs|
    ensures |points| >= 2 ==> forall q :: 0 <= q < |xs| ==> ys[q] == Interpolant(points, xs[q])
    ensures |points| >= 2 && DistinctAbscissae(points) ==>
      forall q, k :: 0 <= q < |xs| && 0 <= k < |points| && xs[q] == points[k].x ==> ys[q] == points[k].y
  {
    var length := |points|;
    ys := [];
    if length >= 2 {
      for q := 0 to |xs|
        invariant |ys| == q
        invariant forall p :: 0 <= p < q ==> ys[p] == Interpolant(points, xs[p])
      {
        var x := xs[q];
        var y := 0.0;
        for i := 0 to length
          invariant y == InterpolantUpTo(points, x, i)
        {
          var temp := points[i].y;
          for j := 0 to length
            invariant temp == points[i].y * BasisUpTo(points, i, x, j)
          {
            if i != j {
              temp := temp * (x - points[j].x);
              temp := temp * Recip(points[i].x - points[j].x);
            }
          }
          y := y + temp;
        }
        ys := ys + [y];
      }
      if DistinctAbscissae(points) {
        forall q, k | 0 <= q < |xs| && 0 <= k < |points| && xs[q] == points[k].x
          ensures ys[q] == points[k].y
        {
          InterpolatesNodes(points, k);
        }
      }
    }
  }
}
