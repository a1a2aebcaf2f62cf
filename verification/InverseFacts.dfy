/** What the two inversions of libzfec/fec.cc mean as matrix products, and the divisor of `_invert_vdm`. */
module InverseFacts {
  import opened GaloisField
  import opened LinearAlgebra
  import opened Polynomials
  import opened VandermondeTheory
  import opened VandermondeInversion

  lemma MatVecUnit(m: Matrix, j: nat)
    requires IsMatrix(m, |m|, |m|) && j < |m|
    ensures MatVec(m, UnitVec(|m|, j)) == Column(m, j, |m|)
  {
    hide DotN, Mul, Add;
    forall i | 0 <= i < |m|
      ensures Dot(m[i], UnitVec(|m|, j)) == m[i][j]
    {
      DotComm(m[i], UnitVec(|m|, j), |m|);
      DotUnit(m[i], j);
    }
  }

  /** If a matrix undoes another, their products in both orders are the identity matrix. */
  lemma InversesMultiply(m: Matrix, inverse: Matrix, i: nat)
    requires Inverses(m, inverse) && i < |m|
    ensures RowTimes(inverse[i], m, |m|) == UnitVec(|m|, i)
    ensures RowTimes(m[i], inverse, |m|) == UnitVec(|m|, i)
  {
    hide Dot, DotN, Mul, Add;
    var n := |m|;
    forall j | 0 <= j < n
      ensures RowTimes(inverse[i], m, n)[j] == UnitVec(n, i)[j]
      ensures RowTimes(m[i], inverse, n)[j] == UnitVec(n, i)[j]
    {
      MatVecUnit(m, j);
      MatVecUnit(inverse, j);
      assert MatVec(inverse, Column(m, j, n)) == UnitVec(n, j);
      assert MatVec(m, Column(inverse, j, n)) == UnitVec(n, j);
      assert MatVec(inverse, Column(m, j, n))[i] == Dot(inverse[i], Column(m, j, n));
      assert MatVec(m, Column(inverse, j, n))[i] == Dot(m[i], Column(inverse, j, n));
    }
  }

  lemma VandermondeUndoes(points: Vec, y: Vec)
    requires |y| == |points| && Distinct(points)
    ensures MatVec(Vandermonde(points), MatVec(VandermondeInverse(points), y)) == y
  {
    hide Dot, VandermondeInverse, Powers;
    var z := MatVec(VandermondeInverse(points), y);
    forall i | 0 <= i < |points|
      ensures Dot(Vandermonde(points)[i], z) == y[i]
    {
      VandermondeUndo(points, i, y);
    }
  }

  /** A Vandermonde matrix of distinct points takes different vectors to different vectors. */
  lemma VandermondeInjective(points: Vec, x: Vec, z: Vec)
    requires |x| == |z| == |points| && Distinct(points)
    requires MatVec(Vandermonde(points), x) == MatVec(Vandermonde(points), z)
    ensures x == z
  {
    hide Dot, DotN, Eval, Add, Mul;
    var d := seq(|x|, j requires 0 <= j < |x| => Add(x[j], z[j]));
    forall i | 0 <= i < |points|
      ensures Eval(d, points[i]) == 0
    {
      EvalAdd(x, z, d, points[i]);
      DotPowers(points[i], x);
      DotPowers(points[i], z);
      assert MatVec(Vandermonde(points), x)[i] == MatVec(Vandermonde(points), z)[i];
      AddSelf(Eval(x, points[i]));
    }
    RootsForceZero(d, points);
    forall j | 0 <= j < |x|
      ensures x[j] == z[j]
    {
      assert d[j] == Add(x[j], z[j]);
      AddEqual(x[j], z[j]);
    }
  }

  /** What `_invert_vdm` writes is the inverse of what it was given. */
  lemma VandermondeInverted(points: Vec)
    requires Distinct(points)
    ensures Inverses(Vandermonde(points), VandermondeInverse(points))
  {
    hide Dot, VandermondeInverse, MatVec;
    forall x: Vec, y: Vec | |x| == |points| && |y| == |points|
      ensures MatVec(Vandermonde(points), x) == y <==> MatVec(VandermondeInverse(points), y) == x
    {
      VandermondeUndoes(points, y);
      if MatVec(Vandermonde(points), x) == y {
        VandermondeInjective(points, x, MatVec(VandermondeInverse(points), y));
      }
    }
  }

  // ---------------------------------------------------------------- the divisor

  /** The product of x - p over the given points. */
  function Differences(x: Gf, points: Vec): Gf {
    if points == [] then 1
    else Mul(Add(x, points[|points| - 1]), Differences(x, points[..|points| - 1]))
  }

  lemma {:induction false} MonicEval(points: Vec, n: nat, x: Gf)
    requires n <= |points|
    ensures Eval(Monic(points, n), x) == Differences(x, points[..n])
  {
    hide Mul, Add, MulLinear, Eval;
    if n == 0 {
      EvalSingle(1, x);
      assert Monic(points, 0) == [1];
    } else {
      MonicEval(points, n - 1, x);
      MulLinearEval(Monic(points, n - 1), points[n - 1], x);
      assert points[..n][..n - 1] == points[..n - 1];
    }
  }

  function Others(points: Vec, row: nat): Vec
    requires row < |points|
  {
    points[..row] + points[row + 1..]
  }

  lemma OthersDistinct(points: Vec, row: nat)
    requires row < |points| && Distinct(points)
    ensures Distinct(Others(points, row))
    ensures forall i :: 0 <= i < |points| - 1 ==> Others(points, row)[i] == points[if i < row then i else i + 1]
  {}

  /** The quotient by x - p_row is the product of the other factors. */
  lemma CofactorIsProduct(points: Vec, row: nat)
    requires row < |points| && Distinct(points)
    ensures Cofactor(points, row) == Monic(Others(points, row), |points| - 1)
  {
    hide Add, Mul, Eval, Cofactor, Monic;
    var k, others := |points|, Others(points, row);
    var a, b := Cofactor(points, row), Monic(others, k - 1);
    var d := seq(k, j requires 0 <= j < k => Add(a[j], b[j]));
    OthersDistinct(points, row);
    CofactorLeading(points, row);
    MonicLeading(others, k - 1);
    AddSelf(1);
    assert d[k - 1] == 0;
    assert d == d[..k - 1] + [0];
    forall i | 0 <= i < k - 1
      ensures Eval(d[..k - 1], others[i]) == 0
    {
      var x := others[i];
      CofactorElsewhere(points, row, if i < row then i else i + 1);
      MonicRoots(others, k - 1, i);
      EvalAdd(a, b, d, x);
      AddZero(0);
      EvalSnoc(d[..k - 1], 0, x);
      MulZero(Power(x, k - 1));
      AddZero(Eval(d[..k - 1], x));
    }
    RootsForceZero(d[..k - 1], others);
    forall j | 0 <= j < k
      ensures a[j] == b[j]
    {
      assert j < k - 1 ==> d[..k - 1][j] == d[j];
      AddEqual(a[j], b[j]);
    }
  }

  /** `_invert_vdm` divides by the product of p_row - p_j over all other points, which is not zero. */
  lemma DivisorIsProduct(points: Vec, row: nat)
    requires row < |points| && Distinct(points)
    ensures Eval(Cofactor(points, row), points[row]) == Differences(points[row], Others(points, row)) != 0
  {
    hide Eval, Cofactor, Monic, Differences;
    CofactorIsProduct(points, row);
    CofactorNonzero(points, row);
    MonicEval(Others(points, row), |points| - 1, points[row]);
    assert Others(points, row)[..|points| - 1] == Others(points, row);
  }
}
