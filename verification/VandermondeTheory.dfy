/**
 The systematic generator matrix of libzfec/fec.cc: a Vandermonde matrix of distinct points
 times the inverse of its own top block, and why any k of its rows can be inverted.
 */
module VandermondeTheory {
  import opened GaloisField
  import opened LinearAlgebra
  import opened PivotTheory
  import opened Polynomials

  /** The inverse of the Vandermonde matrix of `points`; column `row` is a Lagrange polynomial. */
  ghost function VandermondeInverse(points: Vec): (m: Matrix)
    ensures IsMatrix(m, |points|, |points|)
    ensures forall col, row :: 0 <= col < |points| && 0 <= row < |points| ==>
      m[col][row] == LagrangeTerm(points, row, col)
  {
    var k := |points|;
    seq(k, col requires 0 <= col < k => seq(k, row requires 0 <= row < k => LagrangeTerm(points, row, col)))
  }

  ghost function LagrangeTerm(points: Vec, row: nat, col: nat): Gf
    requires row < |points| && col < |points|
  {
    Mul(Inv(Eval(Cofactor(points, row), points[row])), Cofactor(points, row)[col])
  }

  lemma LagrangeDelta(points: Vec, i: nat, row: nat)
    requires i < |points| && row < |points| && Distinct(points)
    ensures Dot(Powers(points[i], |points|), Column(VandermondeInverse(points), row, |points|))
         == if i == row then 1 else 0
  {
    hide Add, Mul, Inv, Dot, Eval, Cofactor, Powers;
    var k, b, x := |points|, Cofactor(points, row), points[i];
    var t, v := Eval(b, points[row]), Column(VandermondeInverse(points), row, k);
    DotPowers(x, v);
    EvalScale(Inv(t), b, v, x);
    if i == row {
      CofactorNonzero(points, row);
      MulInv(t);
    } else {
      CofactorElsewhere(points, row, i);
      MulZero(Inv(t));
    }
  }

  /** Row `i` of the Vandermonde matrix undoes its inverse at entry `i`. */
  lemma VandermondeUndo(points: Vec, i: nat, x: Vec)
    requires i < |points| == |x| && Distinct(points)
    ensures Dot(Powers(points[i], |points|), MatVec(VandermondeInverse(points), x)) == x[i]
  {
    hide Dot, VandermondeInverse, Powers;
    var k, m, row := |points|, VandermondeInverse(points), Powers(points[i], |points|);
    RowTimesMatVec(row, m, x);
    forall j | 0 <= j < k
      ensures RowTimes(row, m, k)[j] == UnitVec(k, i)[j]
    {
      LagrangeDelta(points, i, j);
    }
    assert RowTimes(row, m, k) == UnitVec(k, i);
    DotUnit(x, i);
  }

  // ---------------------------------------------------------------- evaluation points

  /** The evaluation points of `fec_new`: zero, then the powers of alpha. */
  function Point(i: nat): Gf {
    if i == 0 then 0 else Pow(i - 1)
  }

  function Points(n: nat): (p: Vec)
    ensures |p| == n && forall i :: 0 <= i < n ==> p[i] == Point(i)
  {
    seq(n, i requires 0 <= i < n => Point(i))
  }

  lemma PointInjective(i: nat, j: nat)
    requires i < j < 256
    ensures Point(i) != Point(j)
  {
    if i == 0 {
      PowNonzero(j - 1);
    } else {
      PowInjective(i - 1, j - 1);
    }
  }

  lemma PointsDistinct(n: nat)
    requires n <= 256
    ensures Distinct(Points(n))
  {
    hide Point;
    forall i, j | 0 <= i < j < n
      ensures Points(n)[i] != Points(n)[j]
    {
      PointInjective(i, j);
    }
  }

  lemma {:induction false} PowerOfPow(r: nat, c: nat)
    ensures Power(Pow(r), c) == Pow(r * c)
  {
    hide Mul, Xtime;
    if c > 0 {
      PowerOfPow(r, c - 1);
      MulPow(r, r * (c - 1));
      assert r + r * (c - 1) == r * c;
    }
  }

  /** The exp-table entry that `fec_new` stores is an entry of the Vandermonde matrix. */
  lemma VandermondeEntry(row: nat, col: nat)
    ensures Pow((row * col) % 255) == Power(Point(row + 1), col)
  {
    PowerOfPow(row, col);
    PowPeriod(row * col);
  }

  lemma {:induction false} PowerOfZero(n: nat)
    requires n > 0
    ensures Power(0, n) == 0
  {
    ZeroMul(Power(0, n - 1));
  }

  // ---------------------------------------------------------------- the generator

  ghost function CheckRow(k: nat, i: nat): (r: Vec)
    ensures |r| == k
  {
    RowTimes(Powers(Point(i), k), VandermondeInverse(Points(k)), k)
  }

  ghost function GeneratorRow(k: nat, i: nat): (r: Vec)
    ensures |r| == k
  {
    if i < k then UnitVec(k, i) else CheckRow(k, i)
  }

  ghost function Generator(k: nat, n: nat): (g: Matrix)
    ensures IsMatrix(g, n, k)
    ensures forall i :: 0 <= i < n ==> g[i] == GeneratorRow(k, i)
  {
    seq(n, i requires 0 <= i < n => GeneratorRow(k, i))
  }

  /** Every generator row evaluates the polynomial that the data interpolate. */
  lemma GeneratorRowEvaluates(k: nat, i: nat, x: Vec)
    requires |x| == k <= 256
    ensures Dot(GeneratorRow(k, i), x) == Eval(MatVec(VandermondeInverse(Points(k)), x), Point(i))
  {
    hide Dot, VandermondeInverse, Powers, Point, Eval;
    var m := VandermondeInverse(Points(k));
    var row := Powers(Point(i), k);
    DotPowers(Point(i), MatVec(m, x));
    RowTimesMatVec(row, m, x);
    if i < k {
      PointsDistinct(k);
      VandermondeUndo(Points(k), i, x);
      DotUnit(x, i);
    }
  }

  ghost predicate DistinctIndices(index: seq<nat>, n: nat) {
    (forall i :: 0 <= i < |index| ==> index[i] < n) &&
    forall i, j :: 0 <= i < j < |index| ==> index[i] != index[j]
  }

  /** The rows of the generator named by `index`. */
  ghost function Selected(k: nat, index: seq<nat>): (m: Matrix)
    ensures IsMatrix(m, |index|, k)
    ensures forall i :: 0 <= i < |index| ==> m[i] == GeneratorRow(k, index[i])
  {
    seq(|index|, i requires 0 <= i < |index| => GeneratorRow(k, index[i]))
  }

  /** Any k distinct rows of the generator form a matrix with trivial kernel. */
  lemma SelectedNonsingular(k: nat, n: nat, index: seq<nat>)
    requires |index| == k && n <= 256 && DistinctIndices(index, n) && k <= n
    ensures Nonsingular(Selected(k, index))
  {
    var m := Selected(k, index);
    hide Selected, GeneratorRow;
    forall x: Vec | |x| == k && MatVec(m, x) == Zeros(k)
      ensures x == Zeros(k)
    {
      SelectedKernel(k, n, index, x);
    }
  }

  lemma SelectedKernel(k: nat, n: nat, index: seq<nat>, x: Vec)
    requires |index| == k == |x| && n <= 256 && DistinctIndices(index, n) && k <= n
    requires MatVec(Selected(k, index), x) == Zeros(k)
    ensures x == Zeros(k)
  {
    hide Dot, VandermondeInverse, Powers, Point, GeneratorRow, Eval;
    var y := MatVec(VandermondeInverse(Points(k)), x);
    var roots := seq(k, i requires 0 <= i < k => Point(index[i]));
    forall i | 0 <= i < k
      ensures Eval(y, roots[i]) == 0
    {
      assert MatVec(Selected(k, index), x)[i] == Zeros(k)[i];
      GeneratorRowEvaluates(k, index[i], x);
    }
    forall i, j | 0 <= i < j < k
      ensures roots[i] != roots[j]
    {
      if index[i] < index[j] {
        PointInjective(index[i], index[j]);
      } else {
        PointInjective(index[j], index[i]);
      }
    }
    RootsForceZero(y, roots);
    PointsDistinct(k);
    forall i | 0 <= i < k
      ensures x[i] == 0
    {
      VandermondeUndo(Points(k), i, x);
      DotPowers(Points(k)[i], y);
      EvalZeros(y, Points(k)[i]);
    }
  }
}
