/**
 Vectors and matrices over the field of `GaloisField`, as far as inverting a matrix and
 multiplying by one needs them.
 */
module LinearAlgebra {
  import opened GaloisField

  type Vec = seq<Gf>
  type Matrix = seq<seq<Gf>>

  ghost predicate IsMatrix(m: Matrix, rows: nat, cols: nat) {
    |m| == rows && forall i :: 0 <= i < rows ==> |m[i]| == cols
  }

  /** The sum of the first `n` products. */
  function DotN(a: Vec, b: Vec, n: nat): Gf
    requires n <= |a| && n <= |b|
  {
    if n == 0 then 0 else Add(DotN(a, b, n - 1), Mul(a[n - 1], b[n - 1]))
  }

  function Dot(a: Vec, b: Vec): Gf
    requires |a| == |b|
  {
    DotN(a, b, |a|)
  }

  function MatVec(m: Matrix, x: Vec): (y: Vec)
    requires forall i :: 0 <= i < |m| ==> |m[i]| == |x|
    ensures |y| == |m| && forall i :: 0 <= i < |m| ==> y[i] == Dot(m[i], x)
  {
    seq(|m|, i requires 0 <= i < |m| => Dot(m[i], x))
  }

  function Zeros(n: nat): (z: Vec)
    ensures |z| == n && forall i :: 0 <= i < n ==> z[i] == 0
  {
    seq(n, i => 0)
  }

  function UnitVec(n: nat, j: nat): (e: Vec)
    requires j < n
    ensures |e| == n && e[j] == 1 && forall i :: 0 <= i < n && i != j ==> e[i] == 0
  {
    Zeros(n)[j := 1]
  }

  /** The square matrix `m` has trivial kernel. */
  ghost predicate Nonsingular(m: Matrix) {
    IsMatrix(m, |m|, |m|) &&
    forall x: Vec :: |x| == |m| && MatVec(m, x) == Zeros(|m|) ==> x == Zeros(|m|)
  }

  /** `inverse` undoes `m` from either side. */
  ghost predicate Inverses(m: Matrix, inverse: Matrix) {
    IsMatrix(m, |m|, |m|) && IsMatrix(inverse, |m|, |m|) &&
    forall x: Vec, y: Vec :: |x| == |m| && |y| == |m| ==> (MatVec(m, x) == y <==> MatVec(inverse, y) == x)
  }

  // ---------------------------------------------------------------- inner products

  lemma {:induction false} DotComm(a: Vec, b: Vec, n: nat)
    requires n <= |a| && n <= |b|
    ensures DotN(a, b, n) == DotN(b, a, n)
  {
    hide Add, Mul;
    if n > 0 {
      DotComm(a, b, n - 1);
      MulComm(a[n - 1], b[n - 1]);
    }
  }

  lemma {:induction false} DotCongruent(a: Vec, a': Vec, b: Vec, b': Vec, n: nat)
    requires n <= |a| && n <= |b| && n <= |a'| && n <= |b'|
    requires forall j :: 0 <= j < n ==> a[j] == a'[j] && b[j] == b'[j]
    ensures DotN(a, b, n) == DotN(a', b', n)
  {
    hide Add, Mul;
    if n > 0 {
      DotCongruent(a, a', b, b', n - 1);
    }
  }

  /** Vectors that differ from `a` by a multiple of `d`. */
  lemma {:induction false} DotAddMul(a: Vec, c: Gf, d: Vec, r: Vec, b: Vec, n: nat)
    requires n <= |a| && n <= |b| && n <= |d| && n <= |r|
    requires forall j :: 0 <= j < n ==> r[j] == Add(a[j], Mul(c, d[j]))
    ensures DotN(r, b, n) == Add(DotN(a, b, n), Mul(c, DotN(d, b, n)))
  {
    hide Add, Mul;
    if n == 0 {
      MulZero(c);
      AddZero(0);
    } else {
      var m := n - 1;
      DotAddMul(a, c, d, r, b, m);
      MulAddLeft(a[m], Mul(c, d[m]), b[m]);
      MulAssoc(c, d[m], b[m]);
      MulAddRight(c, DotN(d, b, m), Mul(d[m], b[m]));
      Add4(DotN(a, b, m), Mul(c, DotN(d, b, m)), Mul(a[m], b[m]), Mul(c, Mul(d[m], b[m])));
    }
  }

  lemma {:induction false} DotZero(a: Vec, b: Vec, n: nat)
    requires n <= |a| && n <= |b|
    requires forall j :: 0 <= j < n ==> a[j] == 0 || b[j] == 0
    ensures DotN(a, b, n) == 0
  {
    hide Add, Mul;
    if n > 0 {
      DotZero(a, b, n - 1);
      NoZeroDivisors(a[n - 1], b[n - 1]);
      AddZero(0);
    }
  }

  lemma DotScale(c: Gf, d: Vec, r: Vec, b: Vec)
    requires |d| == |b| == |r|
    requires forall j :: 0 <= j < |d| ==> r[j] == Mul(c, d[j])
    ensures Dot(r, b) == Mul(c, Dot(d, b))
  {
    hide Add, Mul, DotN;
    var z := Zeros(|d|);
    forall j | 0 <= j < |d|
      ensures r[j] == Add(z[j], Mul(c, d[j]))
    {
      AddZero(r[j]);
    }
    DotAddMul(z, c, d, r, b, |d|);
    DotZero(z, b, |d|);
    AddZero(Mul(c, Dot(d, b)));
  }

  /** A single nonzero entry picks out one product. */
  lemma {:induction false} DotSingle(a: Vec, b: Vec, j: nat, n: nat)
    requires j < n && n <= |a| && n <= |b|
    requires forall i :: 0 <= i < n && i != j ==> a[i] == 0 || b[i] == 0
    ensures DotN(a, b, n) == Mul(a[j], b[j])
  {
    hide Add, Mul;
    if j == n - 1 {
      DotZero(a, b, n - 1);
      AddZero(Mul(a[j], b[j]));
    } else {
      DotSingle(a, b, j, n - 1);
      NoZeroDivisors(a[n - 1], b[n - 1]);
      AddZero(Mul(a[j], b[j]));
    }
  }

  lemma DotUnit(b: Vec, j: nat)
    requires j < |b|
    ensures Dot(UnitVec(|b|, j), b) == b[j]
  {
    DotSingle(UnitVec(|b|, j), b, j, |b|);
    OneMul(b[j]);
    hide Mul, DotN;
  }

  /** Replacing entry `j` of the left vector. */
  lemma DotUpdate(a: Vec, b: Vec, j: nat, v: Gf)
    requires |a| == |b| && j < |a|
    ensures Dot(a[j := v], b) == Add(Dot(a, b), Mul(Add(a[j], v), b[j]))
  {
    hide Add, Mul, DotN;
    var n := |a|;
    var delta := Add(a[j], v);
    var e := UnitVec(n, j);
    var r := a[j := v];
    forall i | 0 <= i < n
      ensures r[i] == Add(a[i], Mul(delta, e[i]))
    {
      MulOne(delta);
      MulZero(delta);
      AddZero(a[i]);
      AddMove(a[j], v, delta);
      AddComm(a[j], delta);
      AddComm(a[j], v);
      AddMove(v, a[j], delta);
    }
    DotAddMul(a, delta, e, r, b, n);
    DotUnit(b, j);
  }

  lemma DotUpdateRight(a: Vec, b: Vec, j: nat, v: Gf)
    requires |a| == |b| && j < |a|
    ensures Dot(a, b[j := v]) == Add(Dot(a, b), Mul(a[j], Add(b[j], v)))
  {
    hide Add, Mul, DotN;
    DotComm(a, b[j := v], |a|);
    DotUpdate(b, a, j, v);
    DotComm(b, a, |a|);
    MulComm(Add(b[j], v), a[j]);
  }

  // ---------------------------------------------------------------- matrix product

  /** Entry-wise product of a row with a matrix. */
  function RowTimes(row: Vec, m: Matrix, cols: nat): (r: Vec)
    requires IsMatrix(m, |row|, cols)
    ensures |r| == cols
  {
    seq(cols, j requires 0 <= j < cols => Dot(row, Column(m, j, cols)))
  }

  function Column(m: Matrix, j: nat, cols: nat): (c: Vec)
    requires j < cols && forall i :: 0 <= i < |m| ==> |m[i]| == cols
    ensures |c| == |m| && forall i :: 0 <= i < |m| ==> c[i] == m[i][j]
  {
    seq(|m|, i requires 0 <= i < |m| => m[i][j])
  }

  ghost function PartialMatVec(m: Matrix, x: Vec, n: nat): (y: Vec)
    requires n <= |x| && forall i :: 0 <= i < |m| ==> |m[i]| == |x|
    ensures |y| == |m| && forall i :: 0 <= i < |m| ==> y[i] == DotN(m[i], x, n)
  {
    seq(|m|, i requires 0 <= i < |m| => DotN(m[i], x, n))
  }

  lemma {:induction false} RowTimesPartial(row: Vec, m: Matrix, x: Vec, n: nat)
    requires IsMatrix(m, |row|, |x|) && n <= |x|
    ensures DotN(RowTimes(row, m, |x|), x, n) == Dot(row, PartialMatVec(m, x, n))
  {
    hide Add, Mul;
    if n == 0 {
      DotZero(row, PartialMatVec(m, x, 0), |row|);
    } else {
      RowTimesPartial(row, m, x, n - 1);
      var before, after := PartialMatVec(m, x, n - 1), PartialMatVec(m, x, n);
      var column := Column(m, n - 1, |x|);
      var v := x[n - 1];
      forall i | 0 <= i < |m|
        ensures after[i] == Add(before[i], Mul(v, column[i]))
      {
        MulComm(m[i][n - 1], v);
      }
      DotAddMul(before, v, column, after, row, |row|);
      DotComm(before, row, |row|);
      DotComm(after, row, |row|);
      DotComm(column, row, |row|);
      MulComm(v, Dot(row, column));
    }
  }

  /** (row . m) . x = row . (m x) */
  lemma RowTimesMatVec(row: Vec, m: Matrix, x: Vec)
    requires IsMatrix(m, |row|, |x|)
    ensures Dot(RowTimes(row, m, |x|), x) == Dot(row, MatVec(m, x))
  {
    RowTimesPartial(row, m, x, |x|);
    assert PartialMatVec(m, x, |x|) == MatVec(m, x);
  }
}
