/**
 The in-place inversion of a Vandermonde matrix, libzfec/fec.cc:337-389, and the matrix
 product of libzfec/fec.cc:210-223.
 */
module VandermondeInversion {
  import opened GaloisField
  import opened LinearAlgebra
  import opened Polynomials
  import opened VandermondeTheory
  import opened FecKernels
  import opened MatrixInversion

  /** The Vandermonde matrix of `points` with as many rows as columns. */
  ghost function Vandermonde(points: Vec): (m: Matrix)
    ensures IsMatrix(m, |points|, |points|)
    ensures forall i :: 0 <= i < |points| ==> m[i] == Powers(points[i], |points|)
  {
    seq(|points|, i requires 0 <= i < |points| => Powers(points[i], |points|))
  }

  /**
   The coefficient buffer after `n` points: the monic polynomial of those points without its
   leading coefficient, moved to the end, and zeros in front.
   */
  function Padded(points: Vec, n: nat): (c: Vec)
    requires n <= |points|
    ensures |c| == |points|
    ensures forall i :: 0 <= i < |points| - n ==> c[i] == 0
    ensures forall i :: |points| - n <= i < |points| ==> c[i] == Monic(points, n)[i - (|points| - n)]
  {
    Zeros(|points| - n) + Monic(points, n)[..n]
  }

  lemma PaddedStart(points: Vec)
    requires |points| > 0 && points[0] == 0
    ensures Padded(points, 1) == Zeros(|points|)
  {
    MonicConstant(points, 1);
  }

  /** The buffer positions that a round never writes hold the right coefficients already. */
  lemma PaddedFront(points: Vec, n: nat)
    requires 0 < n < |points| && points[0] == 0
    ensures Padded(points, n + 1)[..|points| - n] == Padded(points, n)[..|points| - n]
  {
    hide Monic;
    MonicConstant(points, n + 1);
  }

  /** Multiplying in one inner coefficient. */
  lemma PaddedInner(points: Vec, n: nat, j: nat)
    requires 0 < n < |points| && |points| - n <= j < |points| - 1
    ensures Padded(points, n + 1)[j] == Add(Padded(points, n)[j], Mul(points[n], Padded(points, n)[j + 1]))
  {
    hide Add, Mul;
    var d := j - (|points| - n) + 1;
    assert Monic(points, n + 1)[d] == LinearTerm(Monic(points, n), points[n], d);
    hide Monic, Padded;
  }

  /** The last coefficient, next to the implicit leading 1. */
  lemma PaddedLast(points: Vec, n: nat)
    requires 0 < n < |points|
    ensures Padded(points, n + 1)[|points| - 1] == Add(Padded(points, n)[|points| - 1], points[n])
  {
    hide Add, Mul;
    MonicLeading(points, n);
    MulOne(points[n]);
    assert Monic(points, n + 1)[n] == LinearTerm(Monic(points, n), points[n], n);
    hide Monic, Padded;
  }

  /** The coefficients of the product of (x - p_i), as far as they are read later. */
  method ProductCoefficients(t: Tables, p: array<Gf>, c: array<Gf>)
    requires t.Valid() && t.Apart(c) && p != c && p.Length == c.Length > 1
    requires p[0] == 0 && c[..] == Zeros(c.Length)
    modifies c
    ensures c[..] == Padded(p[..], p.Length) && t.Valid()
  {
    hide Add, Mul, Tables.Valid, Padded;
    var k := c.Length;
    ghost var points := p[..];
    PaddedStart(points);
    c[k - 1] := p[0];
    assert c[..] == old(c[..]);
    var i := 1;
    while i < k
      invariant 1 <= i <= k && p[..] == points && t.Valid()
      invariant c[..] == Padded(points, i)
    {
      MultiplyIn(t, p, c, i);
      i := i + 1;
    }
  }

  /** Multiplies the polynomial in the buffer by (x - p_i). */
  method MultiplyIn(t: Tables, p: array<Gf>, c: array<Gf>, i: nat)
    requires t.Valid() && t.Apart(c) && p != c && 0 < i < p.Length == c.Length
    requires p[0] == 0 && c[..] == Padded(p[..], i)
    modifies c
    ensures c[..] == Padded(p[..], i + 1) && t.Valid()
  {
    hide Add, Mul, Tables.Valid, Padded;
    var k := c.Length;
    ghost var points := p[..];
    ghost var before, after := Padded(points, i), Padded(points, i + 1);
    PaddedFront(points, i);
    var pi := p[i];
    var j := k - 1 - (i - 1);
    assert forall l :: 0 <= l < j ==> before[..j][l] == before[l] && after[..j][l] == after[l];
    while j < k - 1
      invariant k - i <= j <= k - 1 && t.Valid() && p[..] == points
      invariant forall l :: 0 <= l < j ==> c[l] == after[l]
      invariant forall l :: j <= l < k ==> c[l] == before[l]
    {
      PaddedInner(points, i, j);
      c[j] := t.AddMulC(c[j], pi, c[j + 1]);
      j := j + 1;
    }
    PaddedLast(points, i);
    c[k - 1] := Add(c[k - 1], pi);
  }

  /** One step of the synthetic division. */
  lemma DivisionStep(points: Vec, row: nat, i: nat)
    requires row < |points| && 0 < i < |points|
    ensures Cofactor(points, row)[i - 1] ==
      Add(Monic(points, |points|)[i], Mul(points[row], Cofactor(points, row)[i]))
  {
    hide Add, Mul, Monic;
    var m := Monic(points, |points|);
    assert m[i..][1..] == m[i + 1..];
  }

  lemma HornerStep(b: Vec, i: nat, x: Gf)
    requires 0 < i <= |b|
    ensures Eval(b[i - 1..], x) == Add(b[i - 1], Mul(x, Eval(b[i..], x)))
  {
    hide Add, Mul;
    assert b[i - 1..][1..] == b[i..];
  }

  lemma EvalSingle(v: Gf, x: Gf)
    ensures Eval([v], x) == v
  {
    MulZero(x);
    AddZero(v);
    hide Add, Mul;
  }

  /** Divides the product by (x - p_row); `v` is the quotient at p_row. */
  method SyntheticDivision(t: Tables, c: array<Gf>, b: array<Gf>, ghost points: Vec, row: nat, xx: Gf)
      returns (v: Gf)
    requires t.Valid() && t.Apart(b) && b != c && b.Length == c.Length == |points| > 1
    requires row < |points| && xx == points[row] && c[..] == Padded(points, |points|)
    modifies b
    ensures b[..] == Cofactor(points, row)
    ensures v == Eval(Cofactor(points, row), xx)
    ensures t.Valid()
  {
    hide Add, Mul, Monic, Tables.Valid, Cofactor;
    var k := c.Length;
    ghost var q := Cofactor(points, row);
    v := 1;
    b[k - 1] := 1;
    CofactorLeading(points, row);
    assert q[k - 1..] == [1];
    EvalSingle(1, xx);
    var i := k - 1;
    while i > 0
      invariant 0 <= i <= k - 1
      invariant forall l :: i <= l < k ==> b[l] == q[l]
      invariant v == Eval(q[i..], xx)
      invariant t.Valid()
    {
      DivisionStep(points, row, i);
      HornerStep(q, i, xx);
      assert c[..][i] == Monic(points, k)[i];
      b[i - 1] := t.AddMulC(c[i], xx, b[i]);
      var w := t.GfMul(xx, v);
      v := Add(w, b[i - 1]);
      AddComm(w, q[i - 1]);
      i := i - 1;
    }
    assert q[0..] == q;
  }

  /** `m` after the first `n` columns have been replaced by columns of the inverse. */
  ghost predicate InvertedColumns(m: Matrix, points: Vec, n: nat) {
    IsMatrix(m, |points|, |points|) && n <= |points| &&
    forall col, row :: 0 <= col < |points| && 0 <= row < n ==> m[col][row] == LagrangeTerm(points, row, col)
  }

  method WriteColumn(t: Tables, src: seq<array<Gf>>, b: array<Gf>, v: Gf, ghost points: Vec, row: nat)
    requires t.Valid() && MatrixBuffers(t, src, |src|) && b !in src
    requires row < |points| == |src| == b.Length
    requires InvertedColumns(Rows(src), points, row)
    requires b[..] == Cofactor(points, row) && v == Eval(Cofactor(points, row), points[row])
    modifies src
    ensures InvertedColumns(Rows(src), points, row + 1) && t.Valid()
  {
    hide Add, Mul, Tables.Valid, Inv, Cofactor, Eval;
    var k := |src|;
    var col := 0;
    while col < k
      invariant 0 <= col <= k
      invariant b[..] == Cofactor(points, row)
      invariant forall c :: 0 <= c < col ==> src[c][row] == LagrangeTerm(points, row, c)
      invariant forall c, r :: 0 <= c < k && 0 <= r < row ==> src[c][r] == old(src[c][r])
      invariant t.Valid()
    {
      TableInverse(t, v);
      src[col][row] := t.GfMul(t.inverse[v as int], b[col]);
      col := col + 1;
    }
    forall c, r | 0 <= c < k && 0 <= r < row + 1
      ensures Rows(src)[c][r] == LagrangeTerm(points, r, c)
    {
      if r < row {
        assert old(Rows(src))[c][r] == LagrangeTerm(points, r, c);
      }
    }
  }

  lemma TableInverse(t: Tables, v: Gf)
    requires t.Valid()
    ensures v as int < t.inverse.Length && t.inverse[v as int] == Inv(v)
  {}

  /** Replaces a Vandermonde matrix of distinct points, the first of them zero, by its inverse. */
  method InvertVdm(t: Tables, src: seq<array<Gf>>, ghost points: Vec)
    requires t.Valid() && MatrixBuffers(t, src, |src|)
    requires |points| == |src| > 0 && Distinct(points) && points[0] == 0
    requires Rows(src) == Vandermonde(points)
    modifies src
    ensures Rows(src) == VandermondeInverse(points)
  {
    hide Add, Mul, Tables.Valid, Inv, Cofactor, Eval, LagrangeTerm, VandermondeInverse, Vandermonde, Monic,
      Rows, InvertedColumns, Padded, Zeros;
    var k := |src|;
    if k == 1 {
      SinglePoint(points);
      return;
    }
    var c, b, p := new Gf[k], new Gf[k], new Gf[k];
    ReadPoints(src, c, p, points);
    ProductCoefficients(t, p, c);
    NoColumns(Rows(src), points);
    var row := 0;
    while row < k
      invariant 0 <= row <= k
      invariant t.Valid() && p[..] == points && c[..] == Padded(points, k)
      invariant InvertedColumns(Rows(src), points, row)
    {
      var xx := p[row];
      assert xx == points[row];
      var v := SyntheticDivision(t, c, b, points, row, xx);
      WriteColumn(t, src, b, v, points, row);
      row := row + 1;
    }
    AllColumns(Rows(src), points);
  }

  /** Clears `c` and copies the points out of the second column. */
  method ReadPoints(src: seq<array<Gf>>, c: array<Gf>, p: array<Gf>, ghost points: Vec)
    requires |points| == |src| == c.Length == p.Length > 1 && c != p && c !in src && p !in src
    requires Rows(src) == Vandermonde(points)
    modifies c, p
    ensures p[..] == points && c[..] == Zeros(c.Length)
  {
    hide Mul;
    var k, i := |src|, 0;
    while i < k
      invariant 0 <= i <= k
      invariant p[..i] == points[..i] && forall j :: 0 <= j < i ==> c[j] == 0
      invariant Rows(src) == Vandermonde(points)
    {
      c[i] := 0;
      SecondColumn(points, i);
      assert src[i][..] == Vandermonde(points)[i] by { assert src[i][..] == Rows(src)[i]; }
      p[i] := src[i][1];
      i := i + 1;
    }
  }

  lemma NoColumns(m: Matrix, points: Vec)
    requires IsMatrix(m, |points|, |points|)
    ensures InvertedColumns(m, points, 0)
  {}

  lemma AllColumns(m: Matrix, points: Vec)
    requires InvertedColumns(m, points, |points|)
    ensures m == VandermondeInverse(points)
  {
    hide LagrangeTerm;
    forall i | 0 <= i < |points|
      ensures m[i] == VandermondeInverse(points)[i]
    {
    }
  }

  lemma SecondColumn(points: Vec, i: nat)
    requires i < |points| && |points| > 1
    ensures Vandermonde(points)[i][1] == points[i]
  {
    MulOne(points[i]);
    assert Power(points[i], 0) == 1;
    hide Mul;
  }

  /** A single point: the matrix is the 1 x 1 identity. */
  lemma SinglePoint(points: Vec)
    requires |points| == 1
    ensures Vandermonde(points) == VandermondeInverse(points)
  {
    var b := Cofactor(points, 0);
    CofactorLeading(points, 0);
    assert b == [1];
    EvalSingle(1, points[0]);
    MulInv(1);
    MulOne(Inv(1));
    MulOne(1);
    hide Mul, Inv, Cofactor, Eval;
    assert LagrangeTerm(points, 0, 0) == 1;
    assert Power(points[0], 0) == 1;
    assert Vandermonde(points)[0] == VandermondeInverse(points)[0];
  }

  /** The matrix product, as libzfec computes it. */
  method Matmul(t: Tables, a: seq<array<Gf>>, b: seq<array<Gf>>, c: seq<array<Gf>>, n: nat, k: nat, m: nat)
    requires t.Valid() && |a| == |c| == n && |b| == k
    requires forall i :: 0 <= i < n ==> a[i].Length == k
    requires forall i :: 0 <= i < k ==> b[i].Length == m
    requires MatrixBuffers(t, c, m)
    requires forall i :: 0 <= i < n ==> c[i] !in a && c[i] !in b
    modifies c
    ensures forall i :: 0 <= i < n ==> c[i][..] == RowTimes(old(a[i][..]), old(Rows(b)), m)
  {
    hide Add, Mul, Tables.Valid, Dot;
    ghost var bRows := Rows(b);
    var row := 0;
    while row < n
      invariant 0 <= row <= n
      invariant t.Valid() && Rows(b) == bRows && forall i :: 0 <= i < n ==> a[i][..] == old(a[i][..])
      invariant forall i :: 0 <= i < row ==> c[i][..] == RowTimes(old(a[i][..]), bRows, m)
    {
      MatmulRow(t, a[row], b, c[row], k, m);
      row := row + 1;
    }
  }

  method DotColumn(t: Tables, a: array<Gf>, b: seq<array<Gf>>, col: nat, m: nat) returns (acc: Gf)
    requires t.Valid() && a.Length == |b| && col < m && forall i :: 0 <= i < |b| ==> b[i].Length == m
    ensures acc == Dot(a[..], Column(Rows(b), col, m))
  {
    hide Add, Mul, Tables.Valid;
    ghost var column := Column(Rows(b), col, m);
    acc := 0;
    var i := 0;
    while i < |b|
      invariant 0 <= i <= |b|
      invariant acc == DotN(a[..], column, i)
    {
      acc := t.AddMulC(acc, a[i], b[i][col]);
      i := i + 1;
    }
  }

  method MatmulRow(t: Tables, a: array<Gf>, b: seq<array<Gf>>, c: array<Gf>, k: nat, m: nat)
    requires t.Valid() && t.Apart(c) && a != c && c !in b
    requires a.Length == |b| == k && c.Length == m
    requires forall i :: 0 <= i < k ==> b[i].Length == m
    modifies c
    ensures c[..] == RowTimes(old(a[..]), old(Rows(b)), m)
  {
    hide Tables.Valid, Rows, Dot, Column;
    ghost var row, bRows := a[..], Rows(b);
    var col := 0;
    while col < m
      invariant 0 <= col <= m
      invariant t.Valid() && a[..] == row && Rows(b) == bRows
      invariant forall j :: 0 <= j < col ==> c[j] == RowTimes(row, bRows, m)[j]
    {
      var acc := DotColumn(t, a, b, col, m);
      c[col] := acc;
      col := col + 1;
    }
  }
}
