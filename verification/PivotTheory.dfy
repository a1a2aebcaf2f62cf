/**
 Why the in-place Gauss-Jordan elimination of libzfec/fec.cc:232-323 inverts. A pivot step
 exchanges one input with one output of the linear map that the matrix stands for; after
 every index has been exchanged, the matrix stands for the inverse map.
 */
module PivotTheory {
  import opened GaloisField
  import opened LinearAlgebra

  /** Entry `j` comes from `a` when `j` is in `done`, otherwise from `b`. */
  function Mix(done: set<int>, a: Vec, b: Vec): (r: Vec)
    requires |a| == |b|
    ensures |r| == |a| && forall j :: 0 <= j < |a| ==> r[j] == if j in done then a[j] else b[j]
  {
    seq(|a|, j requires 0 <= j < |a| => if j in done then a[j] else b[j])
  }

  /** `t` is the map `a` with inputs and outputs exchanged at the indices in `done`. */
  ghost predicate Exchanged(t: Matrix, a: Matrix, done: set<int>) {
    IsMatrix(t, |a|, |a|) && IsMatrix(a, |a|, |a|) &&
    forall x: Vec, z: Vec :: |x| == |a| && |z| == |a| ==>
      (MatVec(a, x) == z <==> MatVec(t, Mix(done, z, x)) == Mix(done, x, z))
  }

  function SwapRows(m: Matrix, i: nat, j: nat): (r: Matrix)
    requires i < |m| && j < |m|
    ensures |r| == |m| && r[i] == m[j] && r[j] == m[i]
    ensures forall l :: 0 <= l < |m| && l != i && l != j ==> r[l] == m[l]
  {
    m[i := m[j]][j := m[i]]
  }

  function SwapVec(v: Vec, i: nat, j: nat): (r: Vec)
    requires i < |v| && j < |v|
    ensures |r| == |v| && r[i] == v[j] && r[j] == v[i]
    ensures forall l :: 0 <= l < |v| && l != i && l != j ==> r[l] == v[l]
  {
    v[i := v[j]][j := v[i]]
  }

  function SwapColumns(m: Matrix, i: nat, j: nat): (r: Matrix)
    requires forall l :: 0 <= l < |m| ==> i < |m[l]| && j < |m[l]|
    ensures |r| == |m| && forall l :: 0 <= l < |m| ==> r[l] == SwapVec(m[l], i, j)
  {
    seq(|m|, l requires 0 <= l < |m| => SwapVec(m[l], i, j))
  }

  function Scale(v: Gf, row: Vec): (r: Vec)
    ensures |r| == |row| && forall j :: 0 <= j < |row| ==> r[j] == Mul(v, row[j])
  {
    seq(|row|, j requires 0 <= j < |row| => Mul(v, row[j]))
  }

  function AddMulRow(row: Vec, v: Gf, d: Vec): (r: Vec)
    requires |row| == |d|
    ensures |r| == |row| && forall j :: 0 <= j < |row| ==> r[j] == Add(row[j], Mul(v, d[j]))
  {
    seq(|row|, j requires 0 <= j < |row| => Add(row[j], Mul(v, d[j])))
  }

  /** The pivot row after scaling: entry `c` becomes the inverse of the pivot. */
  ghost function ScaledRow(row: Vec, c: nat): (r: Vec)
    requires c < |row|
    ensures |r| == |row|
  {
    Scale(Inv(row[c]), row[c := 1])
  }

  /** Any other row after elimination. */
  function EliminatedRow(row: Vec, c: nat, pivotRow: Vec): (r: Vec)
    requires c < |row| == |pivotRow|
    ensures |r| == |row|
  {
    AddMulRow(row[c := 0], row[c], pivotRow)
  }

  ghost function Pivot(t: Matrix, c: nat): (r: Matrix)
    requires c < |t| && IsMatrix(t, |t|, |t|)
    ensures IsMatrix(r, |t|, |t|)
  {
    var pivotRow := ScaledRow(t[c], c);
    seq(|t|, i requires 0 <= i < |t| => if i == c then pivotRow else EliminatedRow(t[i], c, pivotRow))
  }

  // ---------------------------------------------------------------- one pivot step

  lemma DotWithout(a: Vec, w: Vec, c: nat)
    requires c < |a| == |w|
    ensures Dot(a, w) == Add(Dot(a[c := 0], w), Mul(a[c], w[c]))
  {
    hide Add, Mul, Dot;
    var a0 := a[c := 0];
    DotUpdate(a0, w, c, a[c]);
    assert a0[c := a[c]] == a;
    AddZero(a[c]);
  }

  lemma DotIgnores(a: Vec, w: Vec, c: nat, v: Gf)
    requires c < |a| == |w| && a[c] == 0
    ensures Dot(a, w[c := v]) == Dot(a, w)
  {
    hide Add, Mul, Dot;
    DotUpdateRight(a, w, c, v);
    ZeroMul(Add(w[c], v));
    AddZero(Dot(a, w));
  }

  /** Solving the pivot row for its pivot input. */
  lemma PivotRowExchange(a: Vec, w: Vec, c: nat, out: Gf)
    requires c < |a| == |w| && a[c] != 0
    ensures Dot(a, w) == out <==> Dot(ScaledRow(a, c), w[c := out]) == w[c]
  {
    hide Add, Mul, Dot, Inv;
    var p, q, x := a[c], Inv(a[c]), w[c];
    var a0, a1, w' := a[c := 0], a[c := 1], w[c := out];
    DotWithout(a, w, c);
    DotWithout(a1, w', c);
    assert a1[c := 0] == a0;
    DotIgnores(a0, w, c, out);
    OneMul(out);
    var s := Dot(a0, w);
    assert Dot(a, w) == Add(s, Mul(p, x));
    assert Dot(a1, w') == Add(s, out);
    DotScale(q, a1, ScaledRow(a, c), w');
    MulInv(p);
    MulAssoc(q, p, x);
    MulAssoc(p, q, Add(s, out));
    OneMul(x);
    OneMul(Add(s, out));
    AddMove(s, Mul(p, x), out);
    AddComm(s, out);
    AddMove(out, s, Mul(p, x));
    AddMove(s, out, Mul(p, x));
    AddComm(out, Mul(p, x));
  }

  lemma OtherRowExchange(a: Vec, pivotRow: Vec, w: Vec, c: nat, out: Gf)
    requires c < |a| == |w| == |pivotRow|
    requires Dot(pivotRow, w[c := out]) == w[c]
    ensures Dot(EliminatedRow(a, c, pivotRow), w[c := out]) == Dot(a, w)
  {
    hide Add, Mul, DotN;
    var w' := w[c := out];
    DotAddMul(a[c := 0], a[c], pivotRow, EliminatedRow(a, c, pivotRow), w', |a|);
    DotIgnores(a[c := 0], w, c, out);
    DotWithout(a, w, c);
  }

  lemma PivotExchange(t: Matrix, c: nat, w: Vec, u: Vec)
    requires c < |t| && IsMatrix(t, |t|, |t|) && t[c][c] != 0
    requires |w| == |u| == |t|
    ensures MatVec(t, w) == u <==> MatVec(Pivot(t, c), w[c := u[c]]) == u[c := w[c]]
  {
    var t', w', u' := Pivot(t, c), w[c := u[c]], u[c := w[c]];
    var pivotRow := ScaledRow(t[c], c);
    hide Dot, ScaledRow, EliminatedRow;
    PivotRowExchange(t[c], w, c, u[c]);
    if Dot(t[c], w) == u[c] {
      forall i | 0 <= i < |t| && i != c
        ensures Dot(t'[i], w') == Dot(t[i], w)
      {
        OtherRowExchange(t[i], pivotRow, w, c, u[c]);
      }
      if MatVec(t, w) == u {
        assert MatVec(t', w') == u';
      }
      if MatVec(t', w') == u' {
        forall i | 0 <= i < |t|
          ensures MatVec(t, w)[i] == u[i]
        {
          assert MatVec(t', w')[i] == u'[i];
        }
      }
    } else {
      assert MatVec(t, w)[c] != u[c];
      assert MatVec(t', w')[c] != u'[c];
    }
  }

  /** A pivot step exchanges one more index. */
  lemma PivotStep(t: Matrix, a: Matrix, done: set<int>, c: nat)
    requires Exchanged(t, a, done)
    requires c < |a| && c !in done && t[c][c] != 0
    ensures Exchanged(Pivot(t, c), a, done + {c})
  {
    hide Pivot;
    forall x: Vec, z: Vec | |x| == |a| && |z| == |a|
      ensures MatVec(a, x) == z <==> MatVec(Pivot(t, c), Mix(done + {c}, z, x)) == Mix(done + {c}, x, z)
    {
      var w, u := Mix(done, z, x), Mix(done, x, z);
      PivotExchange(t, c, w, u);
      assert w[c := u[c]] == Mix(done + {c}, z, x);
      assert u[c := w[c]] == Mix(done + {c}, x, z);
    }
  }

  // ---------------------------------------------------------------- row and column swaps

  lemma SwapRowsMatVec(m: Matrix, i: nat, j: nat, x: Vec)
    requires IsMatrix(m, |m|, |x|) && i < |m| && j < |m|
    ensures MatVec(SwapRows(m, i, j), x) == SwapVec(MatVec(m, x), i, j)
  {
    hide Dot;
  }

  lemma SwapVecTwice(v: Vec, i: nat, j: nat)
    requires i < |v| && j < |v|
    ensures SwapVec(SwapVec(v, i, j), i, j) == v
  {}

  lemma SwapVecInjective(u: Vec, v: Vec, i: nat, j: nat)
    requires i < |v| == |u| && j < |v|
    ensures u == v <==> SwapVec(u, i, j) == SwapVec(v, i, j)
  {
    SwapVecTwice(u, i, j);
    SwapVecTwice(v, i, j);
  }

  lemma SwapMix(done: set<int>, x: Vec, y: Vec, i: nat, j: nat)
    requires |x| == |y| && i < |x| && j < |x| && i !in done && j !in done
    ensures Mix(done, SwapVec(y, i, j), x) == Mix(done, y, x)
    ensures Mix(done, x, SwapVec(y, i, j)) == SwapVec(Mix(done, x, y), i, j)
  {}

  /** Swapping two rows that are not exchanged yet swaps two outputs of the map. */
  lemma SwapStep(t: Matrix, a: Matrix, done: set<int>, i: nat, j: nat)
    requires Exchanged(t, a, done)
    requires i < |a| && j < |a| && i !in done && j !in done
    ensures Exchanged(SwapRows(t, i, j), SwapRows(a, i, j), done)
  {
    hide SwapVec, SwapRows, Mix, MatVec;
    var t', a' := SwapRows(t, i, j), SwapRows(a, i, j);
    assert IsMatrix(t', |a|, |a|) && IsMatrix(a', |a|, |a|);
    forall x: Vec, z: Vec | |x| == |a| && |z| == |a|
      ensures MatVec(a', x) == z <==> MatVec(t', Mix(done, z, x)) == Mix(done, x, z)
    {
      var y := SwapVec(z, i, j);
      SwapVecTwice(z, i, j);
      SwapMix(done, x, y, i, j);
      SwapRowsMatVec(a, i, j, x);
      SwapRowsMatVec(t, i, j, Mix(done, y, x));
      SwapVecInjective(MatVec(a, x), y, i, j);
      SwapVecInjective(MatVec(t, Mix(done, y, x)), Mix(done, x, y), i, j);
    }
  }

  /** In an inner product, swapping entries on the left equals swapping them on the right. */
  lemma DotSwap(a: Vec, b: Vec, i: nat, j: nat)
    requires |a| == |b| && i < |a| && j < |a|
    ensures Dot(SwapVec(a, i, j), b) == Dot(a, SwapVec(b, i, j))
  {
    hide Add, Mul, Dot;
    if i != j {
      var c := a[i := 0][j := 0];
      assert c == SwapVec(a, i, j)[i := 0][j := 0];
      DotWithout(SwapVec(a, i, j), b, i);
      DotWithout(SwapVec(a, i, j)[i := 0], b, j);
      DotWithout(a, SwapVec(b, i, j), i);
      DotWithout(a[i := 0], SwapVec(b, i, j), j);
      DotIgnores(c, b, i, b[j]);
      DotIgnores(c, b[i := b[j]], j, b[i]);
      assert SwapVec(b, i, j) == b[i := b[j]][j := b[i]];
      var s := Dot(c, b);
      var p, q := Mul(a[j], b[i]), Mul(a[i], b[j]);
      AddAssoc(s, p, q);
      AddAssoc(s, q, p);
      AddComm(p, q);
    } else {
      assert SwapVec(a, i, j) == a && SwapVec(b, i, j) == b;
    }
  }

  lemma SwapColumnsMatVec(m: Matrix, i: nat, j: nat, x: Vec)
    requires IsMatrix(m, |m|, |x|) && i < |x| && j < |x|
    ensures MatVec(SwapColumns(m, i, j), x) == MatVec(m, SwapVec(x, i, j))
  {
    hide Dot;
    forall l | 0 <= l < |m|
      ensures Dot(SwapColumns(m, i, j)[l], x) == Dot(m[l], SwapVec(x, i, j))
    {
      DotSwap(m[l], x, i, j);
    }
  }

  /** Swapping columns of the inverse undoes a row swap of the matrix. */
  lemma UnswapStep(a: Matrix, inverse: Matrix, i: nat, j: nat)
    requires i < |a| && j < |a|
    requires IsMatrix(a, |a|, |a|) && Inverses(SwapRows(a, i, j), inverse)
    ensures Inverses(a, SwapColumns(inverse, i, j))
  {
    var inverse' := SwapColumns(inverse, i, j);
    forall x: Vec, y: Vec | |x| == |a| && |y| == |a|
      ensures MatVec(a, x) == y <==> MatVec(inverse', y) == x
    {
      SwapColumnsMatVec(inverse, i, j, y);
      SwapRowsMatVec(a, i, j, x);
      SwapVecTwice(MatVec(a, x), i, j);
      SwapVecTwice(y, i, j);
      assert MatVec(SwapRows(a, i, j), x) == SwapVec(y, i, j) <==> MatVec(inverse, SwapVec(y, i, j)) == x;
    }
  }

  lemma SwapNonsingular(a: Matrix, i: nat, j: nat)
    requires Nonsingular(a) && i < |a| && j < |a|
    ensures Nonsingular(SwapRows(a, i, j))
  {
    hide SwapVec, SwapRows, MatVec;
    var a' := SwapRows(a, i, j);
    assert IsMatrix(a', |a|, |a|);
    assert SwapVec(Zeros(|a|), i, j) == Zeros(|a|);
    forall x: Vec | |x| == |a| && MatVec(a', x) == Zeros(|a|)
      ensures x == Zeros(|a|)
    {
      SwapRowsMatVec(a, i, j, x);
      SwapVecInjective(MatVec(a, x), Zeros(|a|), i, j);
    }
  }

  // ---------------------------------------------------------------- start, end, pivots

  lemma ExchangedNone(a: Matrix)
    requires IsMatrix(a, |a|, |a|)
    ensures Exchanged(a, a, {})
  {
    forall x: Vec, z: Vec | |x| == |a| && |z| == |a|
      ensures Mix({}, z, x) == x && Mix({}, x, z) == z
    {
    }
  }

  lemma ExchangedAll(t: Matrix, a: Matrix, done: set<int>)
    requires Exchanged(t, a, done)
    requires forall j :: 0 <= j < |a| ==> j in done
    ensures Inverses(a, t)
  {
    forall x: Vec, y: Vec | |x| == |a| && |y| == |a|
      ensures MatVec(a, x) == y <==> MatVec(t, y) == x
    {
      assert Mix(done, y, x) == y && Mix(done, x, y) == x;
    }
  }

  /** The column that a missing pivot would put into the kernel of the matrix. */
  ghost function KernelVector(t: Matrix, done: set<int>, free: nat): (x: Vec)
    requires IsMatrix(t, |t|, |t|) && free < |t|
    ensures |x| == |t|
  {
    Mix(done, Column(t, free, |t|), UnitVec(|t|, free))
  }

  lemma NoPivotKernel(t: Matrix, a: Matrix, done: set<int>, free: nat)
    requires Exchanged(t, a, done)
    requires free < |a| && free !in done
    requires forall i, j :: 0 <= i < |a| && 0 <= j < |a| && i !in done && j !in done ==> t[i][j] == 0
    ensures !Nonsingular(a)
  {
    hide DotN;
    var n := |a|;
    var x, z := KernelVector(t, done, free), Zeros(n);
    var w, u := Mix(done, z, x), Mix(done, x, z);
    assert w == UnitVec(n, free);
    forall i | 0 <= i < n
      ensures Dot(t[i], w) == u[i]
    {
      DotUnit(t[i], free);
      DotComm(w, t[i], n);
      assert Dot(t[i], w) == t[i][free];
    }
    assert MatVec(t, w) == u;
    assert MatVec(a, x) == z;
    assert x[free] == 1;
  }
}
