/**
 The in-place matrix inversion of libzfec/fec.cc:232-323. A matrix is a sequence of row
 buffers; `Rows` is the matrix that the buffers hold.
 */
module MatrixInversion {
  import opened Counting
  import opened GaloisField
  import opened LinearAlgebra
  import opened PivotTheory
  import opened FecKernels

  ghost function Rows(m: seq<array<Gf>>): (r: Matrix)
    reads m
    ensures |r| == |m| && forall i :: 0 <= i < |m| ==> r[i] == m[i][..]
  {
    seq(|m|, i requires 0 <= i < |m| reads m => m[i][..])
  }

  /** `cols` columns in distinct rows, none of them a table. */
  ghost predicate MatrixBuffers(t: Tables, m: seq<array<Gf>>, cols: nat) {
    (forall i, j :: 0 <= i < j < |m| ==> m[i] != m[j]) &&
    (forall i :: 0 <= i < |m| ==> m[i].Length == cols && t.Apart(m[i]))
  }

  /** Swaps two rows element by element. */
  method SwapRowElements(t: Tables, src: seq<array<Gf>>, i: nat, j: nat)
    requires MatrixBuffers(t, src, |src|) && i < |src| && j < |src|
    modifies src
    ensures Rows(src) == SwapRows(old(Rows(src)), i, j)
  {
    var k := |src|;
    if i != j {
      var ix := 0;
      while ix < k
        invariant 0 <= ix <= k
        invariant forall c :: 0 <= c < ix ==> src[i][c] == old(src[j][c]) && src[j][c] == old(src[i][c])
        invariant forall c :: ix <= c < k ==> src[i][c] == old(src[i][c]) && src[j][c] == old(src[j][c])
        invariant forall l :: 0 <= l < k && l != i && l != j ==> src[l][..] == old(src[l][..])
      {
        src[i][ix], src[j][ix] := src[j][ix], src[i][ix];
        ix := ix + 1;
      }
      assert src[i][..] == old(src[j][..]) && src[j][..] == old(src[i][..]);
    }
  }

  /** Swaps two columns row by row. */
  method SwapColumnElements(t: Tables, src: seq<array<Gf>>, i: nat, j: nat)
    requires MatrixBuffers(t, src, |src|) && i < |src| && j < |src|
    modifies src
    ensures Rows(src) == SwapColumns(old(Rows(src)), i, j)
  {
    var k := |src|;
    var row := 0;
    while row < k
      invariant 0 <= row <= k
      invariant forall l :: 0 <= l < row ==> src[l][..] == SwapVec(old(src[l][..]), i, j)
      invariant forall l :: row <= l < k ==> src[l][..] == old(src[l][..])
    {
      src[row][i], src[row][j] := src[row][j], src[row][i];
      row := row + 1;
    }
  }

  /** Divides the pivot row by its pivot, leaving the inverse in the pivot's place. */
  method ScaleRow(t: Tables, row: array<Gf>, icol: nat)
    requires t.Valid() && t.Apart(row) && icol < row.Length && row[icol] != 0
    modifies row
    ensures row[..] == ScaledRow(old(row[..]), icol)
  {
    hide Mul, Inv;
    var c := row[icol];
    InvOfOne();
    if c != 1 {
      c := t.inverse[c as int];
      row[icol] := 1;
      ghost var scaled := row[..];
      var ix := 0;
      while ix < row.Length
        invariant 0 <= ix <= row.Length
        invariant forall j :: 0 <= j < ix ==> row[j] == Mul(c, scaled[j])
        invariant forall j :: ix <= j < row.Length ==> row[j] == scaled[j]
      {
        row[ix] := t.GfMul(c, row[ix]);
        ix := ix + 1;
      }
    } else {
      forall j | 0 <= j < row.Length
        ensures Mul(1, row[j]) == row[j]
      {
        OneMul(row[j]);
      }
      assert row[..][icol := 1] == row[..];
    }
  }

  /** All rows but the pivot row after elimination. */
  ghost function Eliminated(t: Matrix, c: nat): (r: Matrix)
    requires c < |t| && IsMatrix(t, |t|, |t|)
    ensures IsMatrix(r, |t|, |t|)
    ensures forall i :: 0 <= i < |t| ==> r[i] == if i == c then t[c] else EliminatedRow(t[i], c, t[c])
  {
    seq(|t|, i requires 0 <= i < |t| => if i == c then t[c] else EliminatedRow(t[i], c, t[c]))
  }

  /** Scaling the pivot row and then eliminating is one pivot step. */
  lemma PivotInTwoSteps(t: Matrix, c: nat)
    requires c < |t| && IsMatrix(t, |t|, |t|)
    ensures Pivot(t, c) == Eliminated(t[c := ScaledRow(t[c], c)], c)
  {
    hide ScaledRow, EliminatedRow;
  }

  /** If the pivot row is a unit vector, elimination changes nothing. */
  lemma UnitPivotRow(row: Vec, c: nat)
    requires c < |row|
    ensures EliminatedRow(row, c, UnitVec(|row|, c)) == row
  {
    hide Add, Mul;
    var v, e := row[c], UnitVec(|row|, c);
    MulZero(v);
    MulOne(v);
    AddZero(v);
    forall j | 0 <= j < |row|
      ensures EliminatedRow(row, c, e)[j] == row[j]
    {
      AddZero(row[j]);
    }
  }

  /** Subtracts the right multiple of the pivot row from another row. */
  method EliminateRow(t: Tables, p: array<Gf>, pivotRow: array<Gf>, icol: nat)
    requires t.Valid() && t.Apart(p) && p != pivotRow
    requires icol < p.Length == pivotRow.Length
    modifies p
    ensures p[..] == EliminatedRow(old(p[..]), icol, pivotRow[..])
  {
    hide Add, Mul, Tables.Valid;
    var c := p[icol];
    p[icol] := 0;
    ghost var before := p[..];
    assert before == old(p[..])[icol := 0];
    AddMul(t, p, 0, pivotRow, 0, c, p.Length);
    assert p[..] == AddMulRow(before, c, pivotRow[..]);
  }

  /** Zeroes column `icol` outside the pivot row; a unit pivot row is skipped. */
  method Eliminate(t: Tables, src: seq<array<Gf>>, icol: nat, idRow: array<Gf>)
    requires t.Valid() && MatrixBuffers(t, src, |src|) && icol < |src|
    requires idRow[..] == Zeros(|src|) && idRow !in src && t.Apart(idRow)
    modifies src, idRow
    ensures Rows(src) == Eliminated(old(Rows(src)), icol)
    ensures idRow[..] == Zeros(|src|)
  {
    hide EliminatedRow, Tables.Valid;
    var k := |src|;
    idRow[icol] := 1;
    assert idRow[..] == UnitVec(k, icol);
    if src[icol][..] != idRow[..] {
      var ix := 0;
      while ix < k
        invariant 0 <= ix <= k
        invariant idRow[..] == UnitVec(k, icol)
        invariant src[icol][..] == old(src[icol][..])
        invariant forall l :: 0 <= l < ix && l != icol ==>
          src[l][..] == EliminatedRow(old(src[l][..]), icol, old(src[icol][..]))
        invariant forall l :: ix <= l < k ==> src[l][..] == old(src[l][..])
        invariant t.Valid()
      {
        if ix != icol {
          EliminateRow(t, src[ix], src[icol], icol);
        }
        ix := ix + 1;
      }
    } else {
      forall l | 0 <= l < k && l != icol
        ensures EliminatedRow(src[l][..], icol, src[icol][..]) == src[l][..]
      {
        UnitPivotRow(src[l][..], icol);
      }
    }
    idRow[icol] := 0;
    assert idRow[..] == Zeros(k);
  }

  /** The indices marked as used pivots. */
  ghost predicate Marks(ipiv: array<int>, done: set<int>)
    reads ipiv
  {
    (forall j :: j in done ==> 0 <= j < ipiv.Length) &&
    forall j :: 0 <= j < ipiv.Length ==> ipiv[j] == if j in done then 1 else 0
  }

  ghost predicate IsPivot(m: Matrix, done: set<int>, irow: nat, icol: nat)
    requires IsMatrix(m, |m|, |m|)
  {
    irow < |m| && icol < |m| && irow !in done && icol !in done && m[irow][icol] != 0
  }

  /** Looks on the diagonal first, then anywhere among unused rows and columns. */
  method FindPivot(t: Tables, src: seq<array<Gf>>, ipiv: array<int>, col: nat, ghost done: set<int>)
      returns (found: bool, irow: nat, icol: nat)
    requires MatrixBuffers(t, src, |src|) && ipiv.Length == |src| && Marks(ipiv, done) && col < |src|
    ensures found ==> IsPivot(Rows(src), done, irow, icol)
    ensures !found ==> forall i, j :: 0 <= i < |src| && 0 <= j < |src| ==> !IsPivot(Rows(src), done, i, j)
  {
    var k := |src|;
    if ipiv[col] != 1 && src[col][col] != 0 {
      return true, col, col;
    }
    var row := 0;
    while row < k
      invariant 0 <= row <= k
      invariant forall i, j :: 0 <= i < row && 0 <= j < k ==> !IsPivot(Rows(src), done, i, j)
    {
      if ipiv[row] != 1 {
        var ix := 0;
        while ix < k
          invariant 0 <= ix <= k
          invariant forall j :: 0 <= j < ix ==> !IsPivot(Rows(src), done, row, j)
        {
          if ipiv[ix] == 0 {
            if src[row][ix] != 0 {
              return true, row, ix;
            }
          } else {
            assert ipiv[ix] <= 1;
          }
          ix := ix + 1;
        }
      }
      row := row + 1;
    }
    return false, 0, 0;
  }

  lemma FreeIndex(done: set<int>, k: nat) returns (free: nat)
    requires |done| < k && forall j :: j in done ==> 0 <= j < k
    ensures free < k && free !in done
  {
    assert Interval(0, k) == done + (Interval(0, k) - done);
    free :| free in Interval(0, k) - done;
  }

  lemma FullSet(done: set<int>, k: nat)
    requires |done| == k && forall j :: j in done ==> 0 <= j < k
    ensures forall j :: 0 <= j < k ==> j in done
  {
    SubsetOfEqualSize(done, Interval(0, k));
  }

  lemma InvOfOne()
    ensures Inv(1) == 1
  {
    MulInv(1);
    MulOne(Inv(1));
    hide Mul, Inv;
  }

  /** A pivot is always found before all indices are used. */
  lemma PivotExists(t: Matrix, a: Matrix, done: set<int>)
    requires Exchanged(t, a, done) && Nonsingular(a)
    requires |done| < |a| && forall j :: j in done ==> 0 <= j < |a|
    ensures exists i: nat, j: nat :: IsPivot(t, done, i, j)
  {
    if forall i: nat, j: nat :: !IsPivot(t, done, i, j) {
      var free := FreeIndex(done, |a|);
      forall i, j | 0 <= i < |a| && 0 <= j < |a| && i !in done && j !in done
        ensures t[i][j] == 0
      {
        var p: nat, q: nat := i, j;
        assert !IsPivot(t, done, p, q);
      }
      NoPivotKernel(t, a, done, free);
    }
  }

  /** One round of the elimination: find a pivot, move it to the diagonal, exchange its index. */
  method PivotColumn(t: Tables, src: seq<array<Gf>>, ipiv: array<int>, idRow: array<Gf>, col: nat,
      ghost a: Matrix, ghost done: set<int>)
      returns (irow: nat, icol: nat)
    requires t.Valid() && MatrixBuffers(t, src, |src|) && col < |src|
    requires idRow[..] == Zeros(|src|) && idRow !in src && t.Apart(idRow)
    requires ipiv.Length == |src| && Marks(ipiv, done) && |done| < |src|
    requires t.Apart(ipiv) && ipiv as object != idRow && forall i :: 0 <= i < |src| ==> src[i] as object != ipiv
    requires |a| == |src| && Exchanged(Rows(src), a, done) && Nonsingular(a)
    modifies src, idRow, ipiv
    ensures irow < |src| && icol < |src| && icol !in done
    ensures idRow[..] == Zeros(|src|)
    ensures Marks(ipiv, done + {icol})
    ensures Exchanged(Rows(src), SwapRows(a, irow, icol), done + {icol})
    ensures Nonsingular(SwapRows(a, irow, icol))
  {
    hide Exchanged, Nonsingular, Pivot, SwapRows, Tables.Valid, ScaledRow, Eliminated, Zeros, Mul;
    ghost var m := Rows(src);
    PivotExists(m, a, done);
    var found;
    found, irow, icol := FindPivot(t, src, ipiv, col, done);
    assert m == Rows(src);
    assert exists i: nat, j: nat :: IsPivot(m, done, i, j);
    assert found;
    ghost var swapped := SwapRows(m, irow, icol);
    SwapStep(m, a, done, irow, icol);
    SwapNonsingular(a, irow, icol);
    ipiv[icol] := ipiv[icol] + 1;
    assert Rows(src) == m;
    PivotToDiagonal(t, src, irow, icol, idRow);
    PivotStep(swapped, SwapRows(a, irow, icol), done, icol);
  }

  /** The rest of a round, once the pivot is known: swap, scale, eliminate. */
  method PivotToDiagonal(t: Tables, src: seq<array<Gf>>, irow: nat, icol: nat, idRow: array<Gf>)
    requires t.Valid() && MatrixBuffers(t, src, |src|)
    requires irow < |src| && icol < |src| && src[irow][icol] != 0
    requires idRow[..] == Zeros(|src|) && idRow !in src && t.Apart(idRow)
    modifies src, idRow
    ensures idRow[..] == Zeros(|src|)
    ensures Rows(src) == Pivot(SwapRows(old(Rows(src)), irow, icol), icol)
  {
    hide Pivot, Tables.Valid, ScaledRow, Eliminated;
    ghost var m := Rows(src);
    if irow != icol {
      SwapRowElements(t, src, irow, icol);
    } else {
      SwapSame(m, icol);
    }
    ghost var swapped := Rows(src);
    assert swapped[icol] == m[irow];
    ScaleRow(t, src[icol], icol);
    assert Rows(src) == swapped[icol := ScaledRow(swapped[icol], icol)];
    Eliminate(t, src, icol, idRow);
    PivotInTwoSteps(swapped, icol);
  }

  /** `a` after the first `n` recorded row swaps. */
  ghost function Swapped(a: Matrix, rs: seq<nat>, cs: seq<nat>, n: nat): (r: Matrix)
    requires n <= |rs| == |cs| && IsMatrix(a, |a|, |a|)
    requires forall c :: 0 <= c < |rs| ==> rs[c] < |a| && cs[c] < |a|
    ensures IsMatrix(r, |a|, |a|)
  {
    if n == 0 then a else SwapRows(Swapped(a, rs, cs, n - 1), rs[n - 1], cs[n - 1])
  }

  lemma SwappedNone(a: Matrix, rs: seq<nat>, cs: seq<nat>)
    requires |rs| == |cs| && IsMatrix(a, |a|, |a|)
    requires forall c :: 0 <= c < |rs| ==> rs[c] < |a| && cs[c] < |a|
    ensures Swapped(a, rs, cs, 0) == a
  {}

  lemma SwappedLast(a: Matrix, rs: seq<nat>, cs: seq<nat>, n: nat)
    requires 0 < n <= |rs| == |cs| && IsMatrix(a, |a|, |a|)
    requires forall c :: 0 <= c < |rs| ==> rs[c] < |a| && cs[c] < |a|
    ensures Swapped(a, rs, cs, n) == SwapRows(Swapped(a, rs, cs, n - 1), rs[n - 1], cs[n - 1])
  {}

  lemma {:induction false} SwappedPrefix(a: Matrix, rs: seq<nat>, cs: seq<nat>, r: nat, c: nat, n: nat)
    requires n <= |rs| == |cs| && IsMatrix(a, |a|, |a|) && r < |a| && c < |a|
    requires forall l :: 0 <= l < |rs| ==> rs[l] < |a| && cs[l] < |a|
    ensures Swapped(a, rs + [r], cs + [c], n) == Swapped(a, rs, cs, n)
  {
    if n > 0 {
      SwappedPrefix(a, rs, cs, r, c, n - 1);
    }
  }

  /** The final column swaps, last recorded swap first. */
  method UndoSwaps(t: Tables, src: seq<array<Gf>>, indxr: array<nat>, indxc: array<nat>,
      ghost a: Matrix, ghost rs: seq<nat>, ghost cs: seq<nat>)
    requires MatrixBuffers(t, src, |src|) && IsMatrix(a, |src|, |src|)
    requires indxr[..] == rs && indxc[..] == cs && |rs| == |cs| == |src|
    requires forall i :: 0 <= i < |src| ==> src[i] as object != indxr && src[i] as object != indxc
    requires forall c :: 0 <= c < |src| ==> rs[c] < |src| && cs[c] < |src|
    requires Inverses(Swapped(a, rs, cs, |src|), Rows(src))
    modifies src
    ensures Inverses(a, Rows(src))
  {
    hide Inverses, SwapRows, SwapColumns, Swapped, Rows, MatrixBuffers;
    var col := |src|;
    SwappedNone(a, rs, cs);
    while col > 0
      invariant 0 <= col <= |src|
      invariant indxr[..] == rs && indxc[..] == cs
      invariant Inverses(Swapped(a, rs, cs, col), Rows(src))
    {
      SwappedLast(a, rs, cs, col);
      UndoSwap(t, src, indxr[col - 1], indxc[col - 1], Swapped(a, rs, cs, col - 1));
      col := col - 1;
    }
  }

  method UndoSwap(t: Tables, src: seq<array<Gf>>, r: nat, c: nat, ghost a: Matrix)
    requires MatrixBuffers(t, src, |src|) && IsMatrix(a, |src|, |src|) && r < |src| && c < |src|
    requires Inverses(SwapRows(a, r, c), Rows(src))
    modifies src
    ensures Inverses(a, Rows(src))
  {
    hide Inverses, SwapRows, SwapColumns;
    UnswapStep(a, Rows(src), r, c);
    if r != c {
      SwapColumnElements(t, src, r, c);
    } else {
      SwapColumnsSame(Rows(src), c);
    }
  }

  /** `m` after the rounds that used the pivots `done` and recorded the swaps `rs`, `cs`. */
  ghost predicate Progress(m: Matrix, a: Matrix, rs: seq<nat>, cs: seq<nat>, done: set<int>) {
    |rs| == |cs| == |done| && IsMatrix(a, |a|, |a|) &&
    (forall c :: 0 <= c < |rs| ==> rs[c] < |a| && cs[c] < |a|) &&
    Nonsingular(Swapped(a, rs, cs, |rs|)) && Exchanged(m, Swapped(a, rs, cs, |rs|), done)
  }

  lemma ProgressStart(a: Matrix)
    requires Nonsingular(a)
    ensures Progress(a, a, [], [], {})
  {
    ExchangedNone(a);
  }

  lemma ProgressStep(m: Matrix, a: Matrix, rs: seq<nat>, cs: seq<nat>, done: set<int>, r: nat, c: nat, m': Matrix)
    requires Progress(m, a, rs, cs, done)
    requires r < |a| && c < |a| && c !in done
    requires Exchanged(m', SwapRows(Swapped(a, rs, cs, |rs|), r, c), done + {c})
    requires Nonsingular(SwapRows(Swapped(a, rs, cs, |rs|), r, c))
    ensures Progress(m', a, rs + [r], cs + [c], done + {c})
  {
    hide Exchanged, Nonsingular, SwapRows, Swapped;
    SwappedPrefix(a, rs, cs, r, c, |rs|);
    SwappedLast(a, rs + [r], cs + [c], |rs| + 1);
  }

  /** Replaces a nonsingular matrix by its inverse, in place. */
  method InvertMat(t: Tables, src: seq<array<Gf>>)
    requires t.Valid() && MatrixBuffers(t, src, |src|)
    requires Nonsingular(Rows(src))
    modifies src
    ensures Inverses(old(Rows(src)), Rows(src))
  {
    hide Exchanged, Inverses, Nonsingular, SwapRows, Tables.Valid, Swapped, Rows, Progress;
    var k := |src|;
    var indxc, indxr := new nat[k], new nat[k];
    ghost var a := Rows(src);
    ghost var done, rs, cs := EliminateColumns(t, src, indxr, indxc);
    FinishElimination(Rows(src), a, rs, cs, done);
    UndoSwaps(t, src, indxr, indxc, a, rs, cs);
  }

  lemma FinishElimination(m: Matrix, a: Matrix, rs: seq<nat>, cs: seq<nat>, done: set<int>)
    requires Progress(m, a, rs, cs, done) && |done| == |a|
    requires forall j :: j in done ==> 0 <= j < |a|
    ensures IsMatrix(a, |a|, |a|) && |rs| == |cs| == |a|
    ensures forall c :: 0 <= c < |rs| ==> rs[c] < |a| && cs[c] < |a|
    ensures Inverses(Swapped(a, rs, cs, |a|), m)
  {
    FullSet(done, |a|);
    ExchangedAll(m, Swapped(a, rs, cs, |a|), done);
    hide Exchanged, Inverses, Nonsingular, Swapped;
  }

  /** The main loop: one round per column, recording every swap. */
  method EliminateColumns(t: Tables, src: seq<array<Gf>>, indxr: array<nat>, indxc: array<nat>)
      returns (ghost done: set<int>, ghost rs: seq<nat>, ghost cs: seq<nat>)
    requires t.Valid() && MatrixBuffers(t, src, |src|)
    requires Nonsingular(Rows(src))
    requires indxr != indxc && indxr.Length == indxc.Length == |src|
    requires t.Apart(indxr) && t.Apart(indxc)
    requires forall i :: 0 <= i < |src| ==> src[i] as object != indxr && src[i] as object != indxc
    modifies src, indxr, indxc
    ensures indxr[..] == rs && indxc[..] == cs
    ensures Progress(Rows(src), old(Rows(src)), rs, cs, done)
    ensures |done| == |src| && forall j :: j in done ==> 0 <= j < |src|
  {
    hide Exchanged, Nonsingular, SwapRows, Tables.Valid, Swapped, Progress;
    var k := |src|;
    var ipiv, idRow := new int[k](i => 0), new Gf[k](i => 0);
    ghost var a := Rows(src);
    done, rs, cs := {}, [], [];
    ProgressStart(a);
    var col := 0;
    while col < k
      invariant 0 <= col <= k && |rs| == |cs| == |done| == col
      invariant indxr[..col] == rs && indxc[..col] == cs
      invariant Marks(ipiv, done)
      invariant idRow[..] == Zeros(k)
      invariant Progress(Rows(src), a, rs, cs, done)
      invariant t.Valid()
    {
      done, rs, cs := EliminateColumn(t, src, ipiv, idRow, indxr, indxc, col, a, rs, cs, done);
      col := col + 1;
    }
  }

  method EliminateColumn(t: Tables, src: seq<array<Gf>>, ipiv: array<int>, idRow: array<Gf>,
      indxr: array<nat>, indxc: array<nat>, col: nat,
      ghost a: Matrix, ghost rs: seq<nat>, ghost cs: seq<nat>, ghost done: set<int>)
      returns (ghost done': set<int>, ghost rs': seq<nat>, ghost cs': seq<nat>)
    requires t.Valid() && MatrixBuffers(t, src, |src|) && |a| == |src|
    requires indxr != indxc && indxr.Length == indxc.Length == |src|
    requires t.Apart(indxr) && t.Apart(indxc) && t.Apart(idRow) && t.Apart(ipiv)
    requires forall i :: 0 <= i < |src| ==>
      src[i] as object != indxr && src[i] as object != indxc && src[i] as object != ipiv
    requires idRow !in src && idRow as object != ipiv && idRow as object != indxr && idRow as object != indxc
    requires ipiv as object != indxr && ipiv as object != indxc
    requires idRow[..] == Zeros(|src|) && Marks(ipiv, done) && ipiv.Length == |src|
    requires |rs| == |cs| == |done| == col < |src|
    requires indxr[..col] == rs && indxc[..col] == cs
    requires Progress(Rows(src), a, rs, cs, done)
    modifies src, ipiv, idRow, indxr, indxc
    ensures |rs'| == |cs'| == |done'| == col + 1
    ensures indxr[..col + 1] == rs' && indxc[..col + 1] == cs'
    ensures idRow[..] == Zeros(|src|) && Marks(ipiv, done')
    ensures Progress(Rows(src), a, rs', cs', done')
  {
    hide Exchanged, Nonsingular, SwapRows, Tables.Valid, Swapped;
    ghost var m := Rows(src);
    var irow, icol := PivotColumn(t, src, ipiv, idRow, col, Swapped(a, rs, cs, col), done);
    ghost var m' := Rows(src);
    indxr[col], indxc[col] := irow, icol;
    assert Rows(src) == m';
    ProgressStep(m, a, rs, cs, done, irow, icol, m');
    done', rs', cs' := done + {icol}, rs + [irow], cs + [icol];
  }

  lemma SwapSame(m: Matrix, i: nat)
    requires i < |m|
    ensures SwapRows(m, i, i) == m
  {}

  lemma SwapColumnsSame(m: Matrix, i: nat)
    requires i < |m| && IsMatrix(m, |m|, |m|)
    ensures SwapColumns(m, i, i) == m
  {
    forall l | 0 <= l < |m|
      ensures SwapColumns(m, i, i)[l] == m[l]
    {
      assert SwapVec(m[l], i, i) == m[l];
    }
  }
}
