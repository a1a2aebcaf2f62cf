/**
 The erasure code of libzfec/fec.cc:414-522: building the generator matrix, encoding check
 blocks, and rebuilding missing primary blocks from any k survivors.
 */
module ErasureCode {
  import opened GaloisField
  import opened LinearAlgebra
  import opened Polynomials
  import opened VandermondeTheory
  import opened FecTables
  import opened FecKernels
  import opened MatrixInversion
  import opened VandermondeInversion

  /** `unsigned char`, the type of the loop counters in the encoder and decoder. */
  newtype Byte = x: int | 0 <= x < 256

  const STRIDE := 8192

  /** The bytes of all blocks at one position. */
  function ByteColumn(blocks: seq<seq<Gf>>, pos: nat): (c: Vec)
    requires forall j :: 0 <= j < |blocks| ==> pos < |blocks[j]|
    ensures |c| == |blocks| && forall j :: 0 <= j < |c| ==> c[j] == blocks[j][pos]
  {
    seq(|blocks|, j requires 0 <= j < |blocks| => blocks[j][pos])
  }

  /** Byte `pos` of block number `num` of the code word that belongs to `data`. */
  ghost function CodeByte(data: seq<seq<Gf>>, num: nat, pos: nat): Gf
    requires forall j :: 0 <= j < |data| ==> pos < |data[j]|
  {
    Dot(GeneratorRow(|data|, num), ByteColumn(data, pos))
  }

  /** A primary block of the code word is the data block itself. */
  lemma PrimaryByte(data: seq<seq<Gf>>, num: nat, pos: nat)
    requires num < |data| && forall j :: 0 <= j < |data| ==> pos < |data[j]|
    ensures CodeByte(data, num, pos) == data[num][pos]
  {
    DotUnit(ByteColumn(data, pos), num);
  }

  method AllocateMatrix(rows: nat, cols: nat) returns (m: seq<array<Gf>>)
    ensures |m| == rows && fresh(m)
    ensures forall i, j :: 0 <= i < j < rows ==> m[i] != m[j]
    ensures forall i :: 0 <= i < rows ==> m[i].Length == cols
  {
    m := [];
    while |m| < rows
      invariant |m| <= rows && fresh(m)
      invariant forall i, j :: 0 <= i < j < |m| ==> m[i] != m[j]
      invariant forall i :: 0 <= i < |m| ==> m[i].Length == cols
    {
      var row := new Gf[cols];
      m := m + [row];
    }
  }

  /** memset to zero. */
  method Clear(a: array<Gf>, off: nat, n: nat)
    requires off + n <= a.Length
    modifies a
    ensures forall i :: 0 <= i < a.Length ==> a[i] == if off <= i < off + n then 0 else old(a[i])
  {
    forall i | off <= i < off + n {
      a[i] := 0;
    }
  }

  /** A code with k primary and n - k check blocks. */
  class Fec {
    const k: nat
    const n: nat
    const encMatrix: seq<array<Gf>>

    ghost predicate Valid()
      reads encMatrix
    {
      0 < k <= n <= 256 && |encMatrix| == n && Rows(encMatrix) == Generator(k, n)
    }

    constructor (t: Tables, k: nat, n: nat)
      requires t.Valid() && 0 < k <= n <= 256
      ensures Valid() && this.k == k && this.n == n && fresh(encMatrix)
    {
      this.k, this.n := k, n;
      var m := BuildGenerator(t, k, n);
      encMatrix := m;
    }
  }

  /** Fills a matrix with powers of the evaluation points, starting from the point zero. */
  method FillVandermonde(t: Tables, m: seq<array<Gf>>, k: nat, n: nat)
    requires t.Valid() && 0 < k && 0 < n <= 256 && |m| == n && MatrixBuffers(t, m, k)
    modifies m
    ensures forall i :: 0 <= i < n ==> m[i][..] == Powers(Point(i), k)
  {
    hide Power, Point, Pow, MulTable, PowIndex;
    m[0][0] := 1;
    var col := 1;
    while col < k
      invariant 1 <= col <= k && t.Valid()
      invariant m[0][0] == 1 && forall j :: 1 <= j < col ==> m[0][j] == 0
    {
      m[0][col] := 0;
      col := col + 1;
    }
    FirstRow(k);
    assert m[0][..] == Powers(Point(0), k);
    var row := 0;
    while row < n - 1
      invariant 0 <= row <= n - 1 && t.Valid()
      invariant forall i :: 0 <= i < row + 1 ==> m[i][..] == Powers(Point(i), k)
    {
      FillRow(t, m[row + 1], row, k);
      row := row + 1;
    }
  }

  lemma FirstRow(k: nat)
    requires k > 0
    ensures Powers(Point(0), k)[0] == 1 && forall j :: 1 <= j < k ==> Powers(Point(0), k)[j] == 0
  {
    forall j | 1 <= j < k
      ensures Powers(Point(0), k)[j] == 0
    {
      PowerOfZero(j);
    }
  }

  method FillRow(t: Tables, p: array<Gf>, row: nat, k: nat)
    requires t.Valid() && t.Apart(p) && p.Length == k
    modifies p
    ensures p[..] == Powers(Point(row + 1), k)
  {
    hide Power, Point, Pow, MulTable, PowIndex;
    var col := 0;
    while col < k
      invariant 0 <= col <= k && t.Valid()
      invariant forall j :: 0 <= j < col ==> p[j] == Powers(Point(row + 1), k)[j]
    {
      var e := Modnn(row * col);
      VandermondeEntry(row, col);
      p[col] := t.gfExp[e];
      col := col + 1;
    }
  }

  /** Builds the systematic generator: identity on top, check rows below. */
  method BuildGenerator(t: Tables, k: nat, n: nat) returns (m: seq<array<Gf>>)
    requires t.Valid() && 0 < k <= n <= 256
    ensures fresh(m) && |m| == n && Rows(m) == Generator(k, n)
  {
    hide Tables.Valid, Powers, VandermondeInverse, Vandermonde, Generator;
    m := AllocateMatrix(n, k);
    var tmp := AllocateMatrix(n, k);
    FillVandermonde(t, tmp, k, n);
    TopBlock(tmp[..k], k);
    PointsDistinct(k);
    InvertVdm(t, tmp[..k], Points(k));
    assert forall i :: k <= i < n ==> tmp[i][..] == Powers(Point(i), k);
    CheckRows(t, tmp, m, k, n);
    IdentityTop(m, k);
    GeneratorFromRows(Rows(m), k, n);
  }

  /** The check rows: the lower rows of the Vandermonde matrix times the inverse of its top block. */
  method CheckRows(t: Tables, tmp: seq<array<Gf>>, m: seq<array<Gf>>, k: nat, n: nat)
    requires t.Valid() && 0 < k <= n == |tmp| == |m| && MatrixBuffers(t, m, k)
    requires forall i :: 0 <= i < n ==> tmp[i].Length == k && m[i] !in tmp
    requires Rows(tmp[..k]) == VandermondeInverse(Points(k))
    requires forall i :: k <= i < n ==> tmp[i][..] == Powers(Point(i), k)
    modifies m
    ensures forall i :: k <= i < n ==> m[i][..] == CheckRow(k, i)
  {
    hide Tables.Valid, Powers, VandermondeInverse, Rows;
    assert forall i :: 0 <= i < n - k ==> m[k..][i] == m[k + i] && tmp[k..][i] == tmp[k + i];
    Matmul(t, tmp[k..], tmp[..k], m[k..], n - k, k, k);
    assert forall i :: k <= i < n ==> m[i] == m[k..][i - k];
  }

  lemma TopBlock(top: seq<array<Gf>>, k: nat)
    requires |top| == k && forall i :: 0 <= i < k ==> top[i][..] == Powers(Point(i), k)
    ensures Rows(top) == Vandermonde(Points(k))
  {}

  lemma GeneratorFromRows(m: Matrix, k: nat, n: nat)
    requires |m| == n && k <= n
    requires forall i :: 0 <= i < k ==> m[i] == UnitVec(k, i)
    requires forall i :: k <= i < n ==> m[i] == CheckRow(k, i)
    ensures m == Generator(k, n)
  {
    hide CheckRow;
  }

  /** Overwrites the top k rows with the identity matrix. */
  method IdentityTop(m: seq<array<Gf>>, k: nat)
    requires k <= |m| && forall i, j :: 0 <= i < j < |m| ==> m[i] != m[j]
    requires forall i :: 0 <= i < |m| ==> m[i].Length == k
    modifies m
    ensures forall i :: 0 <= i < k ==> m[i][..] == UnitVec(k, i)
    ensures forall i :: k <= i < |m| ==> m[i][..] == old(m[i][..])
  {
    var i := 0;
    while i < k
      invariant 0 <= i <= k
      invariant forall l :: 0 <= l < i ==> m[l][..] == UnitVec(k, l)
      invariant forall l :: i <= l < |m| ==> m[l][..] == old(m[l][..])
    {
      Clear(m[i], 0, k);
      m[i][i] := 1;
      i := i + 1;
    }
  }

  // ---------------------------------------------------------------- encoding

  ghost function PartialByte(row: Vec, data: seq<seq<Gf>>, pos: nat, n: nat): Gf
    requires |row| == |data| && n <= |data|
    requires forall j :: 0 <= j < |data| ==> pos < |data[j]|
  {
    DotN(row, ByteColumn(data, pos), n)
  }

  /** `dst` while the bytes from `off` up to `off + len` hold the first `n` products. */
  ghost predicate Accumulated(dst: seq<Gf>, before: seq<Gf>, row: Vec, data: seq<seq<Gf>>, off: nat, len: nat, n: nat)
    requires |row| == |data| && n <= |data|
    requires forall j :: 0 <= j < |data| ==> off + len <= |data[j]|
  {
    |dst| == |before| && off + len <= |dst| &&
    (forall pos :: off <= pos < off + len ==> dst[pos] == PartialByte(row, data, pos, n)) &&
    (forall pos :: 0 <= pos < off ==> dst[pos] == before[pos]) &&
    (forall pos :: off + len <= pos < |dst| ==> dst[pos] == before[pos])
  }

  lemma AccumulatedStep(dst: seq<Gf>, before: seq<Gf>, row: Vec, data: seq<seq<Gf>>, off: nat, len: nat, n: nat)
    requires |row| == |data| && n < |data|
    requires forall j :: 0 <= j < |data| ==> off + len <= |data[j]|
    requires Accumulated(dst, before, row, data, off, len, n)
    ensures Accumulated(Added(dst, off, data[n], off, row[n], len), before, row, data, off, len, n + 1)
  {
    hide Add, Mul;
    var after := Added(dst, off, data[n], off, row[n], len);
    forall pos | off <= pos < off + len
      ensures after[pos] == PartialByte(row, data, pos, n + 1)
    {
      assert ByteColumn(data, pos)[n] == data[n][pos];
    }
  }

  /** Clears one stretch of a check block and adds up the products for it. */
  method EncodeStretch(t: Tables, row: array<Gf>, src: seq<array<Gf>>, dst: array<Gf>, off: nat, len: nat)
    requires t.Valid() && t.Apart(dst) && dst !in src && dst != row
    requires row.Length == |src| <= 255
    requires off + len <= dst.Length && forall j :: 0 <= j < |src| ==> off + len <= src[j].Length
    modifies dst
    ensures Accumulated(dst[..], old(dst[..]), row[..], Rows(src), off, len, |src|)
  {
    hide Tables.Valid, Accumulated, Added;
    ghost var before, data, r := dst[..], Rows(src), row[..];
    Clear(dst, off, len);
    NothingAccumulated(dst[..], before, r, data, off, len);
    var j: Byte := 0;
    while j as int < |src|
      invariant 0 <= j as int <= |src|
      invariant t.Valid() && row[..] == r && Rows(src) == data
      invariant Accumulated(dst[..], before, r, data, off, len, j as int)
    {
      AccumulatedStep(dst[..], before, r, data, off, len, j as int);
      AddMul(t, dst, off, src[j], off, row[j], len);
      j := j + 1;
    }
  }

  lemma NothingAccumulated(dst: seq<Gf>, before: seq<Gf>, row: Vec, data: seq<seq<Gf>>, off: nat, len: nat)
    requires |row| == |data| && |dst| == |before| && off + len <= |dst|
    requires forall j :: 0 <= j < |data| ==> off + len <= |data[j]|
    requires forall i :: 0 <= i < |dst| ==> dst[i] == if off <= i < off + len then 0 else before[i]
    ensures Accumulated(dst, before, row, data, off, len, 0)
  {}

  /** Check block `num` of the code word, complete in its first `n` bytes and untouched after byte `sz`. */
  ghost predicate Encoded(dst: seq<Gf>, before: seq<Gf>, data: seq<seq<Gf>>, num: nat, n: nat)
    requires forall j :: 0 <= j < |data| ==> n <= |data[j]|
  {
    |dst| == |before| && n <= |dst| &&
    (forall pos :: 0 <= pos < n ==> dst[pos] == CodeByte(data, num, pos)) &&
    (forall pos :: n <= pos < |dst| ==> dst[pos] == before[pos])
  }

  lemma EncodedStretch(dst: seq<Gf>, mid: seq<Gf>, before: seq<Gf>, row: Vec, data: seq<seq<Gf>>, num: nat, off: nat,
      len: nat)
    requires forall j :: 0 <= j < |data| ==> off + len <= |data[j]|
    requires row == GeneratorRow(|data|, num)
    requires Encoded(mid, before, data, num, off)
    requires Accumulated(dst, mid, row, data, off, len, |data|)
    ensures Encoded(dst, before, data, num, off + len)
  {
    hide GeneratorRow;
    forall pos | off <= pos < off + len
      ensures dst[pos] == CodeByte(data, num, pos)
    {
      assert PartialByte(row, data, pos, |data|) == CodeByte(data, num, pos);
    }
  }

  /** Buffers for the outputs: distinct, large enough, apart from everything that is read. */
  ghost predicate OutputBuffers(t: Tables, out: seq<array<Gf>>, src: seq<array<Gf>>, enc: seq<array<Gf>>, sz: nat) {
    (forall i, j :: 0 <= i < j < |out| ==> out[i] != out[j]) &&
    (forall i :: 0 <= i < |out| ==> sz <= out[i].Length && t.Apart(out[i]) && out[i] !in src && out[i] !in enc)
  }

  /** Writes the check blocks with the given numbers, one stretch of 8192 bytes at a time. */
  method FecEncode(t: Tables, code: Fec, src: seq<array<Gf>>, fecs: seq<array<Gf>>, blockNums: seq<nat>, sz: nat)
    requires t.Valid() && code.Valid() && |src| == code.k <= 255
    requires forall j :: 0 <= j < |src| ==> sz <= src[j].Length
    requires |blockNums| == |fecs| <= 255
    requires forall i :: 0 <= i < |blockNums| ==> code.k <= blockNums[i] < code.n
    requires OutputBuffers(t, fecs, src, code.encMatrix, sz)
    modifies fecs
    ensures forall i :: 0 <= i < |fecs| ==>
      Encoded(fecs[i][..], old(fecs[i][..]), old(Rows(src)), blockNums[i], sz)
  {
    hide Tables.Valid, Encoded, CodeByte, Generator;
    ghost var data := Rows(src);
    ghost var before := Rows(fecs);
    forall i | 0 <= i < |fecs|
      ensures Encoded(fecs[i][..], before[i], data, blockNums[i], 0)
    {
      NothingEncoded(fecs[i][..], data, blockNums[i]);
    }
    var k := 0;
    while k < sz
      invariant 0 <= k && t.Valid() && code.Valid() && Rows(src) == data
      invariant forall i :: 0 <= i < |fecs| ==>
        Encoded(fecs[i][..], before[i], data, blockNums[i], if k < sz then k else sz)
    {
      var stride := if sz - k < STRIDE then sz - k else STRIDE;
      EncodeStride(t, code, src, fecs, blockNums, k, stride, data, before);
      k := k + STRIDE;
    }
  }

  lemma NothingEncoded(dst: seq<Gf>, data: seq<seq<Gf>>, num: nat)
    ensures Encoded(dst, dst, data, num, 0)
  {}

  method EncodeStride(t: Tables, code: Fec, src: seq<array<Gf>>, fecs: seq<array<Gf>>, blockNums: seq<nat>,
      k: nat, stride: nat, ghost data: seq<seq<Gf>>, ghost before: seq<seq<Gf>>)
    requires t.Valid() && code.Valid() && |src| == code.k <= 255 && Rows(src) == data
    requires forall j :: 0 <= j < |src| ==> k + stride <= src[j].Length
    requires |blockNums| == |fecs| == |before| <= 255
    requires forall i :: 0 <= i < |blockNums| ==> code.k <= blockNums[i] < code.n
    requires OutputBuffers(t, fecs, src, code.encMatrix, k + stride)
    requires forall i :: 0 <= i < |fecs| ==> Encoded(fecs[i][..], before[i], data, blockNums[i], k)
    modifies fecs
    ensures forall i :: 0 <= i < |fecs| ==> Encoded(fecs[i][..], before[i], data, blockNums[i], k + stride)
  {
    hide Tables.Valid, Encoded, CodeByte, Accumulated, Generator, GeneratorRow;
    var i: Byte := 0;
    while i as int < |fecs|
      invariant 0 <= i as int <= |fecs|
      invariant t.Valid() && code.Valid() && Rows(src) == data
      invariant forall l :: 0 <= l < i as int ==> Encoded(fecs[l][..], before[l], data, blockNums[l], k + stride)
      invariant forall l :: i as int <= l < |fecs| ==> Encoded(fecs[l][..], before[l], data, blockNums[l], k)
    {
      var fecnum := blockNums[i];
      assert fecnum >= code.k;
      ghost var mid := fecs[i][..];
      assert Rows(code.encMatrix)[fecnum] == GeneratorRow(code.k, fecnum);
      EncodeStretch(t, code.encMatrix[fecnum], src, fecs[i], k, stride);
      EncodedStretch(fecs[i][..], mid, before[i], code.encMatrix[fecnum][..], data, fecnum, k, stride);
      i := i + 1;
    }
  }

  // ---------------------------------------------------------------- decoding

  /** The numbers of the blocks in hand: distinct, and every primary block in its own place. */
  ghost predicate Survivors(index: seq<nat>, k: nat, n: nat) {
    |index| == k && DistinctIndices(index, n) &&
    forall i :: 0 <= i < k ==> index[i] < k ==> index[i] == i
  }

  /** The primary blocks before `n` that are not in hand, in ascending order. */
  function MissingUpTo(index: seq<nat>, k: nat, n: nat): (m: seq<nat>)
    requires n <= |index|
    ensures |m| <= n && forall o :: 0 <= o < |m| ==> m[o] < n && index[m[o]] >= k
    ensures forall i :: 0 <= i < n && index[i] >= k ==> i in m
  {
    if n == 0 then [] else
      MissingUpTo(index, k, n - 1) + if index[n - 1] >= k then [n - 1] else []
  }

  /** The generator rows of the blocks in hand. */
  method SelectRows(t: Tables, code: Fec, index: seq<nat>) returns (m: seq<array<Gf>>)
    requires t.Valid() && code.Valid() && code.k <= 255 && Survivors(index, code.k, code.n)
    ensures fresh(m) && |m| == code.k && Rows(m) == Selected(code.k, index)
    ensures MatrixBuffers(t, m, code.k) && t.Valid()
  {
    hide Tables.Valid, Generator, Selected, Fec.Valid;
    var k := code.k;
    m := AllocateMatrix(k, k);
    var i: Byte := 0;
    while i as int < k
      invariant 0 <= i as int <= k && t.Valid() && code.Valid()
      invariant forall l :: 0 <= l < i as int ==> m[l][..] == GeneratorRow(k, index[l])
    {
      DecodeRow(code, m[i], index[i], i as int);
      i := i + 1;
    }
    assert Rows(m) == Selected(k, index);
  }

  /** Inverts the generator rows of the blocks in hand. */
  method BuildDecodeMatrix(t: Tables, code: Fec, index: seq<nat>) returns (m: seq<array<Gf>>)
    requires t.Valid() && code.Valid() && code.k <= 255 && Survivors(index, code.k, code.n)
    ensures fresh(m) && |m| == code.k && IsMatrix(Rows(m), code.k, code.k)
    ensures Inverses(Selected(code.k, index), Rows(m))
  {
    hide Tables.Valid, Generator, Selected, Nonsingular;
    m := SelectRows(t, code, index);
    SelectedNonsingular(code.k, code.n, index);
    InvertMat(t, m);
  }

  method DecodeRow(code: Fec, p: array<Gf>, num: nat, i: nat)
    requires code.Valid() && p.Length == code.k && p !in code.encMatrix
    requires i < code.k && num < code.n && (num < code.k ==> num == i)
    modifies p
    ensures p[..] == GeneratorRow(code.k, num)
  {
    hide Generator, CheckRow;
    if num < code.k {
      Clear(p, 0, p.Length);
      p[i] := 1;
    } else {
      var row := code.encMatrix[num];
      assert row[..] == Rows(code.encMatrix)[num];
      forall j | 0 <= j < p.Length {
        p[j] := row[j];
      }
    }
  }

  /** The blocks in hand belong to the code word of `data`. */
  ghost predicate Received(blocks: seq<seq<Gf>>, data: seq<seq<Gf>>, index: seq<nat>, sz: nat) {
    |blocks| == |index| && (forall j :: 0 <= j < |data| ==> |data[j]| == sz) &&
    forall i, pos :: 0 <= i < |blocks| && 0 <= pos < sz ==>
      sz <= |blocks[i]| && blocks[i][pos] == CodeByte(data, index[i], pos)
  }

  /** Multiplying the received bytes by the inverse gives the data bytes back. */
  lemma DecodedByte(m: Matrix, blocks: seq<seq<Gf>>, data: seq<seq<Gf>>, index: seq<nat>, sz: nat, row: nat, pos: nat)
    requires |data| == |index| && row < |data| && pos < sz
    requires forall i :: 0 <= i < |blocks| ==> sz <= |blocks[i]|
    requires Received(blocks, data, index, sz)
    requires Inverses(Selected(|data|, index), m)
    ensures PartialByte(m[row], blocks, pos, |blocks|) == data[row][pos]
  {
    hide Dot, GeneratorRow;
    var x, y := ByteColumn(data, pos), ByteColumn(blocks, pos);
    assert MatVec(Selected(|data|, index), x) == y;
    assert MatVec(m, y) == x;
    assert MatVec(m, y)[row] == x[row];
    PartialIsDot(m[row], blocks, pos);
  }

  lemma PartialIsDot(row: Vec, blocks: seq<seq<Gf>>, pos: nat)
    requires |row| == |blocks| && forall j :: 0 <= j < |blocks| ==> pos < |blocks[j]|
    ensures PartialByte(row, blocks, pos, |blocks|) == Dot(row, ByteColumn(blocks, pos))
  {}

  /** The first output buffers hold the listed data blocks. */
  ghost predicate Rebuilt(out: seq<seq<Gf>>, missing: seq<nat>, data: seq<seq<Gf>>, sz: nat) {
    |missing| <= |out| &&
    forall o :: 0 <= o < |missing| ==> missing[o] < |data| && sz <= |out[o]| && out[o][..sz] == data[missing[o]]
  }

  lemma RebuiltNext(out: seq<seq<Gf>>, out': seq<seq<Gf>>, missing: seq<nat>, data: seq<seq<Gf>>, sz: nat, row: nat)
    requires Rebuilt(out, missing, data, sz) && |out'| == |out| > |missing| && row < |data|
    requires forall o :: 0 <= o < |out| && o != |missing| ==> out'[o] == out[o]
    requires sz <= |out'[|missing|]| && out'[|missing|][..sz] == data[row]
    ensures Rebuilt(out', missing + [row], data, sz)
  {}

  /** Writes the missing primary blocks, in ascending order, to the output buffers. */
  method FecDecode(t: Tables, code: Fec, inpkts: seq<array<Gf>>, outpkts: seq<array<Gf>>, index: seq<nat>, sz: nat,
      ghost data: seq<seq<Gf>>)
    requires t.Valid() && code.Valid() && code.k <= 255 && Survivors(index, code.k, code.n)
    requires |inpkts| == code.k == |data| && forall i :: 0 <= i < |inpkts| ==> sz <= inpkts[i].Length
    requires |MissingUpTo(index, code.k, code.k)| <= |outpkts|
    requires OutputBuffers(t, outpkts, inpkts, code.encMatrix, sz)
    requires Received(Rows(inpkts), data, index, sz)
    modifies outpkts
    ensures Rebuilt(Rows(outpkts), MissingUpTo(index, code.k, code.k), data, sz)
  {
    hide Tables.Valid, Inverses, Selected, Received, MissingUpTo, Fec.Valid, Rebuilt, OutputBuffers, Rows, Survivors;
    var mDec := BuildDecodeMatrix(t, code, index);
    FreshApart(t, outpkts, inpkts, code.encMatrix, mDec, sz);
    SurvivorsLength(index, code.k, code.n);
    DecodeRows(t, mDec, inpkts, outpkts, index, sz, code.k, code.n, data);
  }

  /** The decoder's loop over the rows of the inverse. */
  method DecodeRows(t: Tables, mDec: seq<array<Gf>>, inpkts: seq<array<Gf>>, outpkts: seq<array<Gf>>, index: seq<nat>,
      sz: nat, k: nat, ghost n: nat, ghost data: seq<seq<Gf>>)
    requires t.Valid() && Survivors(index, k, n) && |index| == k <= 255
    requires |inpkts| == |mDec| == k == |data| && forall i :: 0 <= i < |inpkts| ==> sz <= inpkts[i].Length
    requires |MissingUpTo(index, k, k)| <= |outpkts|
    requires OutputBuffers(t, outpkts, inpkts, mDec, sz)
    requires Inverses(Selected(k, index), Rows(mDec))
    requires Received(Rows(inpkts), data, index, sz)
    modifies outpkts
    ensures Rebuilt(Rows(outpkts), MissingUpTo(index, k, k), data, sz)
  {
    hide Tables.Valid, Inverses, Selected, Received, MissingUpTo, Rebuilt, OutputBuffers, Rows, Survivors;
    ghost var blocks, inverse := Rows(inpkts), Rows(mDec);
    NothingRebuilt(Rows(outpkts), index, data, sz);
    var outix: Byte := 0;
    var row: Byte := 0;
    while row as int < k
      invariant 0 <= row as int <= k && t.Valid()
      invariant Rows(inpkts) == blocks && Rows(mDec) == inverse
      invariant outix as int == |MissingUpTo(index, k, row as int)|
      invariant Rebuilt(Rows(outpkts), MissingUpTo(index, k, row as int), data, sz)
    {
      PrimaryInPlace(index, k, n, row as int);
      assert index[row] >= k || index[row] == row as int;
      if index[row] >= k {
        MissingGrows(index, k, row as int);
        DecodeNext(t, mDec, inpkts, outpkts, outix as int, sz, inverse, data, index, row as int,
          MissingUpTo(index, k, row as int));
        outix := outix + 1;
      } else {
        MissingSame(index, k, row as int);
      }
      row := row + 1;
    }
  }

  lemma FreshApart(t: Tables, out: seq<array<Gf>>, src: seq<array<Gf>>, enc: seq<array<Gf>>, m: seq<array<Gf>>, sz: nat)
    requires OutputBuffers(t, out, src, enc, sz)
    requires forall i :: 0 <= i < |out| ==> out[i] !in m
    ensures OutputBuffers(t, out, src, m, sz)
  {}

  lemma SurvivorsLength(index: seq<nat>, k: nat, n: nat)
    requires Survivors(index, k, n)
    ensures |index| == k
  {}

  lemma PrimaryInPlace(index: seq<nat>, k: nat, n: nat, row: nat)
    requires Survivors(index, k, n) && row < k
    ensures row < |index| && (index[row] >= k || index[row] == row)
  {}

  lemma NothingRebuilt(out: seq<seq<Gf>>, index: seq<nat>, data: seq<seq<Gf>>, sz: nat)
    ensures MissingUpTo(index, |data|, 0) == [] && Rebuilt(out, [], data, sz)
  {}

  lemma {:induction false} MissingPrefix(index: seq<nat>, k: nat, n: nat, m: nat)
    requires n <= m <= |index|
    ensures MissingUpTo(index, k, n) <= MissingUpTo(index, k, m)
  {
    if n < m {
      MissingPrefix(index, k, n, m - 1);
    }
  }

  lemma MissingGrows(index: seq<nat>, k: nat, row: nat)
    requires row < |index| && index[row] >= k
    ensures MissingUpTo(index, k, row + 1) == MissingUpTo(index, k, row) + [row]
    ensures |MissingUpTo(index, k, row)| < |MissingUpTo(index, k, |index|)|
  {
    MissingPrefix(index, k, row + 1, |index|);
  }

  lemma MissingSame(index: seq<nat>, k: nat, row: nat)
    requires row < |index| && index[row] < k
    ensures MissingUpTo(index, k, row + 1) == MissingUpTo(index, k, row)
  {}

  /** Rebuilds one more missing block in the next output buffer. */
  method DecodeNext(t: Tables, mDec: seq<array<Gf>>, inpkts: seq<array<Gf>>, outpkts: seq<array<Gf>>, outix: nat,
      sz: nat, ghost inverse: Matrix, ghost data: seq<seq<Gf>>, ghost index: seq<nat>, row: nat,
      ghost missing: seq<nat>)
    requires t.Valid() && outix == |missing| < |outpkts|
    requires OutputBuffers(t, outpkts, inpkts, mDec, sz)
    requires |inpkts| == |data| == |index| == |mDec| <= 255 && row < |data|
    requires forall i :: 0 <= i < |inpkts| ==> sz <= inpkts[i].Length
    requires Received(Rows(inpkts), data, index, sz)
    requires Inverses(Selected(|data|, index), inverse) && Rows(mDec) == inverse
    requires Rebuilt(Rows(outpkts), missing, data, sz)
    modifies outpkts
    ensures Rebuilt(Rows(outpkts), missing + [row], data, sz)
    ensures t.Valid() && Rows(inpkts) == old(Rows(inpkts)) && Rows(mDec) == old(Rows(mDec))
  {
    hide Tables.Valid, Selected, Received, Rebuilt;
    ghost var before := Rows(outpkts);
    assert mDec[row][..] == inverse[row];
    assert mDec[row] in mDec;
    DecodeBlock(t, mDec[row], inpkts, outpkts[outix], sz, inverse, data, index, row);
    RebuiltNext(before, Rows(outpkts), missing, data, sz, row);
  }

  method DecodeBlock(t: Tables, mRow: array<Gf>, inpkts: seq<array<Gf>>, dst: array<Gf>, sz: nat,
      ghost inverse: Matrix, ghost data: seq<seq<Gf>>, ghost index: seq<nat>, row: nat)
    requires t.Valid() && t.Apart(dst) && dst !in inpkts && dst != mRow && sz <= dst.Length
    requires |inpkts| == |data| == |index| == mRow.Length <= 255 && row < |data|
    requires forall i :: 0 <= i < |inpkts| ==> sz <= inpkts[i].Length
    requires Received(Rows(inpkts), data, index, sz)
    requires Inverses(Selected(|data|, index), inverse) && mRow[..] == inverse[row]
    modifies dst
    ensures dst[..sz] == data[row]
  {
    hide Tables.Valid, Inverses, Selected;
    ghost var blocks, r := Rows(inpkts), mRow[..];
    EncodeStretch(t, mRow, inpkts, dst, 0, sz);
    forall pos | 0 <= pos < sz
      ensures dst[pos] == data[row][pos]
    {
      DecodedByte(inverse, blocks, data, index, sz, row, pos);
      assert dst[..][pos] == PartialByte(r, blocks, pos, |blocks|);
    }
  }
}
