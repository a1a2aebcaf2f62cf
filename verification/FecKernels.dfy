/**
 The initialised tables of libzfec/fec.cc and the two loops everything else is built from:
 the unrolled multiply-and-add over byte buffers, and the matrix product.
 */
module FecKernels {
  import opened GaloisField
  import opened LinearAlgebra
  import opened FecTables

  /** The static tables after `init_fec`. */
  class Tables {
    const gfExp: array<Gf>
    const gfLog: array<int>
    const inverse: array<Gf>
    const gfMulTable: array2<Gf>

    ghost predicate Valid()
      reads gfExp, inverse, gfMulTable
    {
      ExpTable(gfExp, 510) && MulTable(gfMulTable) &&
      inverse.Length == 256 && forall a: Gf :: inverse[a as int] == Inv(a)
    }

    /** A buffer that is none of the tables. */
    ghost predicate Apart(buffer: object) {
      buffer != gfExp && buffer != inverse && buffer != gfMulTable
    }

    constructor ()
      ensures Valid()
      ensures fresh(gfExp) && fresh(inverse) && fresh(gfMulTable)
    {
      var exp, log, inv := new Gf[510], new int[256], new Gf[256];
      var mul := new Gf[256, 256];
      gfExp, gfLog, inverse, gfMulTable := exp, log, inv, mul;
      new;
      GenerateGf(exp, log, inv);
      InitMulTable(exp, log, mul);
    }

    method GfMul(x: Gf, y: Gf) returns (r: Gf)
      requires Valid()
      ensures r == Mul(x, y)
    {
      r := gfMulTable[x as int, y as int];
    }

    /** The table form of one multiply-and-add. */
    function AddMulC(d: Gf, c: Gf, s: Gf): (r: Gf)
      requires Valid()
      reads gfExp, inverse, gfMulTable
      ensures r == Add(d, Mul(c, s))
    {
      d ^ gfMulTable[c as int, s as int]
    }
  }

  const UNROLL := 16

  /** `before` with c times the source added to the `n` bytes from `doff` on. */
  ghost function Added(before: seq<Gf>, doff: nat, src: seq<Gf>, soff: nat, c: Gf, n: nat): (r: seq<Gf>)
    requires doff + n <= |before| && soff + n <= |src|
    ensures |r| == |before|
    ensures forall i :: 0 <= i < |before| ==>
      r[i] == if doff <= i < doff + n then Add(before[i], Mul(c, src[i - doff + soff])) else before[i]
  {
    seq(|before|, i requires 0 <= i < |before| =>
      if doff <= i < doff + n then Add(before[i], Mul(c, src[i - doff + soff])) else before[i])
  }

  lemma AddedNothing(before: seq<Gf>, doff: nat, src: seq<Gf>, soff: nat, c: Gf)
    requires doff <= |before| && soff <= |src|
    ensures Added(before, doff, src, soff, c, 0) == before
  {}

  lemma AddedStep(before: seq<Gf>, doff: nat, src: seq<Gf>, soff: nat, c: Gf, n: nat, dst: seq<Gf>, v: Gf)
    requires doff + n < |before| && soff + n < |src|
    requires dst == Added(before, doff, src, soff, c, n)
    requires v == Add(dst[doff + n], Mul(c, src[soff + n]))
    ensures dst[doff + n := v] == Added(before, doff, src, soff, c, n + 1)
  {
    hide Add, Mul;
  }

  /** One table step of `_addmul1`: GF_ADDMULC (dst[n], src[n]). */
  method AddMulAt(t: Tables, dst: array<Gf>, doff: nat, src: array<Gf>, soff: nat, c: Gf, n: nat, ghost before: seq<Gf>)
    requires t.Valid() && t.Apart(dst) && dst != src
    requires doff + n < dst.Length == |before| && soff + n < src.Length
    requires dst[..] == Added(before, doff, src[..], soff, c, n)
    modifies dst
    ensures dst[..] == Added(before, doff, src[..], soff, c, n + 1)
  {
    hide Add, Mul, Added;
    var v := t.AddMulC(dst[doff + n], c, src[soff + n]);
    AddedStep(before, doff, src[..], soff, c, n, dst[..], v);
    dst[doff + n] := v;
    assert dst[..] == old(dst[..])[doff + n := v];
  }

  /** Four consecutive steps; the source groups its unrolling the same way. */
  method AddMulFour(t: Tables, dst: array<Gf>, doff: nat, src: array<Gf>, soff: nat, c: Gf, n: nat,
      ghost before: seq<Gf>)
    requires t.Valid() && t.Apart(dst) && dst != src
    requires doff + n + 3 < dst.Length == |before| && soff + n + 3 < src.Length
    requires dst[..] == Added(before, doff, src[..], soff, c, n)
    modifies dst
    ensures dst[..] == Added(before, doff, src[..], soff, c, n + 4)
  {
    hide Added, Tables.Valid, ExpTable, MulTable;
    AddMulAt(t, dst, doff, src, soff, c, n, before);
    AddMulAt(t, dst, doff, src, soff, c, n + 1, before);
    AddMulAt(t, dst, doff, src, soff, c, n + 2, before);
    AddMulAt(t, dst, doff, src, soff, c, n + 3, before);
  }

  /** dst[] = dst[] + c * src[], unrolled 16 times. */
  method AddMul1(t: Tables, dst: array<Gf>, doff: nat, src: array<Gf>, soff: nat, c: Gf, sz: nat)
    requires t.Valid() && t.Apart(dst) && dst != src
    requires doff + sz <= dst.Length && soff + sz <= src.Length
    modifies dst
    ensures dst[..] == Added(old(dst[..]), doff, src[..], soff, c, sz)
  {
    hide Added, Tables.Valid, ExpTable, MulTable;
    ghost var before := dst[..];
    var n := 0;
    var lim := sz - UNROLL + 1;
    AddedNothing(before, doff, src[..], soff, c);
    while n < lim
      invariant 0 <= n <= sz
      invariant dst[..] == Added(before, doff, src[..], soff, c, n)
    {
      AddMulFour(t, dst, doff, src, soff, c, n, before);
      AddMulFour(t, dst, doff, src, soff, c, n + 4, before);
      AddMulFour(t, dst, doff, src, soff, c, n + 8, before);
      AddMulFour(t, dst, doff, src, soff, c, n + 12, before);
      n := n + UNROLL;
    }
    lim := lim + UNROLL - 1;
    while n < lim
      invariant 0 <= n <= sz && lim == sz
      invariant dst[..] == Added(before, doff, src[..], soff, c, n)
    {
      AddMulAt(t, dst, doff, src, soff, c, n, before);
      n := n + 1;
    }
  }

  /** The addmul macro: a zero factor is skipped. */
  method AddMul(t: Tables, dst: array<Gf>, doff: nat, src: array<Gf>, soff: nat, c: Gf, sz: nat)
    requires t.Valid() && t.Apart(dst) && dst != src
    requires doff + sz <= dst.Length && soff + sz <= src.Length
    modifies dst
    ensures dst[..] == Added(old(dst[..]), doff, src[..], soff, c, sz)
  {
    if c != 0 {
      AddMul1(t, dst, doff, src, soff, c, sz);
    } else {
      AddingZero(dst[..], doff, src[..], soff, sz);
    }
  }

  lemma AddingZero(before: seq<Gf>, doff: nat, src: seq<Gf>, soff: nat, n: nat)
    requires doff + n <= |before| && soff + n <= |src|
    ensures Added(before, doff, src, soff, 0, n) == before
  {
    hide Add, Mul, Added;
    forall i | 0 <= i < |before|
      ensures Added(before, doff, src, soff, 0, n)[i] == before[i]
    {
      AddZero(before[i]);
      if doff <= i < doff + n {
        ZeroMul(src[i - doff + soff]);
      }
    }
  }
}
