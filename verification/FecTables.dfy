/**
 The lookup tables of libzfec/fec.cc:28-153, filled in place as the C code fills them, and
 proved to hold powers, logarithms, inverses and products of the field in `GaloisField`.
 */
module FecTables {
  import opened GaloisField

  /** The reduction polynomial as the source spells it: coefficient i at position i. */
  const PP := "101110001"

  /** x mod 255 without a division. */
  method Modnn(n: int) returns (r: int)
    requires n >= 0
    ensures 0 <= r < 255 && r == n % 255
  {
    var x := n;
    while x >= 255
      invariant x >= 0 && x % 255 == n % 255
      decreases x
    {
      x := x - 255;
      FoldByte(x);
      x := x / 256 + x % 256;
    }
    return x;
  }

  /** Adding the high byte to the low byte keeps the residue mod 255 and shrinks the number. */
  lemma FoldByte(x: nat)
    ensures (x / 256 + x % 256) % 255 == x % 255
    ensures x / 256 + x % 256 <= x
  {
    var q, r := x / 256, x % 256;
    assert x == 255 * q + (q + r);
    ModShift(q + r, q);
  }

  lemma {:induction false} ModShift(y: nat, q: nat)
    ensures (255 * q + y) % 255 == y % 255
  {
    if q > 0 {
      ModShift(y, q - 1);
      assert 255 * q + y == 255 * (q - 1) + y + 255;
    }
  }

  ghost predicate ExpTable(exp: array<Gf>, n: nat)
    reads exp
  {
    exp.Length == 510 && n <= 510 && forall i: nat :: i < n ==> exp[i] == Pow(i)
  }

  ghost predicate LogTable(log: array<int>, n: nat)
    reads log
  {
    log.Length == 256 && n <= 255 && forall i: nat :: i < n ==> 0 <= PowIndex(i) < 256 && log[PowIndex(i)] == i
  }

  /** Recording one more logarithm does not disturb the earlier ones. */
  method SetLog(log: array<int>, exp: Gf, i: nat)
    requires i < 255 && LogTable(log, i) && exp == Pow(i)
    modifies log
    ensures LogTable(log, i + 1)
  {
    PowIndexRange(i);
    forall j: nat | j < i
      ensures PowIndex(j) != PowIndex(i)
    {
      PowIndexInjective(j, i);
    }
    log[exp as int] := i;
  }

  lemma PowSmall(i: nat)
    requires i < 8
    ensures Pow(i) == [1, 2, 4, 8, 16, 32, 64, 128][i]
    ensures Pow(8) == 29
  {
    assert Pow(4) == 16;
  }

  lemma ShiftAndReduce(a: Gf)
    ensures Xtime(a) == if a >= 128 then 29 ^ ((a ^ 128) << 1) else a << 1
  {}

  lemma ShiftSmall(i: nat, mask: Gf)
    requires i < 8 && mask == [1, 2, 4, 8, 16, 32, 64, 128, 0][i]
    ensures mask << 1 == [1, 2, 4, 8, 16, 32, 64, 128, 0][i + 1]
  {}

  /** The first eight powers are single bits; `exp[8]` collects the reduction polynomial. */
  method FirstPowers(exp: array<Gf>, log: array<int>)
    requires exp.Length == 510 && log.Length == 256
    modifies exp, log
    ensures ExpTable(exp, 9) && LogTable(log, 9)
  {
    hide Pow, PowIndex;
    var mask: Gf := 1;
    exp[8] := 0;
    var i := 0;
    while i < 8
      invariant 0 <= i <= 8
      invariant mask == [1, 2, 4, 8, 16, 32, 64, 128, 0][i]
      invariant exp[8] == [0, 1, 1, 5, 13, 29, 29, 29, 29][i]
      invariant ExpTable(exp, i) && LogTable(log, i)
    {
      PowSmall(i);
      exp[i] := mask;
      SetLog(log, exp[i], i);
      if PP[i] == '1' {
        exp[8] := exp[8] ^ mask;
      }
      ShiftSmall(i, mask);
      i, mask := i + 1, mask << 1;
    }
    PowSmall(0);
    SetLog(log, exp[8], 8);
  }

  /** The other powers below 255, each the shifted and reduced predecessor. */
  method OtherPowers(exp: array<Gf>, log: array<int>)
    requires ExpTable(exp, 9) && LogTable(log, 9)
    modifies exp, log
    ensures ExpTable(exp, 255) && LogTable(log, 255)
  {
    hide PowIndex, Xtime;
    var mask: Gf := 1 << 7;
    var i := 9;
    PowSmall(0);
    while i < 255
      invariant 9 <= i <= 255 && mask == 128
      invariant ExpTable(exp, i) && LogTable(log, i)
    {
      ShiftAndReduce(exp[i - 1]);
      if exp[i - 1] >= mask {
        exp[i] := exp[8] ^ ((exp[i - 1] ^ mask) << 1);
      } else {
        exp[i] := exp[i - 1] << 1;
      }
      SetLog(log, exp[i], i);
      i := i + 1;
    }
  }

  /** Fills the exp, log and inverse tables. */
  method GenerateGf(exp: array<Gf>, log: array<int>, inverse: array<Gf>)
    requires exp.Length == 510 && log.Length == 256 && inverse.Length == 256
    requires exp != inverse && log as object != inverse
    modifies exp, log, inverse
    ensures ExpTable(exp, 510)
    ensures LogTable(log, 255) && log[0] == 255
    ensures forall a: Gf :: inverse[a as int] == Inv(a)
  {
    hide Pow, PowIndex, Inv, Log;
    FirstPowers(exp, log);
    OtherPowers(exp, log);
    LogZeroFree(255);
    log[0] := 255;
    var i := 0;
    while i < 255
      invariant 0 <= i <= 255
      invariant ExpTable(exp, 255 + i) && LogTable(log, 255) && log[0] == 255
    {
      PowPeriod(i + 255);
      PowPeriod(i);
      exp[i + 255] := exp[i];
      i := i + 1;
    }
    InverseTable(exp, log, inverse);
    forall a: Gf
      ensures inverse[a as int] == Inv(a)
    {
      ByteInjective(a, ByteAt(a as int));
    }
  }

  /** The inverse of alpha^i is alpha^(255 - i). */
  method InverseTable(exp: array<Gf>, log: array<int>, inverse: array<Gf>)
    requires ExpTable(exp, 510) && LogTable(log, 255) && inverse.Length == 256
    requires exp != inverse && log as object != inverse
    modifies inverse
    ensures forall j: nat :: j < 256 ==> inverse[j] == Inv(ByteAt(j))
  {
    hide Pow, PowIndex, Inv, Log;
    inverse[0] := 0;
    inverse[1] := 1;
    var i := 2;
    InvOne();
    ByteInjective(ByteAt(0), 0);
    ByteInjective(ByteAt(1), 1);
    while i <= 255
      invariant 2 <= i <= 256
      invariant forall j: nat :: j < i ==> inverse[j] == Inv(ByteAt(j))
    {
      InverseEntry(log, i);
      inverse[i] := exp[255 - log[i]];
      i := i + 1;
    }
  }

  lemma InverseEntry(log: array<int>, i: nat)
    requires LogTable(log, 255) && 0 < i < 256
    ensures 0 <= log[i] < 255 && Pow(255 - log[i]) == Inv(ByteAt(i))
  {
    LogAt(log, i);
    hide Log, Pow, PowIndex;
  }

  lemma LogZeroFree(n: nat)
    ensures forall i: nat :: i < n ==> PowIndex(i) != 0
  {
    forall i: nat | i < n
      ensures PowIndex(i) != 0
    {
      PowIndexRange(i);
    }
  }

  lemma InvOne()
    ensures Inv(0) == 0 && Inv(1) == 1
  {
    assert Pow(0) == 1;
    LogUnique(0);
    PowTable();
  }

  lemma LogAt(log: array<int>, i: nat)
    requires LogTable(log, 255) && 0 < i < 256
    ensures ByteAt(i) != 0 && log[i] == Log(ByteAt(i))
  {
    hide Log, Pow, ByteAt;
    ByteInjective(ByteAt(i), 0);
    assert ByteAt(i) != 0 by { IndexOfZero(ByteAt(i)); }
    var l := Log(ByteAt(i));
    assert PowIndex(l) == i;
  }

  lemma IndexOfZero(a: Gf)
    ensures a == 0 ==> a as int == 0
  {}

  /** The product of two elements given by their table indices. */
  ghost function IndexMul(a: nat, b: nat): Gf
    requires a < 256 && b < 256
  {
    Mul(ByteAt(a), ByteAt(b))
  }

  ghost predicate MulTableUpTo(mul: array2<Gf>, i: nat, j: nat)
    reads mul
  {
    mul.Length0 == 256 && mul.Length1 == 256 &&
    forall a: nat, b: nat :: 0 < a < 256 && 0 < b < 256 && (a < i || (a == i && b < j)) ==>
      mul[a, b] == IndexMul(a, b)
  }

  ghost predicate MulTable(mul: array2<Gf>)
    reads mul
  {
    mul.Length0 == 256 && mul.Length1 == 256 &&
    forall a: Gf, b: Gf :: mul[a as int, b as int] == Mul(a, b)
  }

  /** Fills the multiplication table. */
  method InitMulTable(exp: array<Gf>, log: array<int>, mul: array2<Gf>)
    requires ExpTable(exp, 510)
    requires LogTable(log, 255) && log[0] == 255
    requires mul.Length0 == 256 && mul.Length1 == 256
    modifies mul
    ensures MulTable(mul)
  {
    hide IndexMul, Mul, Pow, PowIndex;
    LogRange(log);
    var i := 0;
    while i < 256
      invariant 0 <= i <= 256
      invariant MulTableUpTo(mul, i, 0)
    {
      var j := 0;
      while j < 256
        invariant 0 <= j <= 256
        invariant MulTableUpTo(mul, i, j)
      {
        var m := Modnn(log[i] + log[j]);
        if i > 0 && j > 0 {
          ProductEntry(log, i, j);
        }
        mul[i, j] := exp[m];
        j := j + 1;
      }
      i := i + 1;
    }
    var j := 0;
    while j < 256
      invariant 0 <= j <= 256
      invariant MulTableUpTo(mul, 256, 0)
      invariant forall b: nat :: b < j ==> mul[0, b] == 0 && mul[b, 0] == 0
    {
      mul[j, 0] := 0;
      mul[0, j] := mul[j, 0];
      j := j + 1;
    }
    MulTableComplete(mul);
  }

  lemma ByteAtIndex(a: Gf)
    ensures 0 <= a as int < 256 && ByteAt(a as int) == a
    ensures a as int == 0 ==> a == 0
  {
    hide ByteAt;
    ByteInjective(a, ByteAt(a as int));
    ByteInjective(a, 0);
  }

  lemma MulTableComplete(mul: array2<Gf>)
    requires MulTableUpTo(mul, 256, 0)
    requires forall b: nat :: b < 256 ==> mul[0, b] == 0 && mul[b, 0] == 0
    ensures MulTable(mul)
  {
    hide Mul, IndexMul, ByteAt;
    forall a: Gf, b: Gf
      ensures mul[a as int, b as int] == Mul(a, b)
    {
      MulEntry(mul, a, b, a as int, b as int);
    }
  }

  lemma MulEntry(mul: array2<Gf>, a: Gf, b: Gf, i: int, j: int)
    requires MulTableUpTo(mul, 256, 0) && i == a as int && j == b as int
    requires forall b: nat :: b < 256 ==> mul[0, b] == 0 && mul[b, 0] == 0
    ensures 0 <= i < 256 && 0 <= j < 256 && mul[i, j] == Mul(a, b)
  {
    hide Mul, ByteAt;
    ByteAtIndex(a);
    ByteAtIndex(b);
    MulZero(a);
    ZeroMul(b);
    if i > 0 && j > 0 {
      assert mul[i, j] == IndexMul(i, j);
    }
  }

  lemma LogRange(log: array<int>)
    requires LogTable(log, 255) && log[0] == 255
    ensures forall i: nat :: i < 256 ==> 0 <= log[i] <= 255
  {
    forall i: nat | i < 256
      ensures 0 <= log[i] <= 255
    {
      if i > 0 {
        LogAt(log, i);
      }
    }
  }

  lemma ProductEntry(log: array<int>, i: nat, j: nat)
    requires LogTable(log, 255) && 0 < i < 256 && 0 < j < 256
    ensures log[i] >= 0 && log[j] >= 0
    ensures Pow((log[i] + log[j]) % 255) == IndexMul(i, j)
  {
    LogAt(log, i);
    LogAt(log, j);
    MulPow(log[i], log[j]);
    PowPeriod(log[i] + log[j]);
    hide Mul;
  }
}
