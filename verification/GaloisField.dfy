/**
 The field with 256 elements behind libzfec/fec.cc, defined without any table:
 bytes are polynomials over GF(2), addition is exclusive or, and multiplication is
 carry-less multiplication reduced by x^8 + x^4 + x^3 + x^2 + 1 (the polynomial the
 string "101110001" spells, lowest coefficient first).
 */
module GaloisField {
  import opened Counting


  type Gf = bv8

  function Add(a: Gf, b: Gf): Gf { a ^ b }

  function Shl(a: Gf): Gf { a << 1 }

  predicate High(a: Gf) { a & 128 == 128 }

  function Reduce(a: Gf): Gf { if High(a) then 29 else 0 }

  /** Multiplication by the polynomial x, the primitive element called alpha. */
  function Xtime(a: Gf): Gf { Add(Shl(a), Reduce(a)) }

  function Term(a: Gf, b: Gf): Gf { if b & 1 == 1 then a else 0 }

  /** Multiplication, one bit of `b` at a time. */
  function Mul(a: Gf, b: Gf): Gf
    decreases b
  {
    if b == 0 then 0 else Add(Term(a, b), Mul(Xtime(a), b >> 1))
  }

  /** The n-th power of alpha. */
  function Pow(n: nat): Gf {
    if n == 0 then 1 else Xtime(Pow(n - 1))
  }

  // ---------------------------------------------------------------- addition

  lemma AddComm(a: Gf, b: Gf)
    ensures Add(a, b) == Add(b, a)
  {}

  lemma AddAssoc(a: Gf, b: Gf, c: Gf)
    ensures Add(Add(a, b), c) == Add(a, Add(b, c))
  {}

  lemma AddZero(a: Gf)
    ensures Add(a, 0) == a && Add(0, a) == a
  {}

  lemma AddSelf(a: Gf)
    ensures Add(a, a) == 0
  {}

  lemma AddEqual(a: Gf, b: Gf)
    ensures Add(a, b) == 0 <==> a == b
  {}

  lemma AddCancel(a: Gf, b: Gf)
    ensures Add(Add(a, b), b) == a
  {}

  lemma AddMove(a: Gf, b: Gf, c: Gf)
    ensures Add(a, b) == c <==> a == Add(c, b)
  {
    AddCancel(a, b);
    AddCancel(c, b);
    hide Add;
  }

  lemma Add4(a: Gf, b: Gf, c: Gf, d: Gf)
    ensures Add(Add(a, b), Add(c, d)) == Add(Add(a, c), Add(b, d))
  {
    AddAssoc(a, b, Add(c, d));
    AddAssoc(b, c, d);
    AddComm(b, c);
    AddAssoc(c, b, d);
    AddAssoc(a, c, Add(b, d));
    hide Add;
  }

  // ---------------------------------------------------------------- multiplication by alpha

  lemma HighXor(a: Gf, b: Gf)
    ensures High(a ^ b) == (High(a) != High(b))
  {}

  lemma ShlXor(a: Gf, b: Gf)
    ensures (a ^ b) << 1 == (a << 1) ^ (b << 1)
  {}

  lemma ReduceLinear(a: Gf, b: Gf)
    ensures Reduce(Add(a, b)) == Add(Reduce(a), Reduce(b))
  {
    HighXor(a, b);
    hide High;
  }

  lemma ShlLinear(a: Gf, b: Gf)
    ensures Shl(Add(a, b)) == Add(Shl(a), Shl(b))
  {
    ShlXor(a, b);
  }

  lemma XtimeLinear(a: Gf, b: Gf)
    ensures Xtime(Add(a, b)) == Add(Xtime(a), Xtime(b))
  {
    hide Add, Shl, Reduce, High;
    ReduceLinear(a, b);
    ShlLinear(a, b);
    Add4(Shl(a), Reduce(a), Shl(b), Reduce(b));
  }

  lemma XtimeZero(a: Gf)
    ensures Xtime(a) == 0 <==> a == 0
  {}

  lemma XtimeInjective(a: Gf, b: Gf)
    requires Xtime(a) == Xtime(b)
    ensures a == b
  {}

  function Xtime4(a: Gf): Gf { Xtime(Xtime(Xtime(Xtime(a)))) }

  /** alpha^8 = 1 + alpha^2 + alpha^3 + alpha^4. */
  lemma XtimeEight(a: Gf)
    ensures Xtime4(Xtime4(a)) == Add(Add(a, Xtime(Xtime(a))), Add(Xtime(Xtime(Xtime(a))), Xtime4(a)))
  {}

  // ---------------------------------------------------------------- multiplication

  lemma MulStep(a: Gf, b: Gf)
    ensures Mul(a, b) == Add(Term(a, b), Mul(Xtime(a), b >> 1))
  {}

  lemma MulZero(a: Gf)
    ensures Mul(a, 0) == 0
  {}

  lemma MulOne(a: Gf)
    ensures Mul(a, 1) == a
  {}

  lemma {:induction false} ZeroMul(b: Gf)
    ensures Mul(0, b) == 0
    decreases b
  {
    if b != 0 {
      ZeroMul(b >> 1);
    }
  }

  lemma {:induction false} MulAddLeft(a: Gf, c: Gf, b: Gf)
    ensures Mul(Add(a, c), b) == Add(Mul(a, b), Mul(c, b))
    decreases b
  {
    if b != 0 {
      MulAddLeft(Xtime(a), Xtime(c), b >> 1);
      XtimeLinear(a, c);
      MulStep(a, b);
      MulStep(c, b);
      MulStep(Add(a, c), b);
      assert Term(Add(a, c), b) == Add(Term(a, b), Term(c, b));
      hide Add, Mul, Term, Xtime;
      Add4(Term(a, b), Mul(Xtime(a), b >> 1), Term(c, b), Mul(Xtime(c), b >> 1));
    }
  }

  lemma AddShr(b: Gf, c: Gf)
    ensures Add(b, c) >> 1 == Add(b >> 1, c >> 1)
  {}

  lemma AddTerm(a: Gf, b: Gf, c: Gf)
    ensures Term(a, Add(b, c)) == Add(Term(a, b), Term(a, c))
  {}

  lemma {:induction false} MulAddRight(a: Gf, b: Gf, c: Gf)
    ensures Mul(a, Add(b, c)) == Add(Mul(a, b), Mul(a, c))
    decreases b
  {
    if b == 0 {
      AddZero(c);
      MulZero(a);
    } else {
      MulAddRight(Xtime(a), b >> 1, c >> 1);
      MulStep(a, b);
      MulStep(a, c);
      MulStep(a, Add(b, c));
      AddShr(b, c);
      AddTerm(a, b, c);
      hide Add, Mul, Term, Xtime;
      Add4(Term(a, b), Mul(Xtime(a), b >> 1), Term(a, c), Mul(Xtime(a), c >> 1));
    }
  }

  lemma {:induction false} MulXtimeLeft(a: Gf, b: Gf)
    ensures Mul(Xtime(a), b) == Xtime(Mul(a, b))
    decreases b
  {
    if b == 0 {
      XtimeZero(0);
    } else {
      MulXtimeLeft(Xtime(a), b >> 1);
      MulStep(a, b);
      MulStep(Xtime(a), b);
      XtimeZero(0);
      assert Term(Xtime(a), b) == Xtime(Term(a, b)) by { hide Xtime; }
      XtimeLinear(Term(a, b), Mul(Xtime(a), b >> 1));
      hide Add, Mul, Term, Xtime;
    }
  }

  /** Unrolling of `Mul` over the eight bits of `b`. */
  function Mul8(a: Gf, b: Gf): Gf {
    var a1 := Xtime(a);
    var a2 := Xtime(a1);
    var a3 := Xtime(a2);
    var a4 := Xtime(a3);
    var a5 := Xtime(a4);
    var a6 := Xtime(a5);
    var a7 := Xtime(a6);
    Add(Term(a, b), Add(Term(a1, b >> 1), Add(Term(a2, b >> 2), Add(Term(a3, b >> 3),
      Add(Term(a4, b >> 4), Add(Term(a5, b >> 5), Add(Term(a6, b >> 6), Term(a7, b >> 7))))))))
  }

  lemma Shr8(b: Gf)
    ensures (b >> 1) >> 1 == b >> 2 && (b >> 2) >> 1 == b >> 3 && (b >> 3) >> 1 == b >> 4
    ensures (b >> 4) >> 1 == b >> 5 && (b >> 5) >> 1 == b >> 6 && (b >> 6) >> 1 == b >> 7
    ensures (b >> 7) >> 1 == 0
  {}

  lemma MulUnrolled(a: Gf, b: Gf)
    ensures Mul(a, b) == Mul8(a, b)
  {
    var a1 := Xtime(a);
    var a2 := Xtime(a1);
    var a3 := Xtime(a2);
    var a4 := Xtime(a3);
    var a5 := Xtime(a4);
    var a6 := Xtime(a5);
    var a7 := Xtime(a6);
    MulStep(a, b);
    MulStep(a1, b >> 1);
    MulStep(a2, b >> 2);
    MulStep(a3, b >> 3);
    MulStep(a4, b >> 4);
    MulStep(a5, b >> 5);
    MulStep(a6, b >> 6);
    MulStep(a7, b >> 7);
    MulZero(Xtime(a7));
    AddZero(Term(a7, b >> 7));
    Shr8(b);
    hide Add, Mul, Term, Xtime;
  }

  lemma Mul128(a: Gf)
    ensures Mul(a, 128) == Xtime(Xtime(Xtime(Xtime4(a))))
  {
    MulUnrolled(a, 128);
    AddZero(Xtime(Xtime(Xtime(Xtime4(a)))));
    AddZero(0);
    hide Mul, Xtime;
  }

  lemma Mul29(a: Gf)
    ensures Mul(a, 29) == Add(Add(a, Xtime(Xtime(a))), Add(Xtime(Xtime(Xtime(a))), Xtime4(a)))
  {
    MulUnrolled(a, 29);
    var a2, a3, a4 := Xtime(Xtime(a)), Xtime(Xtime(Xtime(a))), Xtime4(a);
    AddZero(Add(a2, Add(a3, a4)));
    AddZero(a4);
    AddZero(0);
    AddAssoc(a, a2, Add(a3, a4));
    hide Mul, Xtime, Add;
  }

  /** The reduction polynomial makes alpha * (a * x^7) the product of `a` and 29. */
  lemma MulReduce(a: Gf, b: Gf)
    ensures Mul(a, Reduce(b)) == Xtime(Mul(a, b & 128))
  {
    Mul128(a);
    Mul29(a);
    XtimeEight(a);
    MulZero(a);
    XtimeZero(0);
    assert b & 128 == if High(b) then 128 else 0;
    hide Mul, Xtime, Add, High;
  }

  lemma SplitHigh(b: Gf)
    ensures b == Add(b & 127, b & 128)
    ensures Shl(b) == Shl(b & 127)
  {}

  lemma MulShl(a: Gf, low: Gf)
    requires low & 128 == 0
    ensures Mul(a, Shl(low)) == Xtime(Mul(a, low))
  {
    MulStep(a, Shl(low));
    assert Term(a, Shl(low)) == 0;
    assert Shl(low) >> 1 == low;
    AddZero(Mul(Xtime(a), low));
    MulXtimeLeft(a, low);
    hide Mul, Xtime, Add, Term, Shl;
  }

  lemma MulXtimeRight(a: Gf, b: Gf)
    ensures Mul(a, Xtime(b)) == Xtime(Mul(a, b))
  {
    var low, high := b & 127, b & 128;
    SplitHigh(b);
    MulShl(a, low);
    MulReduce(a, b);
    MulAddRight(a, Shl(b), Reduce(b));
    MulAddRight(a, low, high);
    XtimeLinear(Mul(a, low), Mul(a, high));
    hide Mul, Add, Reduce, Shl;
  }

  // ---------------------------------------------------------------- powers of alpha

  lemma {:induction false} MulPow(i: nat, j: nat)
    ensures Mul(Pow(i), Pow(j)) == Pow(i + j)
    decreases j
  {
    if j == 0 {
      MulOne(Pow(i));
    } else {
      MulPow(i, j - 1);
      MulXtimeRight(Pow(i), Pow(j - 1));
      hide Mul, Xtime;
    }
  }

  lemma {:induction false} PowNonzero(i: nat)
    ensures Pow(i) != 0
  {
    if i > 0 {
      PowNonzero(i - 1);
      XtimeZero(Pow(i - 1));
    }
  }

  lemma Pow17()
    ensures Pow(15) == 38 && Pow(17) == 152
  {
    assert Pow(4) == 16;
    assert Pow(8) == 29;
    assert Pow(12) == 205;
  }

  /** From alpha^i = a and alpha^j = b, compute alpha^(i + j). */
  lemma PowStep(i: nat, j: nat, a: Gf, b: Gf)
    requires Pow(i) == a && Pow(j) == b
    ensures Pow(i + j) == Mul8(a, b)
  {
    MulPow(i, j);
    MulUnrolled(a, b);
    hide *;
  }

  lemma Square17()
    ensures Mul8(152, 152) == 78
  {}

  lemma Times17()
    ensures Mul8(78, 152) == 10
  {}

  lemma Times34()
    ensures Mul8(10, 78) == 214
  {}

  lemma Square85()
    ensures Mul8(214, 214) == 215
  {}

  lemma Times85()
    ensures Mul8(215, 214) == 1
  {}

  /** The computation behind the order of alpha: 255 = 3 * 5 * 17. */
  lemma PowValues()
    ensures Pow(15) == 38 && Pow(51) == 10 && Pow(85) == 214 && Pow(255) == 1
  {
    hide Pow, Mul8;
    Pow17();
    Square17();
    Times17();
    Times34();
    Square85();
    Times85();
    PowStep(17, 17, 152, 152);
    PowStep(34, 17, 78, 152);
    PowStep(51, 34, 10, 78);
    PowStep(85, 85, 214, 214);
    PowStep(170, 85, 215, 214);
  }

  lemma PowTable()
    ensures Pow(255) == 1
  {
    PowValues();
  }

  lemma PowNotOne()
    ensures Pow(15) != 1 && Pow(51) != 1 && Pow(85) != 1
  {
    PowValues();
  }

  // ---------------------------------------------------------------- the order of alpha

  lemma {:induction false} PowMultiple(d: nat, q: nat)
    requires Pow(d) == 1
    ensures Pow(d * q) == 1
  {
    if q > 0 {
      PowMultiple(d, q - 1);
      MulPow(d * (q - 1), d);
      MulOne(1);
      assert d * (q - 1) + d == d * q;
      hide Pow, Mul;
    }
  }

  lemma {:induction false} PowShift(i: nat, j: nat, d: nat)
    requires Pow(i + d) == Pow(j + d)
    ensures Pow(i) == Pow(j)
  {
    if d > 0 {
      XtimeInjective(Pow(i + d - 1), Pow(j + d - 1));
      PowShift(i, j, d - 1);
    }
  }

  lemma ProperDivisorOf255(d: nat)
    requires 0 < d < 255 && 255 % d == 0
    ensures d in {1, 3, 5, 15, 17, 51, 85}
  {
    var q := 255 / d;
    assert q * d == 255;
    if d > 15 {
      assert q * 16 <= q * d;
      assert q in {2, 3, 4, 5, 6, 7, 8, 9, 10, 11, 12, 13, 14, 15};
    }
  }

  /** 255 is the least positive exponent that gives 1. */
  lemma {:induction false} PowOrder(d: nat)
    requires 0 < d && Pow(d) == 1
    ensures d >= 255
    decreases d
  {
    if d < 255 {
      var q, r := 255 / d, 255 % d;
      assert 255 == d * q + r;
      PowMultiple(d, q);
      MulPow(d * q, r);
      PowTable();
      OneMulPow(r);
      assert Pow(r) == 1 by { hide Mul, Xtime; }
      if r > 0 {
        PowOrder(r);
      } else {
        ProperDivisorOf255(d);
        PowMultiple(d, 15 / d);
        PowMultiple(d, 51 / d);
        PowMultiple(d, 85 / d);
        PowNotOne();
      }
    }
  }

  lemma OneMulPow(r: nat)
    ensures Mul(1, Pow(r)) == Pow(r)
  {
    MulPow(0, r);
    hide Mul, Xtime;
  }

  lemma PowInjective(i: nat, j: nat)
    requires i < j < 255
    ensures Pow(i) != Pow(j)
  {
    if Pow(i) == Pow(j) {
      PowShift(0, j - i, i);
      PowOrder(j - i);
    }
  }

  lemma {:induction false} PowPeriod(i: nat)
    ensures Pow(i) == Pow(i % 255)
    decreases i
  {
    if i >= 255 {
      PowPeriod(i - 255);
      MulPow(i - 255, 255);
      PowTable();
      MulOne(Pow(i - 255));
      hide Pow, Mul;
    }
  }

  // ---------------------------------------------------------------- logarithms and inverses

  /** The n-th power of alpha as a table index. */
  function PowIndex(n: nat): int { Pow(n) as int }

  ghost function PowImage(n: nat): (image: set<int>)
    ensures forall i: nat :: i < n ==> PowIndex(i) in image
    ensures forall x :: x in image ==> exists i: nat :: i < n && PowIndex(i) == x
  {
    if n == 0 then {} else PowImage(n - 1) + {PowIndex(n - 1)}
  }

  lemma PowIndexRange(i: nat)
    ensures 0 < PowIndex(i) < 256
  {
    hide Pow;
    PowNonzero(i);
    ByteInjective(Pow(i), 0);
  }

  lemma {:induction false} PowImageSize(n: nat)
    requires n <= 255
    ensures |PowImage(n)| == n && PowImage(n) <= Interval(1, 256)
  {
    hide PowIndex, Interval;
    if n > 0 {
      PowImageSize(n - 1);
      PowIndexRange(n - 1);
      PowIndexFresh(n - 1);
    }
  }

  lemma PowIndexFresh(n: nat)
    requires n < 255
    ensures PowIndex(n) !in PowImage(n)
  {
    hide PowIndex, PowImage;
    if PowIndex(n) in PowImage(n) {
      var i: nat :| i < n && PowIndex(i) == PowIndex(n);
      PowIndexInjective(i, n);
    }
  }

  lemma ByteInjective(a: Gf, b: Gf)
    ensures a as int == b as int ==> a == b
  {}

  lemma PowIndexInjective(i: nat, j: nat)
    requires i < j < 255
    ensures PowIndex(i) != PowIndex(j)
  {
    ByteInjective(Pow(i), Pow(j));
    PowInjective(i, j);
  }

  /** Every nonzero byte is a power of alpha below 255. */
  lemma PowSurjective(a: Gf) returns (i: nat)
    requires a != 0
    ensures i < 255 && Pow(i) == a
  {
    PowImageSize(255);
    SubsetOfEqualSize(PowImage(255), Interval(1, 256));
    ByteInjective(a, 0);
    assert a as int in PowImage(255);
    i :| i < 255 && PowIndex(i) == a as int;
    ByteInjective(a, Pow(i));
  }

  lemma LogExists(a: Gf)
    ensures a != 0 ==> exists i: nat :: i < 255 && Pow(i) == a
  {
    if a != 0 {
      var i := PowSurjective(a);
    }
  }

  /** The table index of a byte. */
  function Index(a: Gf): int { a as int }

  lemma ByteExists(i: nat)
    requires i < 256
    ensures exists a: Gf :: Index(a) == i
  {
    if i == 0 {
      assert Index(0) == 0;
    } else {
      PowImageSize(255);
      SubsetOfEqualSize(PowImage(255), Interval(1, 256));
      assert i in PowImage(255);
      var l: nat :| l < 255 && PowIndex(l) == i;
      assert Index(Pow(l)) == i;
    }
  }

  /** The byte with a table index. */
  ghost function ByteAt(i: nat): (a: Gf)
    requires i < 256
    ensures a as int == i
  {
    ByteExists(i);
    var a: Gf :| Index(a) == i;
    a
  }

  /** The logarithm to base alpha of a nonzero element. */
  ghost function Log(a: Gf): (i: nat)
    requires a != 0
    ensures i < 255 && Pow(i) == a
  {
    LogExists(a);
    var i: nat :| i < 255 && Pow(i) == a;
    i
  }

  ghost function Inv(a: Gf): Gf {
    if a == 0 then 0 else Pow(255 - Log(a))
  }

  lemma LogUnique(i: nat)
    requires i < 255
    ensures Pow(i) != 0 && Log(Pow(i)) == i
  {
    PowNonzero(i);
    var j := Log(Pow(i));
    if i < j { PowInjective(i, j); }
    if j < i { PowInjective(j, i); }
  }

  // ---------------------------------------------------------------- the field laws

  lemma MulComm(a: Gf, b: Gf)
    ensures Mul(a, b) == Mul(b, a)
  {
    MulZero(a);
    MulZero(b);
    ZeroMul(a);
    ZeroMul(b);
    if a != 0 && b != 0 {
      MulPow(Log(a), Log(b));
      MulPow(Log(b), Log(a));
      hide Mul, Pow, Log;
    }
  }

  lemma MulAssocPow(i: nat, j: nat, k: nat)
    ensures Mul(Mul(Pow(i), Pow(j)), Pow(k)) == Mul(Pow(i), Mul(Pow(j), Pow(k)))
  {
    hide *;
    MulPow(i, j);
    MulPow(j, k);
    MulPow(i + j, k);
    MulPow(i, j + k);
    assert i + j + k == i + (j + k);
  }

  lemma MulAssoc(a: Gf, b: Gf, c: Gf)
    ensures Mul(Mul(a, b), c) == Mul(a, Mul(b, c))
  {
    MulZero(a);
    MulZero(b);
    MulZero(Mul(a, b));
    ZeroMul(b);
    ZeroMul(c);
    ZeroMul(Mul(b, c));
    hide Mul, Pow, Log;
    if a != 0 && b != 0 && c != 0 {
      MulAssocPow(Log(a), Log(b), Log(c));
    }
  }

  lemma OneMul(a: Gf)
    ensures Mul(1, a) == a
  {
    MulComm(1, a);
    MulOne(a);
  }

  lemma MulInv(a: Gf)
    requires a != 0
    ensures Mul(a, Inv(a)) == 1 && Mul(Inv(a), a) == 1 && Inv(a) != 0
  {
    MulPow(Log(a), 255 - Log(a));
    PowTable();
    MulComm(a, Inv(a));
    PowNonzero(255 - Log(a));
    hide Mul, Pow, Log;
  }

  lemma NoZeroDivisors(a: Gf, b: Gf)
    ensures Mul(a, b) == 0 <==> a == 0 || b == 0
  {
    MulZero(a);
    ZeroMul(b);
    if a != 0 && b != 0 {
      MulPow(Log(a), Log(b));
      PowNonzero(Log(a) + Log(b));
      hide Mul, Pow, Log;
    }
  }
}
