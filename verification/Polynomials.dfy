/**
 Polynomials as coefficient sequences, lowest degree first, and the facts about their roots
 that make Vandermonde matrices invertible.
 */
module Polynomials {
  import opened GaloisField
  import opened LinearAlgebra

  function Eval(c: Vec, x: Gf): Gf {
    if |c| == 0 then 0 else Add(c[0], Mul(x, Eval(c[1..], x)))
  }

  /** Powers in the field; the 0-th power of 0 is 1. */
  function Power(x: Gf, n: nat): Gf {
    if n == 0 then 1 else Mul(x, Power(x, n - 1))
  }

  /** The row of a Vandermonde matrix that belongs to the point `x`. */
  function Powers(x: Gf, n: nat): (r: Vec)
    ensures |r| == n && forall j :: 0 <= j < n ==> r[j] == Power(x, j)
  {
    seq(n, j requires 0 <= j < n => Power(x, j))
  }

  ghost predicate Distinct(points: Vec) {
    forall i, j :: 0 <= i < j < |points| ==> points[i] != points[j]
  }

  // ---------------------------------------------------------------- evaluation

  lemma {:induction false} EvalSnoc(c: Vec, v: Gf, x: Gf)
    ensures Eval(c + [v], x) == Add(Eval(c, x), Mul(Power(x, |c|), v))
  {
    hide Add, Mul;
    if |c| == 0 {
      MulZero(x);
      AddZero(v);
      AddZero(0);
      OneMul(v);
      assert (c + [v])[1..] == [];
    } else {
      var d := c[1..];
      assert (c + [v])[1..] == d + [v];
      EvalSnoc(d, v, x);
      MulAddRight(x, Eval(d, x), Mul(Power(x, |d|), v));
      MulAssoc(x, Power(x, |d|), v);
      AddAssoc(c[0], Mul(x, Eval(d, x)), Mul(Power(x, |c|), v));
    }
  }

  lemma {:induction false} DotPowersN(x: Gf, c: Vec, n: nat, m: nat)
    requires m <= n == |c|
    ensures DotN(Powers(x, n), c, m) == Eval(c[..m], x)
  {
    hide Add, Mul;
    if m > 0 {
      DotPowersN(x, c, n, m - 1);
      EvalSnoc(c[..m - 1], c[m - 1], x);
      assert c[..m] == c[..m - 1] + [c[m - 1]];
    }
  }

  /** A Vandermonde row times a vector evaluates the vector as a polynomial. */
  lemma DotPowers(x: Gf, c: Vec)
    ensures Dot(Powers(x, |c|), c) == Eval(c, x)
  {
    DotPowersN(x, c, |c|, |c|);
    assert c[..|c|] == c;
  }

  lemma {:induction false} EvalZeros(c: Vec, x: Gf)
    requires forall i :: 0 <= i < |c| ==> c[i] == 0
    ensures Eval(c, x) == 0
  {
    hide Add, Mul;
    if |c| > 0 {
      EvalZeros(c[1..], x);
      MulZero(x);
      AddZero(0);
    }
  }

  lemma {:induction false} EvalScale(v: Gf, c: Vec, r: Vec, x: Gf)
    requires |c| == |r| && forall j :: 0 <= j < |c| ==> r[j] == Mul(v, c[j])
    ensures Eval(r, x) == Mul(v, Eval(c, x))
  {
    hide Add, Mul, Eval, DotN;
    DotPowers(x, c);
    DotPowers(x, r);
    DotScale(v, c, r, Powers(x, |c|));
    DotComm(c, Powers(x, |c|), |c|);
    DotComm(r, Powers(x, |c|), |c|);
  }

  // ---------------------------------------------------------------- synthetic division

  /** Quotient of `c` by (x - r): each coefficient is a suffix of `c` evaluated at `r`. */
  function Quotient(c: Vec, r: Gf): (q: Vec)
    ensures |q| == if |c| == 0 then 0 else |c| - 1
    ensures forall i :: 0 <= i < |q| ==> q[i] == Eval(c[i + 1..], r)
  {
    if |c| <= 1 then [] else
      [Eval(c[1..], r)] + Quotient(c[1..], r)
  }

  /** c(x) = (x - r) q(x) + c(r); subtraction is addition here. */
  lemma {:induction false} Division(c: Vec, r: Gf, x: Gf)
    ensures Eval(c, x) == Add(Mul(Add(x, r), Eval(Quotient(c, r), x)), Eval(c, r))
  {
    hide Add, Mul;
    if |c| == 0 {
      MulZero(Add(x, r));
      AddZero(0);
    } else if |c| == 1 {
      MulZero(x);
      MulZero(r);
      MulZero(Add(x, r));
      AddZero(Eval(c, r));
    } else {
      var d := c[1..];
      Division(d, r, x);
      var q := Quotient(d, r);
      assert Quotient(c, r)[1..] == q;
      var s, e, g := Add(x, r), Eval(d, r), Eval(q, x);
      // x (s g + e) + c0 against s (e + x g) + (c0 + r e)
      MulAddRight(x, Mul(s, g), e);
      MulAddRight(s, e, Mul(x, g));
      MulAddLeft(x, r, e);
      MulAssoc(x, s, g);
      MulAssoc(s, x, g);
      MulComm(x, s);
      Rearrange(c[0], Mul(s, Mul(x, g)), Mul(x, e), Mul(r, e));
    }
  }

  lemma Rearrange(c: Gf, m: Gf, p: Gf, q: Gf)
    ensures Add(c, Add(m, p)) == Add(Add(Add(p, q), m), Add(c, q))
  {
    AddCancel(Add(c, Add(m, p)), q);
    hide Add;
    AddComm(p, q);
    AddAssoc(q, p, m);
    AddComm(p, m);
    AddComm(q, Add(m, p));
    AddComm(Add(Add(m, p), q), Add(c, q));
    Add4(c, q, Add(m, p), q);
    AddSelf(q);
    AddZero(Add(c, Add(m, p)));
  }

  /** A polynomial with as many distinct roots as coefficients is zero. */
  lemma {:induction false} RootsForceZero(c: Vec, roots: Vec)
    requires |c| <= |roots| && Distinct(roots)
    requires forall i :: 0 <= i < |roots| ==> Eval(c, roots[i]) == 0
    ensures forall i :: 0 <= i < |c| ==> c[i] == 0
    decreases |c|
  {
    hide Add, Mul;
    if |c| > 0 {
      var r, others, q := roots[0], roots[1..], Quotient(c, roots[0]);
      forall i | 0 <= i < |others|
        ensures Eval(q, others[i]) == 0
      {
        var x := others[i];
        assert x == roots[i + 1];
        Division(c, r, x);
        AddZero(Mul(Add(x, r), Eval(q, x)));
        NoZeroDivisors(Add(x, r), Eval(q, x));
        AddEqual(x, r);
      }
      RootsForceZero(q, others);
      forall i | 0 <= i < |c|
        ensures c[i] == 0
      {
        SuffixesZero(c, r, i);
      }
    }
  }

  lemma SuffixesZero(c: Vec, r: Gf, i: nat)
    requires i < |c| && Eval(c, r) == 0
    requires forall j :: 0 <= j < |c| - 1 ==> Quotient(c, r)[j] == 0
    ensures c[i] == 0
  {
    hide Add, Mul;
    var suffix := c[i..];
    assert Eval(suffix, r) == 0 by {
      if i == 0 {
        assert suffix == c;
      } else {
        assert Quotient(c, r)[i - 1] == Eval(c[i..], r);
      }
    }
    assert suffix[1..] == c[i + 1..];
    assert Eval(c[i + 1..], r) == 0 by {
      if i + 1 < |c| {
        assert Quotient(c, r)[i] == Eval(c[i + 1..], r);
      }
    }
    MulZero(r);
    AddZero(c[i]);
  }

  // ---------------------------------------------------------------- products of linear factors

  /** The coefficient of x^j in (x + r) c(x). */
  function LinearTerm(c: Vec, r: Gf, j: nat): Gf
    requires j <= |c|
  {
    Add(if j == 0 then 0 else c[j - 1], if j == |c| then 0 else Mul(r, c[j]))
  }

  /** (x + r) c(x) */
  function MulLinear(c: Vec, r: Gf): (p: Vec)
    ensures |p| == |c| + 1 && forall j :: 0 <= j <= |c| ==> p[j] == LinearTerm(c, r, j)
  {
    seq(|c| + 1, j requires 0 <= j <= |c| => LinearTerm(c, r, j))
  }

  /** The monic polynomial whose roots are the first `n` points. */
  function Monic(points: Vec, n: nat): (p: Vec)
    requires n <= |points|
    ensures |p| == n + 1
  {
    if n == 0 then [1] else MulLinear(Monic(points, n - 1), points[n - 1])
  }

  lemma {:induction false} MulLinearEval(c: Vec, r: Gf, x: Gf)
    ensures Eval(MulLinear(c, r), x) == Mul(Add(x, r), Eval(c, x))
  {
    hide Add, Mul;
    var p := MulLinear(c, r);
    var shifted, scaled := [0] + c, seq(|c|, j requires 0 <= j < |c| => Mul(r, c[j]));
    assert shifted[1..] == c;
    AddZero(Mul(x, Eval(c, x)));
    assert Eval(shifted, x) == Mul(x, Eval(c, x));
    EvalScale(r, c, scaled, x);
    EvalSnoc(scaled, 0, x);
    MulZero(Power(x, |c|));
    AddZero(Eval(scaled, x));
    MulAddLeft(x, r, Eval(c, x));
    EvalAdd(shifted, scaled + [0], p, x);
  }

  lemma EvalAdd(a: Vec, b: Vec, r: Vec, x: Gf)
    requires |a| == |b| == |r| && forall j :: 0 <= j < |a| ==> r[j] == Add(a[j], b[j])
    ensures Eval(r, x) == Add(Eval(a, x), Eval(b, x))
  {
    hide Add, Mul, Eval, DotN;
    var row, n := Powers(x, |a|), |a|;
    DotPowers(x, a);
    DotPowers(x, b);
    DotPowers(x, r);
    DotComm(a, row, n);
    DotComm(b, row, n);
    DotComm(r, row, n);
    forall j | 0 <= j < n
      ensures r[j] == Add(a[j], Mul(1, b[j]))
    {
      OneMul(b[j]);
    }
    DotAddMul(a, 1, b, r, row, n);
    OneMul(Dot(b, row));
  }

  lemma {:induction false} MonicLeading(points: Vec, n: nat)
    requires n <= |points|
    ensures Monic(points, n)[n] == 1
  {
    hide Add, Mul;
    if n > 0 {
      MonicLeading(points, n - 1);
      AddZero(1);
    }
  }

  /** With a zero among the points, the constant term vanishes. */
  lemma {:induction false} MonicConstant(points: Vec, n: nat)
    requires 0 < n <= |points| && points[0] == 0
    ensures Monic(points, n)[0] == 0
  {
    hide Add, Mul;
    AddZero(0);
    if n == 1 {
      ZeroMul(1);
      assert Monic(points, 0) == [1];
    } else {
      MonicConstant(points, n - 1);
      MulZero(points[n - 1]);
    }
  }

  lemma {:induction false} MonicRoots(points: Vec, n: nat, i: nat)
    requires i < n <= |points|
    ensures Eval(Monic(points, n), points[i]) == 0
  {
    hide Add, Mul, Eval, MulLinear;
    var c, r, x := Monic(points, n - 1), points[n - 1], points[i];
    MulLinearEval(c, r, x);
    if i == n - 1 {
      AddSelf(x);
      ZeroMul(Eval(c, x));
    } else {
      MonicRoots(points, n - 1, i);
      MulZero(Add(x, r));
    }
  }

  // ---------------------------------------------------------------- Lagrange basis

  /** Coefficients of the product of (x - p_j) over all j but `row`, by division. */
  function Cofactor(points: Vec, row: nat): (b: Vec)
    requires row < |points|
    ensures |b| == |points|
  {
    Quotient(Monic(points, |points|), points[row])
  }

  lemma CofactorElsewhere(points: Vec, row: nat, i: nat)
    requires row < |points| && i < |points| && i != row && Distinct(points)
    ensures Eval(Cofactor(points, row), points[i]) == 0
  {
    hide Add, Mul;
    var p, r, x := Monic(points, |points|), points[row], points[i];
    Division(p, r, x);
    MonicRoots(points, |points|, i);
    MonicRoots(points, |points|, row);
    AddZero(Mul(Add(x, r), Eval(Cofactor(points, row), x)));
    NoZeroDivisors(Add(x, r), Eval(Cofactor(points, row), x));
    AddEqual(x, r);
    assert x != r;
  }

  lemma CofactorNonzero(points: Vec, row: nat)
    requires row < |points| && Distinct(points)
    ensures Eval(Cofactor(points, row), points[row]) != 0
  {
    var k, b := |points|, Cofactor(points, row);
    if Eval(b, points[row]) == 0 {
      forall i | 0 <= i < k
        ensures Eval(b, points[i]) == 0
      {
        if i != row {
          CofactorElsewhere(points, row, i);
        }
      }
      RootsForceZero(b, points);
      CofactorLeading(points, row);
    }
  }

  lemma CofactorLeading(points: Vec, row: nat)
    requires row < |points|
    ensures Cofactor(points, row)[|points| - 1] == 1
  {
    hide Add, Mul, Monic;
    var k := |points|;
    var p := Monic(points, k);
    MonicLeading(points, k);
    var suffix := p[k..];
    assert suffix == [1];
    assert suffix[1..] == [];
    MulZero(points[row]);
    AddZero(1);
    assert Eval(suffix, points[row]) == 1;
  }
}
