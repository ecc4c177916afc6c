/** Polynomials over GF(2^8): a polynomial with as many roots as coefficients vanishes everywhere, so Lagrange
    interpolation through any n points of a polynomial with n coefficients is that polynomial. */
module Interpolation {
  import opened GF256
  import opened Pigeonhole

  /** Coefficients, constant term first. */
  type Poly = seq<bv8>

  ghost function Eval(p: Poly, x: bv8): bv8 {
    if p == [] then 0 else Add(p[0], Mul(x, Eval(p[1..], x)))
  }

  ghost function PolyAdd(p: Poly, q: Poly): (r: Poly)
    requires |p| == |q|
    ensures |r| == |p|
  {
    if p == [] then [] else [Add(p[0], q[0])] + PolyAdd(p[1..], q[1..])
  }

  ghost function Scale(c: bv8, p: Poly): (r: Poly)
    ensures |r| == |p|
  {
    if p == [] then [] else [Mul(c, p[0])] + Scale(c, p[1..])
  }

  /** p times (x + r). */
  ghost function TimesLinear(p: Poly, r: bv8): (q: Poly)
    ensures |q| == |p| + 1
  {
    PolyAdd([0] + p, Scale(r, p) + [0])
  }

  /** p divided by (x + r). */
  ghost function Quotient(p: Poly, r: bv8): (q: Poly)
    requires p != []
    ensures |q| == |p| - 1
  {
    if |p| == 1 then [] else [Eval(p[1..], r)] + Quotient(p[1..], r)
  }

  /** (a + b) + (c + d) = (a + c) + (b + d). */
  lemma {:induction false} AddSwap(a: bv8, b: bv8, c: bv8, d: bv8)
    ensures Add(Add(a, b), Add(c, d)) == Add(Add(a, c), Add(b, d))
  {
    hide Add;
    AddAssoc(a, b, Add(c, d));
    AddAssoc(b, c, d);
    AddComm(b, c);
    AddAssoc(c, b, d);
    AddAssoc(a, c, Add(b, d));
  }

  lemma {:induction false} EvalAdd(p: Poly, q: Poly, x: bv8)
    requires |p| == |q|
    ensures Eval(PolyAdd(p, q), x) == Add(Eval(p, x), Eval(q, x))
  {
    hide Add, Mul;
    if p == [] {
      AddZero(0);
    } else {
      EvalAdd(p[1..], q[1..], x);
      MulSum(x, Eval(p[1..], x), Eval(q[1..], x));
      AddSwap(p[0], q[0], Mul(x, Eval(p[1..], x)), Mul(x, Eval(q[1..], x)));
    }
  }

  lemma {:induction false} EvalScale(c: bv8, p: Poly, x: bv8)
    ensures Eval(Scale(c, p), x) == Mul(c, Eval(p, x))
  {
    hide Add, Mul;
    if p == [] {
      MulZero(c);
    } else {
      var e := Eval(p[1..], x);
      EvalScale(c, p[1..], x);
      MulAssoc(x, c, e);
      MulComm(x, c);
      MulAssoc(c, x, e);
      MulSum(c, p[0], Mul(x, e));
    }
  }

  lemma {:induction false} EvalAppendZero(p: Poly, x: bv8)
    ensures Eval(p + [0], x) == Eval(p, x)
  {
    hide Add, Mul;
    if p == [] {
      assert (p + [0])[1..] == [];
      MulZero(x);
      AddZero(0);
    } else {
      assert (p + [0])[1..] == p[1..] + [0];
      EvalAppendZero(p[1..], x);
    }
  }

  lemma {:induction false} EvalTimesLinear(p: Poly, r: bv8, x: bv8)
    ensures Eval(TimesLinear(p, r), x) == Mul(Eval(p, x), Add(x, r))
  {
    hide Add, Mul, PolyAdd, Scale;
    EvalAdd([0] + p, Scale(r, p) + [0], x);
    assert ([0] + p)[1..] == p;
    AddZero(Mul(x, Eval(p, x)));
    EvalAppendZero(Scale(r, p), x);
    EvalScale(r, p, x);
    MulSum(Eval(p, x), x, r);
    MulComm(Eval(p, x), x);
    MulComm(Eval(p, x), r);
  }

  /** Division with remainder by (x + r): the remainder is the value at r. */
  lemma {:induction false} EvalQuotient(p: Poly, r: bv8, x: bv8)
    requires p != []
    ensures Eval(p, x) == Add(Eval(p, r), Mul(Add(x, r), Eval(Quotient(p, r), x)))
  {
    hide Add, Mul;
    if |p| == 1 {
      assert p[1..] == [];
      MulZero(x);
      MulZero(r);
      MulZero(Add(x, r));
      AddZero(Eval(p, r));
    } else {
      EvalQuotient(p[1..], r, x);
      var e, q := Eval(p[1..], r), Eval(Quotient(p[1..], r), x);
      assert Quotient(p, r)[1..] == Quotient(p[1..], r);
      DivisionStep(p[0], e, q, x, r);
    }
  }

  /** c + x (e + (x + r) q) = (c + r e) + (x + r) (e + x q). */
  lemma {:induction false} DivisionStep(c: bv8, e: bv8, q: bv8, x: bv8, r: bv8)
    ensures Add(c, Mul(x, Add(e, Mul(Add(x, r), q)))) == Add(Add(c, Mul(r, e)), Mul(Add(x, r), Add(e, Mul(x, q))))
  {
    hide Add, Mul;
    var s := Add(x, r);
    MulSum(x, e, Mul(s, q));
    MulSum(s, e, Mul(x, q));
    MulAssoc(x, s, q);
    MulComm(x, s);
    MulAssoc(s, x, q);
    MulSum(e, x, r);
    AddRearrange(c, Mul(r, e), Mul(x, e), Mul(s, Mul(x, q)));
  }

  /** c + (b + d) = (c + a) + ((b + a) + d). */
  lemma {:induction false} AddRearrange(c: bv8, a: bv8, b: bv8, d: bv8)
    ensures Add(c, Add(b, d)) == Add(Add(c, a), Add(Add(b, a), d))
  {
  }

  /** A polynomial with at least as many distinct roots as coefficients is zero everywhere. */
  lemma {:induction false} TooManyRoots(p: Poly, roots: seq<bv8>, x: bv8)
    requires Distinct(roots) && |roots| >= |p|
    requires forall i | 0 <= i < |roots| :: Eval(p, roots[i]) == 0
    ensures Eval(p, x) == 0
    decreases |p|
  {
    hide Add, Mul, Quotient;
    if p != [] {
      var r, rest := roots[0], roots[1..];
      var q := Quotient(p, r);
      forall i | 0 <= i < |rest| ensures Eval(q, rest[i]) == 0 {
        EvalQuotient(p, r, rest[i]);
        AddZero(Mul(Add(rest[i], r), Eval(q, rest[i])));
        AddCancel(rest[i], r);
        NoZeroDivisors(Add(rest[i], r), Eval(q, rest[i]));
      }
      TooManyRoots(q, rest, x);
      EvalQuotient(p, r, x);
      MulZero(Add(x, r));
      AddZero(0);
    }
  }

  // ------------------------------------------------------------------ Lagrange interpolation

  /** The product of x - xs[m] over the first n points other than the i-th. */
  function Product(xs: seq<bv8>, i: nat, x: bv8, n: nat): bv8
    requires n <= |xs|
  {
    if n == 0 then 1
    else if n - 1 == i then Product(xs, i, x, n - 1)
    else Mul(Product(xs, i, x, n - 1), Add(x, xs[n - 1]))
  }

  lemma {:induction false} ProductNonzero(xs: seq<bv8>, i: nat, n: nat)
    requires Distinct(xs) && i < |xs| && n <= |xs|
    ensures Product(xs, i, xs[i], n) != 0
  {
    hide Mul, Add;
    if n > 0 {
      ProductNonzero(xs, i, n - 1);
      AddCancel(xs[i], xs[n - 1]);
      if n - 1 != i {
        NoZeroDivisors(Product(xs, i, xs[i], n - 1), Add(xs[i], xs[n - 1]));
      }
    }
  }

  lemma {:induction false} ProductAtOther(xs: seq<bv8>, i: nat, j: nat, n: nat)
    requires i < |xs| && j < n <= |xs| && i != j
    ensures Product(xs, i, xs[j], n) == 0
  {
    hide Mul, Add;
    if n - 1 == j {
      AddZero(xs[j]);
      MulZero(Product(xs, i, xs[j], n - 1));
    } else {
      ProductAtOther(xs, i, j, n - 1);
      MulZero(Add(xs[j], xs[n - 1]));
    }
  }

  /** The i-th Lagrange basis function. */
  function BasisAt(xs: seq<bv8>, i: nat, x: bv8): bv8
    requires Distinct(xs) && i < |xs|
  {
    ProductNonzero(xs, i, |xs|);
    Mul(Product(xs, i, x, |xs|), Inv(Product(xs, i, xs[i], |xs|)))
  }

  /** The interpolation sum over the first n points. */
  function Interpolate(xs: seq<bv8>, ys: seq<bv8>, x: bv8, n: nat): bv8
    requires Distinct(xs) && |ys| == |xs| && n <= |xs|
  {
    if n == 0 then 0
    else Add(Interpolate(xs, ys, x, n - 1), Mul(ys[n - 1], BasisAt(xs, n - 1, x)))
  }

  /** The interpolation takes the given value at each of its points. */
  lemma {:induction false} InterpolateAtPoint(xs: seq<bv8>, ys: seq<bv8>, j: nat, n: nat)
    requires Distinct(xs) && |ys| == |xs| && j < |xs| && n <= |xs|
    ensures Interpolate(xs, ys, xs[j], n) == if j < n then ys[j] else 0
  {
    hide Mul, Add, Product, Inv;
    if n > 0 {
      InterpolateAtPoint(xs, ys, j, n - 1);
      if n - 1 == j {
        ProductNonzero(xs, j, |xs|);
        MulInverse(Product(xs, j, xs[j], |xs|));
        MulOne(ys[j]);
        AddZero(ys[j]);
      } else {
        ProductAtOther(xs, n - 1, j, |xs|);
        ProductNonzero(xs, n - 1, |xs|);
        MulZero(Inv(Product(xs, n - 1, xs[n - 1], |xs|)));
        MulZero(ys[n - 1]);
        AddZero(Interpolate(xs, ys, xs[j], n - 1));
      }
    }
  }

  ghost function ProductPoly(xs: seq<bv8>, i: nat, n: nat): (p: Poly)
    requires n <= |xs|
    ensures |p| == if i < n then n else n + 1
  {
    if n == 0 then [1]
    else if n - 1 == i then ProductPoly(xs, i, n - 1)
    else TimesLinear(ProductPoly(xs, i, n - 1), xs[n - 1])
  }

  lemma {:induction false} EvalProductPoly(xs: seq<bv8>, i: nat, n: nat, x: bv8)
    requires n <= |xs|
    ensures Eval(ProductPoly(xs, i, n), x) == Product(xs, i, x, n)
  {
    hide Mul, Add, TimesLinear;
    if n == 0 {
      assert ProductPoly(xs, i, 0)[1..] == [];
      MulZero(x);
      AddZero(1);
    } else {
      EvalProductPoly(xs, i, n - 1, x);
      if n - 1 != i {
        EvalTimesLinear(ProductPoly(xs, i, n - 1), xs[n - 1], x);
      }
    }
  }

  ghost function InterpolationPoly(xs: seq<bv8>, ys: seq<bv8>, n: nat): (p: Poly)
    requires Distinct(xs) && |ys| == |xs| && n <= |xs|
    ensures |p| == |xs|
  {
    if n == 0 then Scale(0, seq(|xs|, _ => 0))
    else
      ProductNonzero(xs, n - 1, |xs|);
      var c := Mul(ys[n - 1], Inv(Product(xs, n - 1, xs[n - 1], |xs|)));
      PolyAdd(InterpolationPoly(xs, ys, n - 1), Scale(c, ProductPoly(xs, n - 1, |xs|)))
  }

  lemma {:induction false} EvalInterpolationPoly(xs: seq<bv8>, ys: seq<bv8>, n: nat, x: bv8)
    requires Distinct(xs) && |ys| == |xs| && n <= |xs|
    ensures Eval(InterpolationPoly(xs, ys, n), x) == Interpolate(xs, ys, x, n)
  {
    hide Mul, Add, Scale, PolyAdd, ProductPoly, Product, Inv, Eval;
    if n == 0 {
      EvalScale(0, seq(|xs|, _ => 0), x);
      MulZero(Eval(seq(|xs|, _ => 0), x));
    } else {
      ProductNonzero(xs, n - 1, |xs|);
      var d := Inv(Product(xs, n - 1, xs[n - 1], |xs|));
      var c := Mul(ys[n - 1], d);
      var p := ProductPoly(xs, n - 1, |xs|);
      EvalInterpolationPoly(xs, ys, n - 1, x);
      EvalAdd(InterpolationPoly(xs, ys, n - 1), Scale(c, p), x);
      EvalScale(c, p, x);
      EvalProductPoly(xs, n - 1, |xs|, x);
      MulAssoc(ys[n - 1], d, Product(xs, n - 1, x, |xs|));
      MulComm(d, Product(xs, n - 1, x, |xs|));
    }
  }

  /** Uniqueness: interpolating any |xs| distinct points of an interpolation through |xs| points gives it back. */
  lemma {:induction false} InterpolationUnique(xs: seq<bv8>, ys: seq<bv8>, us: seq<bv8>, vs: seq<bv8>, x: bv8)
    requires Distinct(xs) && Distinct(us) && |ys| == |xs| == |us| == |vs|
    requires forall j | 0 <= j < |us| :: vs[j] == Interpolate(xs, ys, us[j], |xs|)
    ensures Interpolate(us, vs, x, |us|) == Interpolate(xs, ys, x, |xs|)
  {
    hide Mul, Add, PolyAdd, Eval, InterpolationPoly, Interpolate;
    var p, q := InterpolationPoly(xs, ys, |xs|), InterpolationPoly(us, vs, |us|);
    var d := PolyAdd(p, q);
    forall j | 0 <= j < |us| ensures Eval(d, us[j]) == 0 {
      EvalAdd(p, q, us[j]);
      EvalInterpolationPoly(xs, ys, |xs|, us[j]);
      EvalInterpolationPoly(us, vs, |us|, us[j]);
      InterpolateAtPoint(us, vs, j, |us|);
      AddCancel(vs[j], vs[j]);
    }
    TooManyRoots(d, us, x);
    EvalAdd(p, q, x);
    EvalInterpolationPoly(xs, ys, |xs|, x);
    EvalInterpolationPoly(us, vs, |us|, x);
    AddCancel(Interpolate(xs, ys, x, |xs|), Interpolate(us, vs, x, |us|));
  }
}
