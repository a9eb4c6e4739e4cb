/** Polynomials over GF(256) as coefficient sequences, constant term first, and the
    interpolation theorems that secret sharing rests on. */
module Polynomials {
  import opened Bytes
  import opened Gf256

  type Poly = seq<byte>

  function Eval(p: Poly, x: byte): byte {
    if p == [] then 0 else Add(Mul(Eval(p[1..], x), x), p[0])
  }

  /** Horner's loop of the source: from the last coefficient down to the first. */
  method EvalPolynomial(coefficients: seq<byte>, x: byte) returns (result: byte)
    ensures result == Eval(coefficients, x)
  {
    hide Add, Mul;
    result := 0;
    var k := |coefficients|;
    while k > 0
      invariant 0 <= k <= |coefficients|
      invariant result == Eval(coefficients[k..], x)
    {
      k := k - 1;
      assert coefficients[k..][1..] == coefficients[k + 1..];
      result := Add(Mul(result, x), coefficients[k]);
    }
  }

  function Plus(p: Poly, q: Poly): Poly
    requires |p| == |q|
  {
    seq(|p|, i requires 0 <= i < |p| => Add(p[i], q[i]))
  }

  function Scale(c: byte, p: Poly): (q: Poly)
    ensures |q| == |p|
  {
    seq(|p|, i requires 0 <= i < |p| => Mul(c, p[i]))
  }

  function Zeros(n: nat): Poly { seq(n, _ => 0) }

  lemma {:induction false} EvalPlus(p: Poly, q: Poly, x: byte)
    requires |p| == |q|
    ensures Eval(Plus(p, q), x) == Add(Eval(p, x), Eval(q, x))
  {
    hide Add, Mul;
    if p == [] {
      AddZero(0);
    } else {
      var s := Plus(p, q);
      assert s[1..] == Plus(p[1..], q[1..]);
      EvalPlus(p[1..], q[1..], x);
      var a, b := Eval(p[1..], x), Eval(q[1..], x);
      MulDistributes(x, a, b);
      AddSwap(Mul(a, x), Mul(b, x), p[0], q[0]);
    }
  }

  lemma {:induction false} EvalScale(c: byte, p: Poly, x: byte)
    ensures Eval(Scale(c, p), x) == Mul(c, Eval(p, x))
  {
    hide Add, Mul;
    if p == [] {
      MulZero(c);
    } else {
      assert Scale(c, p)[1..] == Scale(c, p[1..]);
      EvalScale(c, p[1..], x);
      var a := Eval(p[1..], x);
      MulAssoc(c, a, x);
      MulDistributes(c, Mul(a, x), p[0]);
    }
  }

  lemma {:induction false} EvalPad(p: Poly, n: nat, x: byte)
    ensures Eval(p + Zeros(n), x) == Eval(p, x)
  {
    hide Add, Mul;
    if p == [] {
      assert p + Zeros(n) == Zeros(n);
      EvalZeros(n, x);
    } else {
      assert (p + Zeros(n))[1..] == p[1..] + Zeros(n);
      EvalPad(p[1..], n, x);
    }
  }

  lemma {:induction false} EvalZeros(n: nat, x: byte)
    ensures Eval(Zeros(n), x) == 0
  {
    hide Add, Mul;
    if n > 0 {
      assert Zeros(n)[1..] == Zeros(n - 1);
      EvalZeros(n - 1, x);
      MulZero(x);
      AddZero(0);
    }
  }

  // ---- A polynomial with as many roots as coefficients is zero ----

  /** Quotient of `p` by (z - r), by synthetic division. */
  function Quotient(p: Poly, r: byte): (q: Poly)
    ensures |q| == if p == [] then 0 else |p| - 1
  {
    if |p| <= 1 then [] else [Eval(p[1..], r)] + Quotient(p[1..], r)
  }

  lemma {:induction false} Division(p: Poly, r: byte, x: byte)
    ensures Eval(p, x) == Add(Mul(Eval(Quotient(p, r), x), Add(x, r)), Eval(p, r))
  {
    hide Add, Mul;
    if |p| <= 1 {
      MulZero(Add(x, r));
      if p == [] {
        AddZero(0);
      } else {
        MulZero(x);
        MulZero(r);
        AddZero(Eval(p, r));
      }
    } else {
      var rest := p[1..];
      var q, v := Eval(Quotient(rest, r), x), Eval(rest, r);
      Division(rest, r, x);
      assert Quotient(p, r)[1..] == Quotient(rest, r);
      assert Eval(p, x) == Add(Mul(Add(Mul(q, Add(x, r)), v), x), p[0]);
      assert Eval(Quotient(p, r), x) == Add(Mul(q, x), v);
      DivisionStep(q, v, x, r, p[0]);
    }
  }

  lemma DivisionStep(q: byte, v: byte, x: byte, r: byte, c: byte)
    ensures Add(Mul(Add(Mul(q, Add(x, r)), v), x), c)
         == Add(Mul(Add(Mul(q, x), v), Add(x, r)), Add(Mul(v, r), c))
  {
    hide Add, Mul;
    var d := Add(x, r);
    var m := Mul(Mul(q, d), x);
    calc {
      Add(Mul(Add(Mul(q, d), v), x), c);
      { MulDistributes(x, Mul(q, d), v); }
      Add(Add(m, Mul(v, x)), c);
      { AddZero(Mul(v, r)); AddZero(c); AddAssoc(Mul(v, r), Mul(v, r), c); }
      Add(Add(m, Mul(v, x)), Add(Mul(v, r), Add(Mul(v, r), c)));
      { AddAssoc(Add(m, Mul(v, x)), Mul(v, r), Add(Mul(v, r), c)); AddAssoc(m, Mul(v, x), Mul(v, r)); }
      Add(Add(m, Add(Mul(v, x), Mul(v, r))), Add(Mul(v, r), c));
      { MulDistributes(v, x, r); MulAssoc(q, d, x); MulComm(d, x); MulAssoc(q, x, d); }
      Add(Add(Mul(Mul(q, x), d), Mul(v, d)), Add(Mul(v, r), c));
      { MulDistributes(d, Mul(q, x), v); }
      Add(Mul(Add(Mul(q, x), v), d), Add(Mul(v, r), c));
    }
  }

  lemma {:induction false} ManyRootsZero(p: Poly, xs: seq<byte>)
    requires |p| <= |xs| && NoDuplicates(xs)
    requires forall i :: 0 <= i < |xs| ==> Eval(p, xs[i]) == 0
    ensures p == Zeros(|p|)
    decreases |p|
  {
    hide Add, Mul;
    if p != [] {
      var r, q := xs[0], Quotient(p, xs[0]);
      forall i | 0 <= i < |xs[1..]|
        ensures Eval(q, xs[1..][i]) == 0
      {
        var x := xs[i + 1];
        Division(p, r, x);
        AddZero(Mul(Eval(q, x), Add(x, r)));
        if Add(x, r) == 0 {
          AddCancel(x, r);
        }
        if Eval(q, x) != 0 {
          MulNonZero(Eval(q, x), Add(x, r));
        }
      }
      ManyRootsZero(q, xs[1..]);
      ZeroQuotient(p, r);
    }
  }

  lemma {:induction false} ZeroQuotient(p: Poly, r: byte)
    requires Eval(p, r) == 0 && Quotient(p, r) == Zeros(|Quotient(p, r)|)
    ensures p == Zeros(|p|)
  {
    hide Add, Mul;
    if p != [] {
      var q := Quotient(p, r);
      if |p| > 1 {
        assert q[0] == 0;
        assert q[1..] == Quotient(p[1..], r);
        assert q[1..] == Zeros(|q| - 1);
        ZeroQuotient(p[1..], r);
      }
      assert Eval(p[1..], r) == 0;
      MulZero(r);
      AddZero(p[0]);
      assert p == [p[0]] + p[1..];
    }
  }

  /** A polynomial of |p| coefficients is determined by its values at |p| points. */
  lemma AgreeingPolysEqual(p: Poly, q: Poly, xs: seq<byte>)
    requires |p| == |q| <= |xs| && NoDuplicates(xs)
    requires forall i :: 0 <= i < |xs| ==> Eval(p, xs[i]) == Eval(q, xs[i])
    ensures p == q
  {
    hide Add, Mul;
    var d := Plus(p, q);
    forall i | 0 <= i < |xs|
      ensures Eval(d, xs[i]) == 0
    {
      EvalPlus(p, q, xs[i]);
      AddZero(Eval(p, xs[i]));
    }
    ManyRootsZero(d, xs);
    forall i | 0 <= i < |p|
      ensures p[i] == q[i]
    {
      assert d[i] == 0;
      AddCancel(p[i], q[i]);
    }
  }

  // ---- Lagrange interpolation ----

  /** Product over j < k, j != i, of (z - xs[j]). */
  function SkipProduct(xs: seq<byte>, i: nat, k: nat, z: byte): byte
    requires k <= |xs|
  {
    if k == 0 then 1
    else if k - 1 == i then SkipProduct(xs, i, k - 1, z)
    else Mul(SkipProduct(xs, i, k - 1, z), Add(z, xs[k - 1]))
  }

  lemma {:induction false} SkipProductRoot(xs: seq<byte>, i: nat, k: nat, j: nat)
    requires j < k <= |xs| && j != i
    ensures SkipProduct(xs, i, k, xs[j]) == 0
  {
    hide Add, Mul;
    if k - 1 == j {
      AddZero(xs[j]);
      MulZero(SkipProduct(xs, i, k - 1, xs[j]));
    } else {
      SkipProductRoot(xs, i, k - 1, j);
      MulZero(Add(xs[j], xs[k - 1]));
    }
  }

  lemma {:induction false} SkipProductNonZero(xs: seq<byte>, i: nat, k: nat)
    requires i < |xs| && k <= |xs| && NoDuplicates(xs)
    ensures SkipProduct(xs, i, k, xs[i]) != 0
  {
    hide Add, Mul;
    if k > 0 {
      SkipProductNonZero(xs, i, k - 1);
      if k - 1 != i {
        if Add(xs[i], xs[k - 1]) == 0 {
          AddCancel(xs[i], xs[k - 1]);
        }
        MulNonZero(SkipProduct(xs, i, k - 1, xs[i]), Add(xs[i], xs[k - 1]));
      }
    }
  }

  /** Sum over i < k of ys[i] times the i-th Lagrange basis polynomial at `z`. */
  function LagrangeSum(xs: seq<byte>, ys: seq<byte>, k: nat, z: byte): byte
    requires k <= |xs| == |ys| && NoDuplicates(xs)
  {
    if k == 0 then 0
    else
      var i := k - 1;
      SkipProductNonZero(xs, i, |xs|);
      var basis := Div(SkipProduct(xs, i, |xs|, z), SkipProduct(xs, i, |xs|, xs[i]));
      Add(LagrangeSum(xs, ys, i, z), Mul(ys[i], basis))
  }

  function Interpolate(xs: seq<byte>, ys: seq<byte>, z: byte): byte
    requires |xs| == |ys| && NoDuplicates(xs)
  {
    LagrangeSum(xs, ys, |xs|, z)
  }

  /** The double loop of the source. With pairwise distinct indices no denominator is
      zero, so the division never trips its assertion. */
  method LagrangeInterpolateAtZero(xs: seq<byte>, ys: seq<byte>) returns (secret: byte)
    requires |xs| == |ys| && NoDuplicates(xs)
    ensures secret == Interpolate(xs, ys, 0)
  {
    hide Add, Mul, Div;
    var n := |xs|;
    secret := 0;
    for i := 0 to n
      invariant secret == LagrangeSum(xs, ys, i, 0)
    {
      var numerator, denominator := 1, 1;
      for j := 0 to n
        invariant numerator == SkipProduct(xs, i, j, 0)
        invariant denominator == SkipProduct(xs, i, j, xs[i])
      {
        if i == j {
          continue;
        }
        AddZero(xs[j]);
        numerator := Mul(numerator, xs[j]);
        denominator := Mul(denominator, Add(xs[i], xs[j]));
      }
      SkipProductNonZero(xs, i, n);
      var lagrange := Div(numerator, denominator);
      secret := Add(secret, Mul(ys[i], lagrange));
    }
  }

  // ---- The interpolation sum is a polynomial through the given points ----

  /** (z - r) times `p`. */
  function TimesLinear(p: Poly, r: byte): Poly {
    Plus([0] + p, Scale(r, p) + [0])
  }

  lemma EvalTimesLinear(p: Poly, r: byte, z: byte)
    ensures Eval(TimesLinear(p, r), z) == Mul(Eval(p, z), Add(z, r))
  {
    hide Add, Mul, Scale, Plus;
    var v := Eval(p, z);
    EvalPlus([0] + p, Scale(r, p) + [0], z);
    assert ([0] + p)[1..] == p;
    AddZero(Mul(v, z));
    assert Zeros(1) == [0];
    EvalPad(Scale(r, p), 1, z);
    EvalScale(r, p, z);
    MulComm(r, v);
    MulDistributes(v, z, r);
  }

  /** `SkipProduct` as a polynomial in z. */
  function BasisPoly(xs: seq<byte>, i: nat, k: nat): (p: Poly)
    requires k <= |xs|
    ensures |p| == if i < k then k else k + 1
  {
    if k == 0 then [1]
    else if k - 1 == i then BasisPoly(xs, i, k - 1)
    else TimesLinear(BasisPoly(xs, i, k - 1), xs[k - 1])
  }

  lemma {:induction false} EvalBasisPoly(xs: seq<byte>, i: nat, k: nat, z: byte)
    requires k <= |xs|
    ensures Eval(BasisPoly(xs, i, k), z) == SkipProduct(xs, i, k, z)
  {
    hide Add, Mul, TimesLinear;
    if k == 0 {
      MulZero(z);
      AddZero(1);
    } else {
      EvalBasisPoly(xs, i, k - 1, z);
      if k - 1 != i {
        EvalTimesLinear(BasisPoly(xs, i, k - 1), xs[k - 1], z);
      }
    }
  }

  function LagrangePoly(xs: seq<byte>, ys: seq<byte>, k: nat): (p: Poly)
    requires k <= |xs| == |ys| && NoDuplicates(xs)
    ensures |p| == |xs|
  {
    if k == 0 then Zeros(|xs|)
    else
      var i := k - 1;
      SkipProductNonZero(xs, i, |xs|);
      var weight := Div(ys[i], SkipProduct(xs, i, |xs|, xs[i]));
      Plus(LagrangePoly(xs, ys, i), Scale(weight, BasisPoly(xs, i, |xs|)))
  }

  lemma DivExchange(y: byte, p: byte, d: byte)
    requires d != 0
    ensures Mul(Div(y, d), p) == Mul(y, Div(p, d))
  {
    hide Mul, Div;
    var v, u := Div(y, d), Div(p, d);
    DivMul(y, d);
    DivMul(p, d);
    MulAssoc(v, d, u);
    MulComm(d, u);
  }

  lemma {:induction false} EvalLagrangePoly(xs: seq<byte>, ys: seq<byte>, k: nat, z: byte)
    requires k <= |xs| == |ys| && NoDuplicates(xs)
    ensures Eval(LagrangePoly(xs, ys, k), z) == LagrangeSum(xs, ys, k, z)
  {
    hide Add, Mul, Div, Scale, Plus, Eval, BasisPoly, SkipProduct;
    if k == 0 {
      EvalZeros(|xs|, z);
    } else {
      var i := k - 1;
      SkipProductNonZero(xs, i, |xs|);
      var d := SkipProduct(xs, i, |xs|, xs[i]);
      EvalLagrangePoly(xs, ys, i, z);
      EvalPlus(LagrangePoly(xs, ys, i), Scale(Div(ys[i], d), BasisPoly(xs, i, |xs|)), z);
      EvalScale(Div(ys[i], d), BasisPoly(xs, i, |xs|), z);
      EvalBasisPoly(xs, i, |xs|, z);
      DivExchange(ys[i], SkipProduct(xs, i, |xs|, z), d);
    }
  }

  lemma DivTrivial(a: byte)
    requires a != 0
    ensures Div(a, a) == 1 && Div(0, a) == 0
  {
    hide Mul, Add;
    var u := Div(a, a);
    DivMul(a, a);
    MulOne(a);
    MulComm(a, 1);
    MulDistributes(a, u, 1);
    AddZero(a);
    if Add(u, 1) != 0 {
      MulNonZero(Add(u, 1), a);
    }
    AddCancel(u, 1);
  }

  lemma {:induction false} LagrangeSumAtNode(xs: seq<byte>, ys: seq<byte>, k: nat, m: nat)
    requires k <= |xs| == |ys| && NoDuplicates(xs) && m < |xs|
    ensures LagrangeSum(xs, ys, k, xs[m]) == if m < k then ys[m] else 0
  {
    hide Add, Mul, Div, SkipProduct;
    if k > 0 {
      var i := k - 1;
      LagrangeSumAtNode(xs, ys, i, m);
      SkipProductNonZero(xs, i, |xs|);
      DivTrivial(SkipProduct(xs, i, |xs|, xs[i]));
      if i == m {
        MulOne(ys[m]);
        AddZero(ys[m]);
      } else {
        SkipProductRoot(xs, i, |xs|, m);
        MulZero(ys[i]);
        AddZero(LagrangeSum(xs, ys, i, xs[m]));
      }
    }
  }

  /** Interpolating |xs| >= |p| values of `p` gives back `p` at every point. */
  lemma InterpolationRecovers(p: Poly, xs: seq<byte>, ys: seq<byte>, z: byte)
    requires |p| <= |xs| == |ys| && NoDuplicates(xs)
    requires forall i :: 0 <= i < |xs| ==> ys[i] == Eval(p, xs[i])
    ensures Interpolate(xs, ys, z) == Eval(p, z)
  {
    hide Add, Mul, Div, Eval, LagrangeSum, LagrangePoly;
    var n := |xs|;
    var padded, l := p + Zeros(n - |p|), LagrangePoly(xs, ys, n);
    forall i | 0 <= i < n
      ensures Eval(padded, xs[i]) == Eval(l, xs[i])
    {
      EvalPad(p, n - |p|, xs[i]);
      EvalLagrangePoly(xs, ys, n, xs[i]);
      LagrangeSumAtNode(xs, ys, n, i);
    }
    AgreeingPolysEqual(padded, l, xs);
    EvalPad(p, n - |p|, z);
    EvalLagrangePoly(xs, ys, n, z);
  }

  /** Some polynomial of |xs| coefficients passes through any |xs| points. */
  lemma InterpolantExists(xs: seq<byte>, ys: seq<byte>) returns (p: Poly)
    requires |xs| == |ys| && NoDuplicates(xs)
    ensures |p| == |xs|
    ensures forall i :: 0 <= i < |xs| ==> Eval(p, xs[i]) == ys[i]
  {
    hide Add, Mul, Div, Eval, LagrangeSum, LagrangePoly;
    p := LagrangePoly(xs, ys, |xs|);
    forall i | 0 <= i < |xs|
      ensures Eval(p, xs[i]) == ys[i]
    {
      EvalLagrangePoly(xs, ys, |xs|, xs[i]);
      LagrangeSumAtNode(xs, ys, |xs|, i);
    }
  }
}
