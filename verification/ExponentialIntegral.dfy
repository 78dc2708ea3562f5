/** The antiderivative of a polynomial times the exponential of a linear function
    (src/cas/Integration.cpp:3223-3258). */
module ExponentialIntegral {
  import opened RealProducts
  import opened RationalPoly
  import opened RationalRing
  import opened RationalDivision

  // ----- Powers of the variable -----

  lemma {:induction false} DiffXPower(j: nat, x: real)
    ensures Eval(Diff(XPower(j)), x) == if j == 0 then 0.0 else By(j as real, PowerOf(x, j - 1))
  {
    EvalDiff(XPower(j), x);
    if j == 0 {
      assert Derivative(XPower(0)) == [];
    } else {
      assert XPower(j) == [0.0] + XPower(j - 1) && XPower(j)[1..] == XPower(j - 1);
      hide By, Eval, Derivative, Diff, XPower;
      DerivativeTail(XPower(j), x);
      EvalXPower(j - 1, x);
      EvalDiff(XPower(j - 1), x);
      DiffXPower(j - 1, x);
      var f := PowerOf(x, j - 1);
      BySum(f, (j - 1) as real, 1.0);
      ByConstant(f);
      ByConstant(x);
      if j > 1 { ByTwice(x, (j - 1) as real, PowerOf(x, j - 2)); }
      ByConstant(f);
    }
  }

  // ----- One power of the variable -----

  /** (s * e^w)' / e^w at `x`, when w' = c. */
  ghost function Factor(s: Poly, c: real, x: real): real {
    Eval(Diff(s), x) + By(c, Eval(s, x))
  }

  function Sign(k: nat): real {
    if k % 2 == 0 then 1.0 else -1.0
  }

  /** Adding t * X^j. */
  lemma FactorTerm(s: Poly, t: real, j: nat, c: real, x: real)
    ensures Factor(Add(s, Scaled(t, XPower(j))), c, x) == Factor(s, c, x) + By(t, Factor(XPower(j), c, x))
  {
    hide By, Eval, Diff, Add, Scaled, XPower;
    var p := Scaled(t, XPower(j));
    DiffAdd(s, p, x);
    DiffScaled(t, XPower(j), x);
    EvalAdd(s, p, x);
    EvalScaled(t, XPower(j), x);
    BySum(c, Eval(s, x), Eval(p, x));
    ByTwice(c, t, Eval(XPower(j), x));
    BySum(t, Eval(Diff(XPower(j)), x), By(c, Eval(XPower(j), x)));
  }

  /** What the first `k` terms give: x^n, less a term that the next one cancels. */
  ghost predicate Telescopes(s: Poly, n: nat, k: nat, perm: real, c: real)
    requires c != 0.0
  {
    && (k <= n ==> forall x ::
         Factor(s, c, x) == PowerOf(x, n) - By(By(Sign(k), perm), By(PowerOf(1.0 / c, k), PowerOf(x, n - k))))
    && (k == n + 1 ==> forall x :: Factor(s, c, x) == PowerOf(x, n))
  }

  lemma TermValues(sign: real, perm: real, inv: real, power: real, c: real, f: real, j: real, lower: real)
    requires By(c, inv) == 1.0
    ensures By(By(By(sign, perm), By(inv, power)), By(j, lower) + By(c, f))
      == By(By(sign, perm), By(power, f)) - By(By(-sign, By(perm, j)), By(By(inv, power), lower))
  {
    hide By;
    var a := By(sign, perm);
    var b := By(inv, power);
    BySum(By(a, b), By(j, lower), By(c, f));
    assert By(By(a, b), By(c, f)) == By(a, By(power, f)) by {
      ByTwice(a, b, By(c, f));
      ByTwice(b, c, f);
      BySwap(b, c);
      ByTwice(c, inv, power);
      ByConstant(power);
    }
    assert By(By(a, b), By(j, lower)) == -By(By(-sign, By(perm, j)), By(b, lower)) by {
      ByTwice(a, b, By(j, lower));
      ByTwice(b, j, lower);
      ByTwice(a, j, By(b, lower));
      ByTwice(sign, perm, j);
      Negate(sign, By(perm, j));
      Negate(By(sign, By(perm, j)), By(b, lower));
    }
  }

  lemma Negate(a: real, b: real)
    ensures By(-a, b) == -By(a, b)
  {
  }

  lemma TelescopeStep(s: Poly, n: nat, k: nat, perm: real, c: real)
    requires c != 0.0 && Telescopes(s, n, k, perm, c) && k <= n
    ensures var t := By(By(Sign(k), perm), PowerOf(1.0 / c, k + 1));
      Telescopes(Add(s, Scaled(t, XPower(n - k))), n, k + 1, By(perm, (n - k) as real), c)
  {
    hide By, Factor, Add, Scaled, XPower, PowerOf, Sign;
    var t := By(By(Sign(k), perm), PowerOf(1.0 / c, k + 1));
    var next := Add(s, Scaled(t, XPower(n - k)));
    forall x ensures Factor(next, c, x) == PowerOf(x, n) - Leftover(n, k + 1, By(perm, (n - k) as real), c, x) {
      NextTerm(s, n, k, perm, c, x);
    }
  }

  /** What the first `k` terms leave to be cancelled. */
  ghost function Leftover(n: nat, k: nat, perm: real, c: real, x: real): real
    requires c != 0.0
  {
    if k > n then 0.0 else By(By(Sign(k), perm), By(PowerOf(1.0 / c, k), PowerOf(x, n - k)))
  }

  lemma NextTerm(s: Poly, n: nat, k: nat, perm: real, c: real, x: real)
    requires c != 0.0 && Telescopes(s, n, k, perm, c) && k <= n
    ensures var t := By(By(Sign(k), perm), PowerOf(1.0 / c, k + 1));
      Factor(Add(s, Scaled(t, XPower(n - k))), c, x) ==
        PowerOf(x, n) - Leftover(n, k + 1, By(perm, (n - k) as real), c, x)
  {
    var inv, j := 1.0 / c, n - k;
    var t := By(By(Sign(k), perm), PowerOf(inv, k + 1));
    var lower := if j == 0 then 0.0 else PowerOf(x, j - 1);
    TelescopesAt(s, n, k, perm, c, x);
    Unfold(c, k);
    assert Leftover(n, k + 1, By(perm, j as real), c, x) ==
      By(By(-Sign(k), By(perm, j as real)), By(PowerOf(inv, k + 1), lower)) by {
      ByConstant(PowerOf(inv, k + 1));
      ByConstant(By(-Sign(k), By(perm, j as real)));
    }
    hide *;
    FactorTerm(s, t, j, c, x);
    FactorXPower(j, c, x);
    TermValues(Sign(k), perm, inv, PowerOf(inv, k), c, PowerOf(x, j), j as real, lower);
  }

  lemma Unfold(c: real, k: nat)
    requires c != 0.0
    ensures By(c, 1.0 / c) == 1.0 && PowerOf(1.0 / c, k + 1) == By(1.0 / c, PowerOf(1.0 / c, k))
    ensures Sign(k + 1) == -Sign(k)
  {
  }

  lemma TelescopesAt(s: Poly, n: nat, k: nat, perm: real, c: real, x: real)
    requires c != 0.0 && Telescopes(s, n, k, perm, c) && k <= n
    ensures Factor(s, c, x) == PowerOf(x, n) - By(By(Sign(k), perm), By(PowerOf(1.0 / c, k), PowerOf(x, n - k)))
  {
  }

  lemma FactorXPower(j: nat, c: real, x: real)
    ensures Factor(XPower(j), c, x) == By(j as real, if j == 0 then 0.0 else PowerOf(x, j - 1)) + By(c, PowerOf(x, j))
  {
    hide By, Eval, Diff, XPower, PowerOf;
    DiffXPower(j, x);
    EvalXPower(j, x);
    ByConstant(j as real);
  }

  lemma TelescopeStart(n: nat, c: real)
    requires c != 0.0
    ensures Telescopes([], n, 0, 1.0, c)
  {
    hide By, Eval, Diff;
    forall x ensures Factor([], c, x) == PowerOf(x, n) - By(By(Sign(0), 1.0), By(PowerOf(1.0 / c, 0), PowerOf(x, n))) {
      EmptyDiff();
      EvalConstant(0.0, x);
      ByConstant(c);
      ByConstant(1.0);
      ByConstant(PowerOf(x, n));
    }
  }

  lemma EmptyDiff()
    ensures Diff([]) == []
  {
  }

  /** termSum for the power `n`: multiplied by e^w its derivative is x^n * e^w. */
  method PowerSum(n: nat, c: real) returns (s: Poly)
    requires c != 0.0
    ensures forall x :: Factor(s, c, x) == PowerOf(x, n)
  {
    hide Factor, PowerOf, By, Eval, Diff, Add, Scaled;
    s := [];
    var perm := 1.0;
    TelescopeStart(n, c);
    for k := 0 to n + 1
      invariant Telescopes(s, n, k, perm, c)
    {
      TelescopeStep(s, n, k, perm, c);
      var sign := if k % 2 == 0 then 1.0 else -1.0;
      assert sign == Sign(k);
      var termCoeff := By(By(sign, perm), PowerOf(1.0 / c, k + 1));
      s := Add(s, Scaled(termCoeff, Zeros(n - k) + [1.0]));
      perm := By(perm, (n - k) as real);
    }
  }

  // ----- A polynomial -----

  /** The first `n` coefficients give the first `n` terms of the polynomial. */
  ghost predicate Integrates(r: Poly, p: Poly, n: nat, c: real)
    requires n <= |p|
  {
    forall x :: Factor(r, c, x) == Eval(p[..n], x)
  }

  lemma IntegratesStep(r: Poly, p: Poly, n: nat, c: real, s: Poly)
    requires n < |p| && Integrates(r, p, n, c) && forall x :: Factor(s, c, x) == PowerOf(x, n)
    ensures Integrates(Add(r, Scaled(p[n], s)), p, n + 1, c)
  {
    hide By, Eval, Diff, Add, Scaled, PowerOf, Factor;
    var next := Add(r, Scaled(p[n], s));
    forall x ensures Factor(next, c, x) == Eval(p[..n + 1], x) {
      FactorScaled(r, p[n], s, c, x);
      EvalLast(p[..n], p[n], x);
      assert p[..n + 1] == p[..n] + [p[n]];
    }
  }

  lemma FactorScaled(r: Poly, t: real, s: Poly, c: real, x: real)
    ensures Factor(Add(r, Scaled(t, s)), c, x) == Factor(r, c, x) + By(t, Factor(s, c, x))
  {
    hide By, Eval, Diff, Add, Scaled;
    DiffAdd(r, Scaled(t, s), x);
    DiffScaled(t, s, x);
    EvalAdd(r, Scaled(t, s), x);
    EvalScaled(t, s, x);
    BySum(c, Eval(r, x), Eval(Scaled(t, s), x));
    ByTwice(c, t, Eval(s, x));
    BySum(t, Eval(Diff(s), x), By(c, Eval(s, x)));
  }

  lemma {:induction false} EvalLast(p: Poly, e: real, x: real)
    ensures Eval(p + [e], x) == Eval(p, x) + By(e, PowerOf(x, |p|))
  {
    hide By;
    if p == [] {
      EvalConstant(e, x);
      ByConstant(e);
    } else {
      EvalLast(p[1..], e, x);
      assert (p + [e])[1..] == p[1..] + [e];
      BySum(x, Eval(p[1..], x), By(e, PowerOf(x, |p| - 1)));
      ByTwice(x, e, PowerOf(x, |p| - 1));
    }
  }

  lemma IntegratesZero(r: Poly, p: Poly, n: nat, c: real)
    requires n < |p| && Integrates(r, p, n, c) && p[n] == 0.0
    ensures Integrates(r, p, n + 1, c)
  {
    hide By, Eval, Factor;
    forall x ensures Factor(r, c, x) == Eval(p[..n + 1], x) {
      EvalAppend(p[..n], 0.0, x);
      assert p[..n + 1] == p[..n] + [0.0];
    }
  }

  lemma IntegratesNothing(p: Poly, c: real)
    ensures Integrates([], p, 0, c)
  {
    hide By, Eval, Diff;
    forall x ensures Factor([], c, x) == Eval(p[..0], x) {
      EmptyDiff();
      EvalConstant(0.0, x);
      ByConstant(c);
    }
  }

  lemma IntegratesAll(r: Poly, p: Poly, c: real)
    requires Trimmed(p) && Integrates(r, p, |p|, c)
    ensures Add(Diff(r), Scaled(c, r)) == p
  {
    hide By, Eval, Diff, Add, Scaled;
    assert p[..|p|] == p;
    forall x ensures Eval(Add(Diff(r), Scaled(c, r)), x) == Eval(p, x) {
      EvalAdd(Diff(r), Scaled(c, r), x);
      EvalScaled(c, r, x);
    }
    ByValues(Add(Diff(r), Scaled(c, r)), p);
  }

  /** With w' = c the derivative of r * e^w is (r' + c * r) * e^w, and that is p * e^w. */
  method Integrate(p: Poly, c: real) returns (r: Poly)
    requires Trimmed(p) && c != 0.0
    ensures Add(Diff(r), Scaled(c, r)) == p
  {
    hide Integrates, Factor, Eval, Add, Scaled, Diff, PowerOf;
    r := [];
    IntegratesNothing(p, c);
    for n := 0 to |p|
      invariant Integrates(r, p, n, c)
    {
      if p[n] == 0.0 {
        IntegratesZero(r, p, n, c);
      } else {
        var termSum := PowerSum(n, c);
        IntegratesStep(r, p, n, c, termSum);
        r := Add(r, Scaled(p[n], termSum));
      }
    }
    IntegratesAll(r, p, c);
  }
}
