/** Hermite reduction: splitting the derivative of a rational function off a rational integrand
    (src/cas/Integration.cpp:804-869). */
module HermiteReduction {
  import opened RealProducts
  import opened RationalPoly
  import opened RationalRing
  import opened RationalDivision
  import opened SquareFree
  import opened RepeatedParts

  datatype Quotient = Quotient(num: Poly, den: Poly)

  /** rationalPart (a sum of quotients), polyPart, currentA and currentD. */
  datatype Reduction = Reduction(rational: seq<Quotient>, poly: Poly, num: Poly, den: Poly)

  // ----- Values -----

  ghost predicate Defined(rational: seq<Quotient>, x: real) {
    forall j :: 0 <= j < |rational| ==> Eval(rational[j].den, x) != 0.0
  }

  function Ratio(a: real, b: real): real
    requires b != 0.0
  {
    a / b
  }

  /** (n / d)' = (n' * d - n * d') / d^2 at `x`. */
  function SlopeOf(n: real, dn: real, d: real, dd: real): real
    requires d != 0.0
  {
    ByNonZero(d, d);
    (By(dn, d) - By(n, dd)) / By(d, d)
  }

  ghost function Slope(q: Quotient, x: real): real
    requires Eval(q.den, x) != 0.0
  {
    SlopeOf(Eval(q.num, x), Eval(Diff(q.num), x), Eval(q.den, x), Eval(Diff(q.den), x))
  }

  /** The derivative of the sum of the quotients at `x`. */
  ghost function SlopeSum(rational: seq<Quotient>, x: real): real
    requires Defined(rational, x)
  {
    if rational == [] then 0.0 else SlopeSum(rational[..|rational| - 1], x) + Slope(rational[|rational| - 1], x)
  }

  /** a / d = (sum of the quotients)' + polynomial + remaining fraction, at `x`. */
  ghost predicate EqualAt(a: Poly, d: Poly, r: Reduction, x: real)
    requires Eval(d, x) != 0.0
  {
    && Defined(r.rational, x) && Eval(r.den, x) != 0.0
    && Ratio(Eval(a, x), Eval(d, x)) ==
         SlopeSum(r.rational, x) + Eval(r.poly, x) + Ratio(Eval(r.num, x), Eval(r.den, x))
  }

  /** The same wherever the integrand is defined. */
  ghost predicate Conserves(a: Poly, d: Poly, r: Reduction) {
    forall x :: Eval(d, x) != 0.0 ==> EqualAt(a, d, r, x)
  }

  // ----- One step -----

  lemma {:induction false} EvalPower(p: Poly, n: nat, x: real)
    ensures Eval(Power(p, n), x) == PowerOf(Eval(p, x), n)
  {
    hide Mul, Eval, By;
    if n == 0 {
      EvalConstant(1.0, x);
    } else {
      EvalPower(p, n - 1, x);
      EvalMul(p, Power(p, n - 1), x);
    }
  }

  /** (p^n)' = n * p^(n-1) * p' */
  lemma {:induction false} DiffPower(p: Poly, n: nat, x: real)
    requires n > 0
    ensures Eval(Diff(Power(p, n)), x) == By(n as real, By(PowerOf(Eval(p, x), n - 1), Eval(Diff(p), x)))
  {
    PowerUnfolds(p, n, x);
    hide *;
    if n == 1 {
      DiffTimesOne(p, x);
      ByConstant(Eval(Diff(p), x));
    } else {
      var e, d := Eval(p, x), Eval(Diff(p), x);
      DiffPower(p, n - 1, x);
      DiffMul(p, Power(p, n - 1), x);
      EvalPower(p, n - 1, x);
      PowerStep((n - 1) as real, e, PowerOf(e, n - 2), d);
    }
  }

  lemma DiffTimesOne(p: Poly, x: real)
    ensures Eval(Diff(Mul(p, [1.0])), x) == Eval(Diff(p), x)
  {
    hide *;
    DiffMul(p, [1.0], x);
    EvalConstant(1.0, x);
    ConstantDiff(x);
    ByConstant(Eval(p, x));
    ByConstant(Eval(Diff(p), x));
  }

  lemma PowerUnfolds(p: Poly, n: nat, x: real)
    requires n > 0
    ensures Power(p, n) == Mul(p, Power(p, n - 1)) && (n == 1 ==> Power(p, n - 1) == [1.0])
    ensures PowerOf(Eval(p, x), n - 1) == if n == 1 then 1.0 else By(Eval(p, x), PowerOf(Eval(p, x), n - 2))
  {
    hide Mul, Eval, By;
  }

  lemma ConstantDiff(x: real)
    ensures Eval(Diff([1.0]), x) == 0.0
  {
    assert Derivative([1.0]) == [];
  }

  lemma PowerStep(k: real, e: real, f: real, d: real)
    ensures By(d, By(e, f)) + By(e, By(k, By(f, d))) == By(k + 1.0, By(By(e, f), d))
  {
    hide By;
    var g := By(By(e, f), d);
    BySwap(d, By(e, f));
    ByTwice(e, k, By(f, d));
    ByTwice(e, f, d);
    BySum(g, k, 1.0);
    BySwap(g, k + 1.0);
    BySwap(g, k);
    ByConstant(g);
  }

  /** What `B`, `C` and the new remaining fraction are computed from. */
  ghost predicate Split(a: Poly, u: Poly, v: Poly, b: Poly, c: Poly) {
    a == Add(Mul(b, Mul(u, Diff(v))), Mul(c, v))
  }

  /** S * A and T * A, with S * A reduced modulo v. */
  lemma SplitBy(a: Poly, w: Poly, v: Poly, s: Poly, t: Poly, q: Poly, b: Poly)
    requires Trimmed(a) && Combination(w, v, s, t) == [1.0] && Mul(s, a) == Add(Mul(v, q), b)
    ensures a == Add(Mul(b, w), Mul(Add(Mul(t, a), Mul(q, w)), v))
  {
    hide Add, Mul, Eval, By, Trimmed;
    var c := Add(Mul(t, a), Mul(q, w));
    forall x ensures Eval(a, x) == Eval(Add(Mul(b, w), Mul(c, v)), x) {
      EvalAdd(Mul(s, w), Mul(t, v), x);
      EvalMul(s, w, x);
      EvalMul(t, v, x);
      EvalConstant(1.0, x);
      EvalMul(s, a, x);
      EvalAdd(Mul(v, q), b, x);
      EvalMul(v, q, x);
      EvalAdd(Mul(b, w), Mul(c, v), x);
      EvalMul(b, w, x);
      EvalMul(c, v, x);
      EvalAdd(Mul(t, a), Mul(q, w), x);
      EvalMul(t, a, x);
      EvalMul(q, w, x);
      SplitValues(Eval(a, x), Eval(w, x), Eval(v, x), Eval(s, x), Eval(t, x), Eval(q, x), Eval(b, x));
    }
    ByValues(a, Add(Mul(b, w), Mul(c, v)));
  }

  lemma SplitValues(a: real, w: real, v: real, s: real, t: real, q: real, b: real)
    requires By(s, w) + By(t, v) == 1.0 && By(s, a) == By(v, q) + b
    ensures a == By(b, w) + By(By(t, a) + By(q, w), v)
  {
    hide By;
    ByConstant(a);
    BySum(a, By(s, w), By(t, v));
    ByTwice(s, w, a);
    BySwap(w, a);
    ByTwice(s, a, w);
    ByTwice(t, v, a);
    BySwap(v, a);
    ByTwice(t, a, v);
    BySum(w, By(v, q), b);
    ByTwice(v, q, w);
    BySwap(v, By(q, w));
    BySum(v, By(t, a), By(q, w));
  }

  lemma FractionSum(p: real, q: real, r: real)
    requires r != 0.0
    ensures (p + q) / r == p / r + q / r
  {
  }

  lemma FractionCancel(p: real, r: real, k: real, top: real, bottom: real)
    requires r != 0.0 && k != 0.0 && top == p * k && bottom == r * k
    ensures bottom != 0.0 && top / bottom == p / r
  {
    ByNonZero(r, k);
    assert (p / r) * r == p;
    assert (p / r) * bottom == ((p / r) * r) * k;
  }

  /** The three fractions of a step, with w = v^(i-1), z = v^(i-2), m = i - 1. */
  lemma StepValues(a: real, b: real, db: real, c: real, u: real, v: real, dv: real, z: real, w: real, m: real)
    requires u != 0.0 && v != 0.0 && m != 0.0 && z != 0.0 && w == By(v, z)
    requires a == By(b, By(u, dv)) + By(c, v)
    ensures w != 0.0 && By(m, w) != 0.0 && By(u, w) != 0.0 && By(By(v, w), u) != 0.0
    ensures Ratio(a, By(By(v, w), u)) ==
      SlopeOf(-b, -db, By(m, w), By(m, By(m, By(z, dv)))) + Ratio(c + By(Ratio(1.0, m), By(db, u)), By(u, w))
  {
    ByNonZero(v, z);
    ByNonZero(m, w);
    ByNonZero(u, w);
    ByNonZero(v, w);
    ByNonZero(By(v, w), u);
    var f := By(b, dv) / By(v, w);
    assert a / By(By(v, w), u) == f + c / By(u, w) by { WholeFraction(a, b, c, u, v, dv, w); }
    assert SlopeOf(-b, -db, By(m, w), By(m, By(m, By(z, dv)))) == -db / By(m, w) + f by {
      SlopeFraction(b, db, v, dv, z, w, m);
    }
    assert (c + By(1.0 / m, By(db, u))) / By(u, w) == c / By(u, w) + db / By(m, w) by { NextFraction(db, c, u, w, m); }
    assert -db / By(m, w) + db / By(m, w) == 0.0 by { FractionSum(-db, db, By(m, w)); }
  }

  lemma WholeFraction(a: real, b: real, c: real, u: real, v: real, dv: real, w: real)
    requires u != 0.0 && v != 0.0 && w != 0.0 && a == By(b, By(u, dv)) + By(c, v)
    ensures By(By(v, w), u) != 0.0 && By(v, w) != 0.0 && By(u, w) != 0.0
    ensures a / By(By(v, w), u) == By(b, dv) / By(v, w) + c / By(u, w)
  {
    ByNonZero(u, w);
    ByNonZero(v, w);
    ByNonZero(By(v, w), u);
    var whole := By(By(v, w), u);
    FractionSum(By(b, By(u, dv)), By(c, v), whole);
    assert By(b, By(u, dv)) == By(b, dv) * u;
    FractionCancel(By(b, dv), By(v, w), u, By(b, By(u, dv)), whole);
    assert whole == By(u, w) * v;
    FractionCancel(c, By(u, w), v, By(c, v), whole);
  }

  lemma SlopeFraction(b: real, db: real, v: real, dv: real, z: real, w: real, m: real)
    requires v != 0.0 && m != 0.0 && z != 0.0 && w != 0.0 && w == By(v, z) && By(m, w) != 0.0 && By(v, w) != 0.0
    ensures SlopeOf(-b, -db, By(m, w), By(m, By(m, By(z, dv)))) == -db / By(m, w) + By(b, dv) / By(v, w)
  {
    var d, dd := By(m, w), By(m, By(m, By(z, dv)));
    ByNonZero(d, d);
    var square := By(d, d);
    assert By(-db, d) - By(-b, dd) == By(-db, d) + By(b, dd);
    FractionSum(By(-db, d), By(b, dd), square);
    FractionCancel(-db, d, d, By(-db, d), square);
    var k := By(z, By(m, m));
    ByNonZero(m, m);
    ByNonZero(z, By(m, m));
    assert By(b, dd) == By(b, dv) * k by { SlopeTop(b, dv, z, m); }
    assert square == By(v, w) * k by { SlopeBottom(v, z, w, m); }
    FractionCancel(By(b, dv), By(v, w), k, By(b, dd), square);
  }

  lemma SlopeTop(b: real, dv: real, z: real, m: real)
    ensures By(b, By(m, By(m, By(z, dv)))) == By(By(b, dv), By(z, By(m, m)))
  {
    hide By;
    ByTwice(m, m, By(z, dv));
    ByTwice(By(m, m), z, dv);
    BySwap(By(m, m), z);
    BySwap(By(By(m, m), z), dv);
    ByTwice(By(m, m), z, dv);
    ByTwice(b, dv, By(z, By(m, m)));
  }

  lemma SlopeBottom(v: real, z: real, w: real, m: real)
    requires w == By(v, z)
    ensures By(By(m, w), By(m, w)) == By(By(v, w), By(z, By(m, m)))
  {
    hide By;
    ByTwice(m, w, By(m, w));
    ByTwice(w, m, w);
    ByTwice(m, m, By(w, w));
    BySwap(By(m, m), By(w, w));
    ByTwice(v, z, w);
    ByTwice(z, v, w);
    BySwap(z, By(v, w));
    ByTwice(By(v, w), z, By(m, m));
  }

  lemma NextFraction(db: real, c: real, u: real, w: real, m: real)
    requires u != 0.0 && w != 0.0 && m != 0.0 && By(u, w) != 0.0 && By(m, w) != 0.0
    ensures (c + By(1.0 / m, By(db, u))) / By(u, w) == c / By(u, w) + db / By(m, w)
  {
    FractionSum(c, By(1.0 / m, By(db, u)), By(u, w));
    var k := u / m;
    QuotientNonZero(u, m);
    assert k * m == u;
    assert By(1.0 / m, By(db, u)) == db * k by { assert 1.0 / m * u == k; }
    assert By(u, w) == By(m, w) * k;
    FractionCancel(db, By(m, w), k, By(1.0 / m, By(db, u)), By(u, w));
  }

  /** One pass of the loop for the factor `v` of multiplicity `i`. */
  ghost function Stepped(r: Reduction, u: Poly, v: Poly, b: Poly, c: Poly, i: nat): Reduction
    requires i >= 2
  {
    Reduction(r.rational + [Quotient(Scaled(-1.0, b), Scaled((i - 1) as real, Power(v, i - 1)))], r.poly,
              Add(c, Scaled(Ratio(1.0, (i - 1) as real), Mul(Diff(b), u))), Mul(u, Power(v, i - 1)))
  }

  lemma SlopeAppend(rational: seq<Quotient>, q: Quotient, x: real)
    requires Defined(rational, x) && Eval(q.den, x) != 0.0
    ensures Defined(rational + [q], x) && SlopeSum(rational + [q], x) == SlopeSum(rational, x) + Slope(q, x)
  {
    hide Eval, Slope;
    assert (rational + [q])[..|rational|] == rational;
  }

  lemma CurrentValues(r: Reduction, u: Poly, v: Poly, b: Poly, c: Poly, i: nat, x: real)
    requires i >= 2 && r.den == Mul(Power(v, i), u) && Split(r.num, u, v, b, c)
    ensures var e, z := Eval(v, x), PowerOf(Eval(v, x), i - 2);
      && Eval(r.den, x) == By(By(e, By(e, z)), Eval(u, x)) && PowerOf(e, i - 1) == By(e, z)
      && Eval(r.num, x) == By(Eval(b, x), By(Eval(u, x), Eval(Diff(v), x))) + By(Eval(c, x), e)
  {
    hide Mul, Add, Diff, Eval, By, Power;
    EvalMul(Power(v, i), u, x);
    EvalPower(v, i, x);
    EvalAdd(Mul(b, Mul(u, Diff(v))), Mul(c, v), x);
    EvalMul(b, Mul(u, Diff(v)), x);
    EvalMul(u, Diff(v), x);
    EvalMul(c, v, x);
  }

  lemma QuotientValues(b: Poly, v: Poly, n: nat, x: real)
    requires n >= 1
    ensures var q, m := Quotient(Scaled(-1.0, b), Scaled(n as real, Power(v, n))), n as real;
      && Eval(q.num, x) == -Eval(b, x) && Eval(Diff(q.num), x) == -Eval(Diff(b), x)
      && Eval(q.den, x) == By(m, PowerOf(Eval(v, x), n))
      && Eval(Diff(q.den), x) == By(m, By(m, By(PowerOf(Eval(v, x), n - 1), Eval(Diff(v), x))))
  {
    hide *;
    EvalScaled(-1.0, b, x);
    ByConstant(Eval(b, x));
    DiffScaled(-1.0, b, x);
    ByConstant(Eval(Diff(b), x));
    EvalScaled(n as real, Power(v, n), x);
    EvalPower(v, n, x);
    DiffScaled(n as real, Power(v, n), x);
    DiffPower(v, n, x);
  }

  lemma NextValues(c: Poly, b: Poly, u: Poly, v: Poly, k: real, n: nat, x: real)
    ensures Eval(Add(c, Scaled(k, Mul(Diff(b), u))), x) == Eval(c, x) + By(k, By(Eval(Diff(b), x), Eval(u, x)))
    ensures Eval(Mul(u, Power(v, n)), x) == By(Eval(u, x), PowerOf(Eval(v, x), n))
  {
    hide *;
    EvalAdd(c, Scaled(k, Mul(Diff(b), u)), x);
    EvalScaled(k, Mul(Diff(b), u), x);
    EvalMul(Diff(b), u, x);
    EvalMul(u, Power(v, n), x);
    EvalPower(v, n, x);
  }

  lemma StepParts(r: Reduction, q: Quotient, num: Poly, den: Poly, u: Poly, v: Poly, b: Poly, c: Poly, i: nat, x: real)
    requires i >= 2 && r.den == Mul(Power(v, i), u) && Split(r.num, u, v, b, c) && Eval(r.den, x) != 0.0
    requires q == Quotient(Scaled(-1.0, b), Scaled((i - 1) as real, Power(v, i - 1)))
    requires num == Add(c, Scaled(Ratio(1.0, (i - 1) as real), Mul(Diff(b), u))) && den == Mul(u, Power(v, i - 1))
    ensures Eval(q.den, x) != 0.0 && Eval(den, x) != 0.0
    ensures Ratio(Eval(r.num, x), Eval(r.den, x)) == Slope(q, x) + Ratio(Eval(num, x), Eval(den, x))
  {
    hide *;
    var m, e, z := (i - 1) as real, Eval(v, x), PowerOf(Eval(v, x), i - 2);
    CurrentValues(r, u, v, b, c, i, x);
    NonZeroParts(e, z, Eval(u, x));
    QuotientValues(b, v, i - 1, x);
    NextValues(c, b, u, v, Ratio(1.0, m), i - 1, x);
    StepValues(Eval(r.num, x), Eval(b, x), Eval(Diff(b), x), Eval(c, x), Eval(u, x), e, Eval(Diff(v), x), z, By(e, z),
      m);
    SlopeIs(q, x);
  }

  lemma SlopeIs(q: Quotient, x: real)
    requires Eval(q.den, x) != 0.0
    ensures Slope(q, x) == SlopeOf(Eval(q.num, x), Eval(Diff(q.num), x), Eval(q.den, x), Eval(Diff(q.den), x))
  {
  }

  /** The values of everything a step computes. */
  lemma StepAt(r: Reduction, u: Poly, v: Poly, b: Poly, c: Poly, i: nat, x: real)
    requires i >= 2 && r.den == Mul(Power(v, i), u) && Split(r.num, u, v, b, c) && Eval(r.den, x) != 0.0
    ensures var next := Stepped(r, u, v, b, c, i);
      var q := next.rational[|r.rational|];
      && Eval(q.den, x) != 0.0 && Eval(next.den, x) != 0.0
      && Ratio(Eval(r.num, x), Eval(r.den, x)) == Slope(q, x) + Ratio(Eval(next.num, x), Eval(next.den, x))
  {
    var next := Stepped(r, u, v, b, c, i);
    var q := next.rational[|r.rational|];
    hide Mul, Add, Scaled, Diff, Eval, Power, Split, Ratio, Slope;
    StepParts(r, q, next.num, next.den, u, v, b, c, i, x);
  }

  lemma NonZeroParts(v: real, z: real, u: real)
    requires By(By(v, By(v, z)), u) != 0.0
    ensures v != 0.0 && z != 0.0 && u != 0.0
  {
    hide By;
    if v == 0.0 || z == 0.0 || u == 0.0 {
      ByConstant(v);
      ByConstant(u);
      ByConstant(By(v, z));
      ByConstant(By(v, By(v, z)));
    }
  }

  lemma ConservesStep(a0: Poly, d0: Poly, r: Reduction, u: Poly, v: Poly, b: Poly, c: Poly, i: nat)
    requires i >= 2 && r.den == Mul(Power(v, i), u) && Split(r.num, u, v, b, c) && Conserves(a0, d0, r)
    ensures Conserves(a0, d0, Stepped(r, u, v, b, c, i))
  {
    var next := Stepped(r, u, v, b, c, i);
    var q := next.rational[|r.rational|];
    assert next.rational == r.rational + [q] && next.poly == r.poly;
    hide Mul, Eval, Split, Stepped, SlopeSum, Slope, Defined, Ratio;
    forall x | Eval(d0, x) != 0.0 ensures EqualAt(a0, d0, next, x) {
      assert EqualAt(a0, d0, r, x);
      StepAt(r, u, v, b, c, i, x);
      SlopeAppend(r.rational, q, x);
    }
  }

  /** a = d * q + r, so a / d = q + r / d. */
  lemma ConservesStart(a: Poly, d: Poly, q: Poly, r: Poly)
    requires Division(a, d, q, r)
    ensures Conserves(a, d, Reduction([], q, r, d))
  {
    hide Mul, Add, Eval, By, Ratio;
    var start := Reduction([], q, r, d);
    forall x | Eval(d, x) != 0.0 ensures EqualAt(a, d, start, x) {
      EvalAdd(Mul(d, q), r, x);
      EvalMul(d, q, x);
      StartValues(Eval(a, x), Eval(d, x), Eval(q, x), Eval(r, x));
    }
  }

  lemma StartValues(a: real, d: real, q: real, r: real)
    requires d != 0.0 && a == By(d, q) + r
    ensures Ratio(a, d) == q + Ratio(r, d)
  {
    FractionSum(By(d, q), r, d);
    assert By(d, q) / d == q by { FractionCancel(q, 1.0, d, By(d, q), d); }
  }

  /** Cancelling a common factor first. */
  lemma ConservesCancelled(a: Poly, d: Poly, g: Poly, r: Reduction)
    requires Conserves(a, d, r)
    ensures Conserves(Mul(g, a), Mul(g, d), r)
  {
    hide Mul, Eval, By, Defined, SlopeSum, Ratio;
    forall x | Eval(Mul(g, d), x) != 0.0 ensures EqualAt(Mul(g, a), Mul(g, d), r, x) {
      EvalMul(g, a, x);
      EvalMul(g, d, x);
      CancelValues(Eval(g, x), Eval(a, x), Eval(d, x));
      assert EqualAt(a, d, r, x);
    }
  }

  lemma CancelValues(g: real, a: real, d: real)
    requires By(g, d) != 0.0
    ensures d != 0.0 && Ratio(By(g, a), By(g, d)) == Ratio(a, d)
  {
    assert d != 0.0 by { ByConstant(g); }
    assert g != 0.0 by { ByConstant(d); }
    FractionCancel(a, d, g, By(g, a), By(g, d));
  }

  // ----- Proper fractions -----

  /** The next fraction is proper when the current one is. */
  lemma StepProper(a: Poly, u: Poly, v: Poly, b: Poly, c: Poly, i: nat, scale: real)
    requires Trimmed(a) && Trimmed(u) && Trimmed(v) && Trimmed(b) && Trimmed(c) && i >= 2 && u != [] && |v| >= 2
    requires |b| < |v|
    requires Split(a, u, v, b, c) && |a| < |Mul(Power(v, i), u)| && scale != 0.0
    ensures |Add(c, Scaled(scale, Mul(Diff(b), u)))| < |Mul(u, Power(v, i - 1))|
  {
    assert a == Add(Mul(b, Mul(u, Diff(v))), Mul(c, v));
    var w := Mul(u, Diff(v));
    DiffDegree(v);
    DiffDegree(b);
    hide *;
    PowerSizes(v, u, i);
    MulNonZero(u, Diff(v));
    LengthOfProduct(b, w);
    LengthOfProduct(Diff(b), u);
    ScaledLength(scale, Mul(Diff(b), u));
    AddLength(c, Scaled(scale, Mul(Diff(b), u)));
    SubAdd(a, Mul(b, w), Mul(c, v));
    AddLength(a, Mul(b, w));
    LengthOfProduct(c, v);
  }

  lemma LengthOfProduct(p: Poly, q: Poly)
    requires Trimmed(p) && Trimmed(q) && q != []
    ensures |Mul(p, q)| == if p == [] then 0 else |p| + |q| - 1
  {
    hide Mul;
    if p == [] {
      MulZero(q);
    } else {
      MulNonZero(p, q);
    }
  }

  lemma PowerIsNonZero(v: Poly, n: nat)
    requires Trimmed(v) && v != []
    ensures Power(v, n) != [] && Trimmed(Power(v, n))
  {
    PowerLength(v, n);
  }

  lemma PowerSizes(v: Poly, u: Poly, i: nat)
    requires Trimmed(v) && Trimmed(u) && u != [] && |v| >= 2 && i >= 2
    ensures |Mul(Power(v, i), u)| == |Mul(u, Power(v, i - 1))| + |v| - 1
    ensures |Mul(u, Power(v, i - 1))| >= |u| + |v| - 1
  {
    hide *;
    PowerUnfolds(v, i, 0.0);
    PowerUnfolds(v, i - 1, 0.0);
    PowerIsNonZero(v, i);
    PowerIsNonZero(v, i - 1);
    PowerIsNonZero(v, i - 2);
    MulNonZero(v, Power(v, i - 1));
    MulNonZero(v, Power(v, i - 2));
    MulNonZero(Power(v, i), u);
    MulNonZero(u, Power(v, i - 1));
  }

  // ----- The loop -----

  /** The multiplicities as the loop has lowered them: factor `k` stands at `i`, later ones below two. */
  ghost predicate Lowered(parts: seq<Part>, sq: seq<Part>, k: nat, i: nat) {
    && |sq| == |parts| && k < |parts| && sq[k].times == i
    && (forall j :: 0 <= j < |parts| ==> sq[j].factor == parts[j].factor)
    && (forall j :: k < j < |parts| ==> sq[j].times <= 1)
  }

  /** The greatest multiplicity. */
  method MaxTimes(sq: seq<Part>) returns (m: nat)
    ensures forall j :: 0 <= j < |sq| ==> sq[j].times <= m
    ensures m > 0 ==> exists j :: 0 <= j < |sq| && sq[j].times == m
  {
    m := 0;
    for j := 0 to |sq|
      invariant forall h :: 0 <= h < j ==> sq[h].times <= m
      invariant m > 0 ==> exists h :: 0 <= h < |sq| && sq[h].times == m
    {
      if sq[j].times > m {
        m := sq[j].times;
      }
    }
  }

  /** The last factor of multiplicity `i`, or one. */
  method PickFactor(sq: seq<Part>, i: nat) returns (v: Poly)
    ensures (forall j :: 0 <= j < |sq| ==> sq[j].times != i) ==> v == [1.0]
    ensures forall k :: 0 <= k < |sq| && sq[k].times == i && (forall j :: k < j < |sq| ==> sq[j].times != i) ==>
      v == sq[k].factor
  {
    v := [1.0];
    for j := 0 to |sq|
      invariant (forall h :: 0 <= h < j ==> sq[h].times != i) ==> v == [1.0]
      invariant forall k :: 0 <= k < j && sq[k].times == i && (forall h :: k < h < j ==> sq[h].times != i) ==>
        v == sq[k].factor
    {
      if sq[j].times == i {
        v := sq[j].factor;
      }
    }
  }

  /** Every factor of multiplicity `i` gets multiplicity `i - 1`. */
  method LowerTimes(sq: seq<Part>, i: nat) returns (r: seq<Part>)
    requires i > 0
    ensures |r| == |sq|
    ensures forall j :: 0 <= j < |sq| ==> r[j] == if sq[j].times == i then Part(sq[j].factor, i - 1) else sq[j]
  {
    r := sq;
    for j := 0 to |sq|
      invariant |r| == |sq|
      invariant forall h :: 0 <= h < |sq| ==>
        r[h] == if h < j && sq[h].times == i then Part(sq[h].factor, i - 1) else sq[h]
    {
      if r[j].times == i {
        r := r[j := Part(r[j].factor, i - 1)];
      }
    }
  }

  lemma EgcdOne(g: Poly, w: Poly, v: Poly, s: Poly, t: Poly, a: Poly)
    requires IsGcd(g, w, v, s, t) && Coprime(w, v) && (g == [] || Monic(g)) && Trimmed(a)
    ensures g == [1.0] && Trimmed(g) && Combination(w, v, s, t) == [1.0] && Mul(g, a) == a
  {
    hide Coprime, Divides, Combination, Mul;
    CoprimeGcd(g, w, v, s, t);
    MulOne(a);
  }

  lemma DivisionFacts(a: Poly, b: Poly, q: Poly, r: Poly)
    requires Division(a, b, q, r)
    ensures Trimmed(q) && Trimmed(r) && |r| < |b| && a == Add(Mul(b, q), r)
  {
  }

  lemma SplitIs(a: Poly, u: Poly, v: Poly, b: Poly, c: Poly)
    requires a == Add(Mul(b, Mul(u, Diff(v))), Mul(c, v))
    ensures Split(a, u, v, b, c)
  {
  }

  lemma ScaleNonZero(i: nat)
    requires i >= 2
    ensures Ratio(1.0, (i - 1) as real) != 0.0
  {
    QuotientNonZero(1.0, (i - 1) as real);
  }

  /** The quotients that are split off are proper fractions. */
  ghost predicate AllProper(rational: seq<Quotient>) {
    forall j :: 0 <= j < |rational| ==> |rational[j].num| < |rational[j].den|
  }

  lemma NothingSplit()
    ensures AllProper([])
  {
  }

  /** What a pass splits off is a proper fraction. */
  lemma ProperAppend(r: Reduction, u: Poly, v: Poly, b: Poly, c: Poly, i: nat)
    requires i >= 2 && Trimmed(v) && Trimmed(b) && |b| < |v| && AllProper(r.rational)
    ensures AllProper(Stepped(r, u, v, b, c, i).rational)
  {
    var q := Quotient(Scaled(-1.0, b), Scaled((i - 1) as real, Power(v, i - 1)));
    assert Stepped(r, u, v, b, c, i).rational == r.rational + [q];
    hide Power, Scaled, Stepped, Trimmed;
    ProperQuotient(v, b, i);
  }

  lemma ProperQuotient(v: Poly, b: Poly, i: nat)
    requires i >= 2 && Trimmed(v) && Trimmed(b) && |b| < |v|
    ensures |Scaled(-1.0, b)| < |Scaled((i - 1) as real, Power(v, i - 1))|
  {
    hide *;
    PowerIsNonZero(v, i - 1);
    PowerLength(v, i - 1);
    ScaledLength(-1.0, b);
    ScaledLength((i - 1) as real, Power(v, i - 1));
    AtLeastSelf(i - 1, |v| - 1);
  }

  lemma AtLeastSelf(k: nat, x: nat)
    requires k >= 1
    ensures x <= k * x
  {
  }

  /** The body of the loop for the factor `v`, with `u` the rest of the denominator. */
  method ReduceOnce(r: Reduction, v: Poly, i: nat, ghost u: Poly)
    returns (next: Reduction, ghost b: Poly, ghost c: Poly)
    requires i >= 2 && Trimmed(v) && |v| >= 2 && Trimmed(u) && u != [] && Trimmed(r.num)
    requires r.den == Mul(Power(v, i), u) && Coprime(Mul(u, Diff(v)), v) && |r.num| < |r.den|
    ensures Split(r.num, u, v, b, c) && next == Stepped(r, u, v, b, c, i) && |next.num| < |next.den|
    ensures Trimmed(next.num) && (AllProper(r.rational) ==> AllProper(next.rational))
  {
    PowerIsNonZero(v, i);
    hide Trimmed, Mul, Power, Coprime, Diff, IsGcd, Combination, Division, Split, Add, Scaled, Ratio, Monic, Eval, By;
    hide Divides, AllProper;
    var vi := Power(v, i);
    var w := DivideOut(vi, u, r.den);
    var dv := Diff(v);
    var wdv := Mul(w, dv);
    var gcd, s, t := PolyEgcd(wdv, v);
    EgcdOne(gcd, wdv, v, s, t, r.num);
    var factor := DivideOut(gcd, r.num, r.num);
    var b0 := Mul(s, factor);
    var c0 := Mul(t, factor);
    var d := PolyDiv(b0, v);
    var q, b1 := d.value.0, d.value.1;
    var c1 := Add(c0, Mul(q, wdv));
    DivisionFacts(b0, v, q, b1);
    SplitBy(r.num, wdv, v, s, t, q, b1);
    SplitIs(r.num, u, v, b1, c1);
    b, c := b1, c1;
    var power := Power(v, i - 1);
    var denom := Scaled((i - 1) as real, power);
    var db := Diff(b1);
    var term2 := Scaled(Ratio(1.0, (i - 1) as real), Mul(db, w));
    next := Reduction(r.rational + [Quotient(Scaled(-1.0, b1), denom)], r.poly, Add(c1, term2), Mul(w, power));
    ScaleNonZero(i);
    if AllProper(r.rational) { ProperAppend(r, u, v, b1, c1, i); }
    StepProper(r.num, u, v, b1, c1, i, Ratio(1.0, (i - 1) as real));
  }

  // ----- The whole reduction -----

  /** currentD, the factor whose multiplicity is going down, and what the next pass needs. */
  ghost predicate LoopState(a: Poly, d: Poly, parts: seq<Part>, sq: seq<Part>, k: nat, i: nat, r: Reduction) {
    && Lowered(parts, sq, k, i) && Trimmed(r.num) && |r.num| < |r.den| && Conserves(a, d, r)
    && r.den == Mul(Power(parts[k].factor, i), Expand(Without(parts, k))) && AllProper(r.rational)
  }

  /** Of the most frequent repeated factor one copy is left in `den`, of the other factors all; without a repeated
      factor everything is left. */
  ghost predicate Stripped(parts: seq<Part>, d: Poly, den: Poly) {
    && (forall k :: 0 <= k < |parts| && MostFrequent(parts, k) ==>
          d == Mul(den, Power(parts[k].factor, parts[k].times - 1)))
    && ((forall k :: 0 <= k < |parts| ==> parts[k].times < 2) ==> den == d)
  }

  ghost predicate MostFrequent(parts: seq<Part>, k: nat) {
    k < |parts| && parts[k].times >= 2 && forall j :: 0 <= j < |parts| ==> parts[j].times <= parts[k].times
  }

  lemma LoopStart(a: Poly, d: Poly, parts: seq<Part>, m: nat, r: Reduction) returns (k: nat)
    requires Decomposes(parts, d) && m >= 2 && (forall j :: 0 <= j < |parts| ==> parts[j].times <= m)
    requires (exists j :: 0 <= j < |parts| && parts[j].times == m)
    requires Trimmed(r.num) && |r.num| < |r.den| && Conserves(a, d, r) && r.den == d && r.rational == []
    ensures LoopState(a, d, parts, parts, k, m, r) && k < |parts| && parts[k].times == m && MostFrequent(parts, k)
  {
    hide Expand, Radical, HasNoSquare, Conserves, Mul, Coprime, Power;
    k :| 0 <= k < |parts| && parts[k].times == m;
    FactorCoprime(parts, d, k);
    forall j | k < j < |parts| ensures parts[j].times <= 1 { }
  }

  lemma LoopNext(a: Poly, d: Poly, parts: seq<Part>, sq: seq<Part>, k: nat, i: nat, r: Reduction, b: Poly, c: Poly,
                 lowered: seq<Part>)
    requires LoopState(a, d, parts, sq, k, i, r) && i >= 2 && k < |parts|
    requires Split(r.num, Expand(Without(parts, k)), parts[k].factor, b, c)
    requires |lowered| == |sq|
    requires forall j :: 0 <= j < |sq| ==> lowered[j] == if sq[j].times == i then Part(sq[j].factor, i - 1) else sq[j]
    requires var next := Stepped(r, Expand(Without(parts, k)), parts[k].factor, b, c, i);
      |next.num| < |next.den| && Trimmed(next.num) && (AllProper(r.rational) ==> AllProper(next.rational))
    ensures LoopState(a, d, parts, lowered, k, i - 1, Stepped(r, Expand(Without(parts, k)), parts[k].factor, b, c, i))
  {
    hide Expand, Conserves, Mul, Split, Power, Add, Scaled, Diff, Without, Trimmed, AllProper;
    ConservesStep(a, d, r, Expand(Without(parts, k)), parts[k].factor, b, c, i);
    MulCommutes(Expand(Without(parts, k)), Power(parts[k].factor, i - 1));
  }

  /** What the chosen factor and the rest of the denominator satisfy. */
  lemma LoopFacts(a: Poly, d: Poly, parts: seq<Part>, sq: seq<Part>, k: nat, i: nat, r: Reduction)
    requires LoopState(a, d, parts, sq, k, i, r) && Decomposes(parts, d) && d != [] && i >= 2 && k < |parts|
    requires parts[k].times >= 2
    ensures var v, u := parts[k].factor, Expand(Without(parts, k));
      && sq[k].factor == v && sq[k].times == i && |sq| == |parts| && (forall j :: k < j < |sq| ==> sq[j].times != i)
      && Trimmed(v) && |v| >= 2 && u != [] && Trimmed(r.num) && r.den == Mul(Power(v, i), u)
      && Coprime(Mul(u, Diff(v)), v) && |r.num| < |r.den|
  {
    hide Expand, Radical, HasNoSquare, Conserves, Mul, Coprime, Power, Diff, Trimmed, Without;
    FactorCoprime(parts, d, k);
    MulZero(Power(parts[k].factor, parts[k].times));
  }

  /** One pass of the loop. */
  method Pass(ghost a: Poly, ghost d: Poly, ghost parts: seq<Part>, sq: seq<Part>, ghost k: nat, i: nat, r: Reduction)
    returns (lowered: seq<Part>, next: Reduction)
    requires LoopState(a, d, parts, sq, k, i, r) && Decomposes(parts, d) && d != [] && i >= 2 && k < |parts|
    requires parts[k].times >= 2
    ensures LoopState(a, d, parts, lowered, k, i - 1, next)
  {
    hide *;
    ghost var v0, u := parts[k].factor, Expand(Without(parts, k));
    LoopFacts(a, d, parts, sq, k, i, r);
    var v := PickFactor(sq, i);
    assert v == v0;
    next, lowered := r, sq;
    if |v| - 1 > 0 {
      ghost var b, c;
      next, b, c := ReduceOnce(r, v, i, u);
      lowered := LowerTimes(sq, i);
      LoopNext(a, d, parts, sq, k, i, r, b, c, lowered);
    }
  }

  /** The loop from the greatest multiplicity down to two. */
  method ReduceAll(ghost a: Poly, d: Poly, parts: seq<Part>, start: Reduction) returns (r: Reduction)
    requires Decomposes(parts, d) && d != [] && Trimmed(start.num) && start.den == d && |start.num| < |d|
    requires Conserves(a, d, start) && start.rational == []
    ensures Conserves(a, d, r) && |r.num| < |r.den| && AllProper(r.rational)
    ensures Stripped(parts, d, r.den)
    ensures HasNoSquare(r.den) <==> OnePower(d)
  {
    hide *;
    OnePowerExactly(parts, d);
    var m := MaxTimes(parts);
    r := start;
    if m < 2 {
      NothingRepeated(parts, d);
      NothingSplit();
    } else {
      ghost var k := LoopStart(a, d, parts, m, r);
      var sq, i := parts, m;
      while i >= 2
        invariant 1 <= i <= m && LoopState(a, d, parts, sq, k, i, r)
      {
        sq, r := Pass(a, d, parts, sq, k, i, r);
        i := i - 1;
      }
      LoopEnd(a, d, parts, sq, k, r);
    }
  }

  lemma NothingRepeated(parts: seq<Part>, d: Poly)
    requires Decomposes(parts, d) && forall j :: 0 <= j < |parts| ==> parts[j].times < 2
    ensures HasNoSquare(d) && AtMostOneRepeated(parts) && Stripped(parts, d, d)
  {
    hide Expand, Radical, HasNoSquare;
    ExpandIsRadical(parts);
  }

  lemma LoopEnd(a: Poly, d: Poly, parts: seq<Part>, sq: seq<Part>, k: nat, r: Reduction)
    requires LoopState(a, d, parts, sq, k, 1, r) && Decomposes(parts, d) && MostFrequent(parts, k)
    ensures Conserves(a, d, r) && |r.num| < |r.den| && (HasNoSquare(r.den) <==> AtMostOneRepeated(parts))
    ensures AllProper(r.rational) && Stripped(parts, d, r.den)
  {
    hide Expand, Radical, HasNoSquare, Conserves, Mul, AtMostOneRepeated, Trimmed, Stripped, AllProper, Power;
    PowerSingle(parts[k].factor);
    ReducedExactly(parts, d, k);
    OneCopyLeft(parts, d, k, r.den);
  }

  lemma OneCopyLeft(parts: seq<Part>, d: Poly, k: nat, den: Poly)
    requires Decomposes(parts, d) && MostFrequent(parts, k)
    requires den == Mul(parts[k].factor, Expand(Without(parts, k)))
    ensures Stripped(parts, d, den)
  {
    hide Expand, Radical, HasNoSquare, Mul, Without;
    var v, m, u := parts[k].factor, parts[k].times, Expand(Without(parts, k));
    PickOut(parts, k);
    assert Power(v, m) == Mul(v, Power(v, m - 1));
    MulAssociative(v, u, Power(v, m - 1));
    MulCommutes(u, Power(v, m - 1));
    MulAssociative(v, Power(v, m - 1), u);
    assert d == Mul(den, Power(v, m - 1));
    hide Power;
    forall h | 0 <= h < |parts| && MostFrequent(parts, h) ensures h == k { }
  }

  /** The fraction in lowest terms, and why that is what dividing by the gcd gives. */
  lemma LowestTerms(a0: Poly, d0: Poly, g: Poly, s: Poly, t: Poly) returns (a: Poly, d: Poly)
    requires IsGcd(g, a0, d0, s, t) && d0 != [] && Trimmed(a0) && Trimmed(d0)
    ensures Trimmed(a) && Trimmed(d) && a0 == Mul(g, a) && d0 == Mul(g, d) && Coprime(a, d) && d != [] && g != []
    ensures Trimmed(g)
    ensures g == [1.0] ==> a == a0 && d == d0
  {
    hide Mul, Add, Divides, Coprime;
    a := Cofactor(g, a0);
    d := Cofactor(g, d0);
    MulZero(g);
    MulZero(d);
    MulOne(a);
    MulOne(d);
    MulOne(g);
    EmptyTrimmed();
    MulSwap(s, g, a);
    MulSwap(t, g, d);
    MulAdd(g, Mul(s, a), Mul(t, d));
    Cancel(g, Combination(a, d, s, t), [1.0]);
    CoprimeBy(a, d, s, t);
  }

  /** An integrand that is a polynomial. */
  lemma ConservesPolynomial(a: Poly, d: Poly, q: Poly)
    requires Conserves(a, d, Reduction([], q, [], d))
    ensures Conserves(a, d, Reduction([], q, [], [1.0]))
  {
    hide Eval;
    forall x | Eval(d, x) != 0.0 ensures EqualAt(a, d, Reduction([], q, [], [1.0]), x) {
      assert EqualAt(a, d, Reduction([], q, [], d), x);
      EvalConstant(1.0, x);
    }
  }

  /** An integrand in lowest terms that is a polynomial has a constant denominator. */
  lemma PolynomialDenominator(a: Poly, d: Poly, q: Poly)
    requires Coprime(a, d) && Trimmed(d) && Division(a, d, q, [])
    ensures OnePower(d) && HasNoSquare([1.0]) && |d| == 1 && Decomposes([Part(d, 1)], d)
  {
    assert Trimmed([1.0]);
    hide *;
    DivisionFacts(a, d, q, []);
    DivisionIs(a, d, q);
    AddZero(Mul(d, q));
    DividesBy(d, q, a);
    DividesSelf(d);
    CommonConstant(a, d, d);
    ConstantNoSquare(d);
    ConstantNoSquare([1.0]);
    NoSquareIsOnePower(d);
    SinglePart(d);
  }

  lemma ShortDivisor(r: Poly, d: Poly)
    requires r != [] && |r| < |d|
    ensures |d| != 1
  {
  }

  lemma DivisionIs(a: Poly, d: Poly, q: Poly)
    requires Division(a, d, q, [])
    ensures Trimmed(q) && a == Add(Mul(d, q), []) && Trimmed(Mul(d, q))
  {
  }

  /**
   * hermiteReduce: fails exactly for the zero denominator. Otherwise the integrand, in lowest terms a / d, is the
   * derivative of the rational part plus the polynomial part plus a proper fraction. In the denominator of that
   * fraction one copy of the most frequent factor of d is left and every other factor as often as in d, so it is
   * without squares exactly when d is one power times a square-free rest: the loop picks one factor for each
   * multiplicity, and a factor whose multiplicity comes down takes the place of the others.
   */
  method Reduce(a0: Poly, d0: Poly)
    returns (out: Result<Reduction>, ghost g: Poly, ghost a: Poly, ghost d: Poly, ghost parts: seq<Part>)
    requires Trimmed(a0) && Trimmed(d0)
    ensures out.DivisionByZero? <==> d0 == []
    ensures out.Ok? ==> a0 == Mul(g, a) && d0 == Mul(g, d) && Coprime(a, d)
    ensures out.Ok? && a0 != [] && Coprime(a0, d0) ==> d == d0
    ensures out.Ok? ==> Conserves(a0, d0, out.value) && |out.value.num| < |out.value.den|
    ensures out.Ok? ==> Decomposes(parts, d) && AllProper(out.value.rational)
    ensures out.Ok? ==>
      if |d| == 1 then out.value.rational == [] && out.value.num == [] && out.value.den == [1.0]
      else Stripped(parts, d, out.value.den)
    ensures out.Ok? ==> (HasNoSquare(out.value.den) <==> OnePower(d))
  {
    hide *;
    g, a, d, parts := [], [], [], [];
    var num, den := a0, d0;
    var gcd, s, t := PolyGcd(a0, d0);
    if d0 == [] {
      return DivisionByZero, g, a, d, parts;
    }
    g := gcd;
    a, d := LowestTerms(a0, d0, gcd, s, t);
    if Coprime(a0, d0) && a0 != [] { CoprimeGcd(gcd, a0, d0, s, t); }
    if gcd != [1.0] && gcd != [] {
      num := DivideOut(gcd, a, a0);
      den := DivideOut(gcd, d, d0);
    }
    var qr := PolyDiv(num, den);
    var q, r := qr.value.0, qr.value.1;
    ConservesStart(a, d, q, r);
    DivisionFacts(a, d, q, r);
    if r == [] {
      ConservesPolynomial(a, d, q);
      PolynomialDenominator(a, d, q);
      NothingSplit();
      parts := [Part(d, 1)];
      ConservesCancelled(a, d, g, Reduction([], q, [], [1.0]));
      out := Ok(Reduction([], q, [], [1.0]));
      return;
    }
    ShortDivisor(r, den);
    var list := Decompose(den);
    parts := list;
    var result := ReduceAll(a, den, list, Reduction([], q, r, den));
    ConservesCancelled(a, d, g, result);
    out := Ok(result);
  }

  // ----- Two repeated factors -----

  lemma LinearValues(c: real, x: real)
    ensures Eval([c, 1.0], x) == c + x && Eval(Diff([c, 1.0]), x) == 1.0
  {
    assert [c, 1.0][1..] == [1.0];
    EvalConstant(1.0, x);
    EvalDiff([c, 1.0], x);
    DerivativeTail([c, 1.0], x);
    assert Derivative([1.0]) == [];
  }

  ghost function TwoParts(): seq<Part> {
    [Part([0.0, 1.0], 2), Part([1.0, 1.0], 3)]
  }

  lemma TwoPartsDecompose()
    ensures Decomposes(TwoParts(), Expand(TwoParts())) && !AtMostOneRepeated(TwoParts())
  {
    var parts := TwoParts();
    assert parts[0].times >= 2 && parts[1].times >= 2 && WellFormed(parts);
    hide Expand, Radical, Coprime, Mul, Diff, WellFormed;
    RadicalOfTwo(parts[0], parts[1]);
    LinearProduct([0.0, 1.0], [1.0, 1.0]);
  }

  /** x^2 * (x + 1)^3 is not one power, so no decomposition of it has fewer than two repeated parts. */
  lemma TwoRepeatedParts()
    ensures var d := Expand(TwoParts());
      !OnePower(d) && forall parts :: Decomposes(parts, d) ==> !AtMostOneRepeated(parts)
  {
    hide *;
    TwoPartsDecompose();
    TwoPartsNonZero();
    var d := Expand(TwoParts());
    OnePowerExactly(TwoParts(), d);
    forall other | Decomposes(other, d) ensures !AtMostOneRepeated(other) { OnePowerExactly(other, d); }
  }

  lemma {:induction false} ExpandNonZero(parts: seq<Part>)
    requires forall j :: 0 <= j < |parts| ==> Trimmed(parts[j].factor) && parts[j].factor != []
    ensures Expand(parts) != []
  {
    hide Mul, Power;
    if parts != [] {
      var last := parts[|parts| - 1];
      ExpandNonZero(parts[..|parts| - 1]);
      PowerIsNonZero(last.factor, last.times);
      MulNonZero(Expand(parts[..|parts| - 1]), Power(last.factor, last.times));
    }
  }

  /** Reducing 1 / (x^2 * (x + 1)^3) leaves a denominator with a square. */
  method SquareStays(d: Poly) returns (r: Reduction)
    requires d == Expand(TwoParts())
    ensures Conserves([1.0], d, r) && !HasNoSquare(r.den)
  {
    assert Trimmed([1.0]);
    hide *;
    TwoRepeatedParts();
    TwoPartsNonZero();
    CoprimeOne(d);
    var out, g, a, d', parts := Reduce([1.0], d);
    r := out.value;
  }

  lemma TwoPartsNonZero()
    ensures Expand(TwoParts()) != []
  {
    ExpandNonZero(TwoParts());
  }

  lemma RadicalOfTwo(first: Part, second: Part)
    requires Trimmed(first.factor)
    ensures Radical([first, second]) == Mul(first.factor, second.factor)
  {
    var none: seq<Part> := [];
    assert none + [first] == [first] && [first] + [second] == [first, second];
    assert Radical(none) == [1.0];
    hide *;
    ProductsAppend(none, first);
    ProductsAppend([first], second);
    MulOne(first.factor);
  }

  /** -4 * (x^2 + x) + (2 * x + 1)^2 = 1 */
  lemma LinearProduct(u: Poly, v: Poly)
    requires u == [0.0, 1.0] && v == [1.0, 1.0]
    ensures Coprime(Mul(u, v), Diff(Mul(u, v)))
  {
    hide *;
    var r := Mul(u, v);
    var d := Diff(r);
    forall x ensures Eval(Combination(r, d, [-4.0], d), x) == Eval([1.0], x) {
      LinearValues(0.0, x);
      LinearValues(1.0, x);
      EvalMul(u, v, x);
      DiffMul(u, v, x);
      EvalMul([-4.0], r, x);
      EvalMul(d, d, x);
      EvalAdd(Mul([-4.0], r), Mul(d, d), x);
      EvalConstant(-4.0, x);
      EvalConstant(1.0, x);
      CombinationIs(r, d, [-4.0], d);
      SquareValues(x, Eval(r, x), Eval(d, x));
    }
    EmptyTrimmed();
    CombinationIs(r, d, [-4.0], d);
    ByValues(Combination(r, d, [-4.0], d), [1.0]);
    CoprimeBy(r, d, [-4.0], d);
  }

  lemma CombinationIs(a: Poly, b: Poly, s: Poly, t: Poly)
    ensures Combination(a, b, s, t) == Add(Mul(s, a), Mul(t, b)) && Trimmed(Combination(a, b, s, t))
  {
  }

  lemma SquareValues(x: real, r: real, d: real)
    requires r == By(0.0 + x, 1.0 + x) && d == By(1.0, 1.0 + x) + By(0.0 + x, 1.0)
    ensures By(-4.0, r) + By(d, d) == 1.0
  {
    assert d == 1.0 + 2.0 * x;
    assert r == x + x * x;
    assert d * d == 1.0 + 4.0 * x + 4.0 * (x * x);
  }
}
