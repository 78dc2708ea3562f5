/** Polynomials in one variable over a field: coefficients lowest first, without leading zeros, and what they
    evaluate to (src/cas/Symbolic.cpp:4857-4882). */
module RationalPoly {
  import opened RealProducts

  type Poly = seq<real>

  predicate Trimmed(p: Poly) {
    p != [] ==> p[|p| - 1] != 0.0
  }

  /** The value of the polynomial at `x`. */
  function Eval(p: Poly, x: real): real {
    if p == [] then 0.0 else p[0] + By(x, Eval(p[1..], x))
  }

  ghost predicate Vanishes(p: Poly) {
    forall i :: 0 <= i < |p| ==> p[i] == 0.0
  }

  /** The same polynomial function. */
  ghost predicate Same(p: Poly, q: Poly) {
    forall x :: Eval(p, x) == Eval(q, x)
  }

  // ----- Operations; all results are without leading zeros -----

  function Trim(p: Poly): (r: Poly)
    ensures Trimmed(r) && r <= p && forall i :: |r| <= i < |p| ==> p[i] == 0.0
  {
    if p != [] && p[|p| - 1] == 0.0 then Trim(p[..|p| - 1]) else p
  }

  function Plus(p: Poly, q: Poly): (r: Poly)
    ensures |r| == if |p| >= |q| then |p| else |q|
  {
    if p == [] then q else if q == [] then p else [p[0] + q[0]] + Plus(p[1..], q[1..])
  }

  function Scale(c: real, p: Poly): (r: Poly)
    ensures |r| == |p| && forall i :: 0 <= i < |p| ==> r[i] == By(c, p[i])
  {
    seq(|p|, i requires 0 <= i < |p| => By(c, p[i]))
  }

  function Times(p: Poly, q: Poly): Poly {
    if p == [] then [] else Plus(Scale(p[0], q), [0.0] + Times(p[1..], q))
  }

  /** (a + x * r)' = r + x * r' */
  function Derivative(p: Poly): Poly {
    if |p| <= 1 then [] else Plus(p[1..], [0.0] + Derivative(p[1..]))
  }

  function Add(p: Poly, q: Poly): (r: Poly)
    ensures Trimmed(r)
  {
    Trim(Plus(p, q))
  }

  function Sub(p: Poly, q: Poly): (r: Poly)
    ensures Trimmed(r)
  {
    Trim(Plus(p, Scale(-1.0, q)))
  }

  function Mul(p: Poly, q: Poly): (r: Poly)
    ensures Trimmed(r)
  {
    Trim(Times(p, q))
  }

  /** Multiplication by a number. */
  function Scaled(c: real, p: Poly): (r: Poly)
    ensures Trimmed(r)
  {
    Trim(Scale(c, p))
  }

  /** diff */
  function Diff(p: Poly): (r: Poly)
    ensures Trimmed(r)
  {
    Trim(Derivative(p))
  }

  function Power(p: Poly, n: nat): (r: Poly)
    ensures Trimmed(r)
  {
    if n == 0 then [1.0] else Mul(p, Power(p, n - 1))
  }

  // ----- Evaluation -----

  lemma {:induction false} EvalAppend(p: Poly, c: real, x: real)
    requires c == 0.0
    ensures Eval(p + [c], x) == Eval(p, x)
  {
    hide By;
    ByConstant(x);
    if p == [] {
      assert Eval([c], x) == c + By(x, Eval([c][1..], x));
    } else {
      EvalAppend(p[1..], c, x);
      assert (p + [c])[1..] == p[1..] + [c];
    }
  }

  lemma {:induction false} EvalTrim(p: Poly, x: real)
    ensures Eval(Trim(p), x) == Eval(p, x)
  {
    if p != [] && p[|p| - 1] == 0.0 {
      EvalTrim(p[..|p| - 1], x);
      EvalAppend(p[..|p| - 1], 0.0, x);
      assert p == p[..|p| - 1] + [0.0];
    }
  }

  lemma {:induction false} EvalPlus(p: Poly, q: Poly, x: real)
    ensures Eval(Plus(p, q), x) == Eval(p, x) + Eval(q, x)
  {
    hide By;
    if p != [] && q != [] {
      EvalPlus(p[1..], q[1..], x);
      assert Plus(p, q)[1..] == Plus(p[1..], q[1..]);
      BySum(x, Eval(p[1..], x), Eval(q[1..], x));
    }
  }

  lemma ScaleTail(c: real, p: Poly)
    requires p != []
    ensures Scale(c, p)[1..] == Scale(c, p[1..])
  {
    forall i | 0 <= i < |p| - 1 ensures Scale(c, p)[1..][i] == Scale(c, p[1..])[i] {
      assert p[1..][i] == p[i + 1];
    }
  }

  lemma {:induction false} EvalScale(c: real, p: Poly, x: real)
    ensures Eval(Scale(c, p), x) == By(c, Eval(p, x))
  {
    hide By;
    if p == [] {
      ByConstant(c);
    } else {
      EvalScale(c, p[1..], x);
      ScaleTail(c, p);
      BySum(c, p[0], By(x, Eval(p[1..], x)));
      ByTwice(c, x, Eval(p[1..], x));
    }
  }

  lemma EvalShift(p: Poly, x: real)
    ensures Eval([0.0] + p, x) == By(x, Eval(p, x))
  {
    hide By;
    assert ([0.0] + p)[1..] == p;
  }

  lemma {:induction false} EvalTimes(p: Poly, q: Poly, x: real)
    ensures Eval(Times(p, q), x) == By(Eval(p, x), Eval(q, x))
  {
    hide By;
    if p == [] {
      ByConstant(Eval(q, x));
    } else {
      EvalTimes(p[1..], q, x);
      EvalScale(p[0], q, x);
      EvalShift(Times(p[1..], q), x);
      EvalPlus(Scale(p[0], q), [0.0] + Times(p[1..], q), x);
      BySum(Eval(q, x), p[0], By(x, Eval(p[1..], x)));
      ByTwice(x, Eval(p[1..], x), Eval(q, x));
    }
  }

  lemma EvalAdd(p: Poly, q: Poly, x: real)
    ensures Eval(Add(p, q), x) == Eval(p, x) + Eval(q, x)
  {
    EvalTrim(Plus(p, q), x);
    EvalPlus(p, q, x);
  }

  lemma EvalSub(p: Poly, q: Poly, x: real)
    ensures Eval(Sub(p, q), x) == Eval(p, x) - Eval(q, x)
  {
    hide By;
    EvalTrim(Plus(p, Scale(-1.0, q)), x);
    EvalPlus(p, Scale(-1.0, q), x);
    EvalScale(-1.0, q, x);
    ByConstant(Eval(q, x));
  }

  lemma EvalMul(p: Poly, q: Poly, x: real)
    ensures Eval(Mul(p, q), x) == By(Eval(p, x), Eval(q, x))
  {
    EvalTrim(Times(p, q), x);
    EvalTimes(p, q, x);
  }

  lemma EvalScaled(c: real, p: Poly, x: real)
    ensures Eval(Scaled(c, p), x) == By(c, Eval(p, x))
  {
    EvalTrim(Scale(c, p), x);
    EvalScale(c, p, x);
  }

  lemma EvalConstant(c: real, x: real)
    ensures Eval([c], x) == c && Eval([], x) == 0.0
  {
    assert Eval([c], x) == c + By(x, Eval([c][1..], x));
    ByConstant(x);
  }

  // ----- A polynomial is determined by its values -----

  /** p(x) = (x - r) * q(x) + p(r) */
  ghost function Quot(p: Poly, r: real): (q: Poly)
    ensures |q| == if p == [] then 0 else |p| - 1
  {
    if |p| <= 1 then [] else [Eval(p[1..], r)] + Quot(p[1..], r)
  }

  lemma {:induction false} QuotMeans(p: Poly, r: real, x: real)
    ensures Eval(p, x) == By(x - r, Eval(Quot(p, r), x)) + Eval(p, r)
  {
    hide By;
    ByConstant(x - r);
    if |p| <= 1 {
      ByConstant(x);
      ByConstant(r);
    } else {
      var s := p[1..];
      QuotMeans(s, r, x);
      assert Quot(p, r)[1..] == Quot(s, r);
      QuotStep(x, r, Eval(Quot(s, r), x), Eval(s, r));
    }
  }

  lemma QuotStep(x: real, r: real, q: real, e: real)
    ensures By(x, By(x - r, q) + e) == By(x - r, e + By(x, q)) + By(r, e)
  {
    assert By(x - r, e + By(x, q)) == By(x - r, e) + By(x - r, By(x, q)) by { BySum(x - r, e, By(x, q)); }
    assert By(x - r, By(x, q)) == By(x, By(x - r, q)) by { ByTwice(x - r, x, q); }
    assert By(x, By(x - r, q) + e) == By(x, By(x - r, q)) + By(x, e) by { BySum(x, By(x - r, q), e); }
    assert By(x - r + r, e) == By(x - r, e) + By(r, e) by { BySum(e, x - r, r); }
  }

  lemma {:induction false} QuotVanishes(p: Poly, r: real)
    requires Vanishes(Quot(p, r)) && Eval(p, r) == 0.0
    ensures Vanishes(p)
  {
    hide By;
    ByConstant(r);
    if |p| > 1 {
      var q := Quot(p, r);
      assert q[0] == Eval(p[1..], r) && q[1..] == Quot(p[1..], r);
      forall i | 0 <= i < |q[1..]| ensures q[1..][i] == 0.0 {
        assert q[i + 1] == 0.0;
      }
      QuotVanishes(p[1..], r);
      forall i | 0 <= i < |p| ensures p[i] == 0.0 {
        if i > 0 { assert p[1..][i - 1] == 0.0; }
      }
    }
  }

  ghost predicate ZeroAt(p: Poly, k: nat) {
    Eval(p, k as real) == 0.0
  }

  /** Zero at all integers from `n` on: all coefficients are zero. */
  lemma {:induction false} ZeroValues(p: Poly, n: nat)
    requires forall k: nat :: k >= n ==> ZeroAt(p, k)
    ensures Vanishes(p)
    decreases |p|
  {
    hide By;
    if p != [] {
      var q := Quot(p, n as real);
      assert ZeroAt(p, n);
      forall k: nat | k >= n + 1 ensures ZeroAt(q, k) {
        assert ZeroAt(p, k);
        QuotMeans(p, n as real, k as real);
        if Eval(q, k as real) != 0.0 { ByNonZero(k as real - n as real, Eval(q, k as real)); }
      }
      ZeroValues(q, n + 1);
      QuotVanishes(p, n as real);
    }
  }

  lemma {:induction false} PlusVanishes(p: Poly, q: Poly)
    requires Trimmed(p) && Trimmed(q) && Vanishes(Plus(p, Scale(-1.0, q)))
    ensures p == q
  {
    var m := Scale(-1.0, q);
    var d := Plus(p, m);
    if p != [] && q != [] {
      assert d[0] == p[0] + m[0] && d[1..] == Plus(p[1..], m[1..]);
      ScaleTail(-1.0, q);
      forall i | 0 <= i < |d[1..]| ensures d[1..][i] == 0.0 { assert d[i + 1] == 0.0; }
      PlusVanishes(p[1..], q[1..]);
      assert p == [p[0]] + p[1..] && q == [q[0]] + q[1..];
    }
  }

  /** Polynomials with the same values have the same coefficients. */
  lemma SameEqual(p: Poly, q: Poly)
    requires Trimmed(p) && Trimmed(q) && Same(p, q)
    ensures p == q
  {
    var d := Plus(p, Scale(-1.0, q));
    forall k: nat | k >= 0 ensures ZeroAt(d, k) {
      EvalPlus(p, Scale(-1.0, q), k as real);
      EvalScale(-1.0, q, k as real);
    }
    ZeroValues(d, 0);
    PlusVanishes(p, q);
  }

  // ----- Degrees -----

  lemma {:induction false} PlusLast(p: Poly, q: Poly)
    requires |p| < |q|
    ensures Plus(p, q)[|q| - 1] == q[|q| - 1]
  {
    if p != [] { PlusLast(p[1..], q[1..]); }
  }

  lemma PlusOne(s: Poly)
    requires s != []
    ensures Plus(s, [0.0]) == s
  {
    assert Plus(s, [0.0]) == [s[0] + 0.0] + Plus(s[1..], [0.0][1..]);
    assert s == [s[0]] + s[1..];
  }

  lemma {:induction false} TimesLast(p: Poly, q: Poly)
    requires p != [] && q != []
    ensures |Times(p, q)| == |p| + |q| - 1 && Times(p, q)[|p| + |q| - 2] == By(p[|p| - 1], q[|q| - 1])
  {
    hide By;
    if |p| == 1 {
      assert Times(p[1..], q) == [];
      PlusOne(Scale(p[0], q));
    } else {
      TimesLast(p[1..], q);
      assert p[1..][|p| - 2] == p[|p| - 1];
      PlusLast(Scale(p[0], q), [0.0] + Times(p[1..], q));
    }
  }

  lemma TrimNothing(p: Poly)
    requires Trimmed(p)
    ensures Trim(p) == p
  {
  }

  /** The degree of a product is the sum of the degrees. */
  lemma MulDegree(p: Poly, q: Poly)
    requires Trimmed(p) && Trimmed(q) && p != [] && q != []
    ensures |Mul(p, q)| == |p| + |q| - 1 && Mul(p, q)[|p| + |q| - 2] == By(p[|p| - 1], q[|q| - 1])
  {
    hide Times, Trim, By;
    TimesLast(p, q);
    ByNonZero(p[|p| - 1], q[|q| - 1]);
    TrimNothing(Times(p, q));
  }

  lemma {:induction false} PlusSameLength(p: Poly, q: Poly)
    requires |p| == |q|
    ensures forall i :: 0 <= i < |p| ==> Plus(p, q)[i] == p[i] + q[i]
  {
    if p != [] {
      PlusSameLength(p[1..], q[1..]);
      forall i | 0 <= i < |p| ensures Plus(p, q)[i] == p[i] + q[i] {
        if i > 0 { assert Plus(p, q)[i] == Plus(p[1..], q[1..])[i - 1]; }
      }
    }
  }

  /** The coefficients of the derivative. */
  lemma {:induction false} DerivativeAt(p: Poly)
    ensures |Derivative(p)| == if p == [] then 0 else |p| - 1
    ensures forall i :: 0 <= i < |p| - 1 ==> Derivative(p)[i] == By((i + 1) as real, p[i + 1])
  {
    if |p| > 1 {
      var r := p[1..];
      DerivativeAt(r);
      var d := [0.0] + Derivative(r);
      PlusSameLength(r, d);
      forall i | 0 <= i < |p| - 1 ensures Derivative(p)[i] == By((i + 1) as real, p[i + 1]) {
        if i > 0 {
          assert d[i] == By(i as real, r[i]);
          BySum(r[i], i as real, 1.0);
        }
        ByConstant(r[i]);
      }
    }
  }

  /** Differentiating lowers the degree by one. */
  lemma DiffDegree(p: Poly)
    requires Trimmed(p)
    ensures |Diff(p)| == if p == [] then 0 else |p| - 1
  {
    hide Derivative, Trim, By;
    DerivativeAt(p);
    if |p| > 1 {
      ByNonZero((|p| - 1) as real, p[|p| - 1]);
    }
    TrimNothing(Derivative(p));
  }

  // ----- The rules of differentiation -----

  lemma DerivativeTail(p: Poly, x: real)
    requires p != []
    ensures Eval(Derivative(p), x) == Eval(p[1..], x) + By(x, Eval(Derivative(p[1..]), x))
  {
    hide By, Plus;
    ByConstant(x);
    if |p| > 1 {
      EvalPlus(p[1..], [0.0] + Derivative(p[1..]), x);
      EvalShift(Derivative(p[1..]), x);
    }
  }

  lemma {:induction false} DerivativePlus(p: Poly, q: Poly, x: real)
    ensures Eval(Derivative(Plus(p, q)), x) == Eval(Derivative(p), x) + Eval(Derivative(q), x)
  {
    if p != [] && q != [] {
      var u, v := p[1..], q[1..];
      assert Plus(p, q)[1..] == Plus(u, v);
      hide *;
      DerivativePlus(u, v, x);
      DerivativeTail(p, x);
      DerivativeTail(q, x);
      DerivativeTail(Plus(p, q), x);
      EvalPlus(u, v, x);
      BySum(x, Eval(Derivative(u), x), Eval(Derivative(v), x));
    }
  }

  lemma {:induction false} DerivativeScale(c: real, p: Poly, x: real)
    ensures Eval(Derivative(Scale(c, p)), x) == By(c, Eval(Derivative(p), x))
  {
    if p == [] {
      ByConstant(c);
    } else {
      var r := p[1..];
      ScaleTail(c, p);
      hide Derivative, Eval, By;
      DerivativeScale(c, r, x);
      DerivativeTail(p, x);
      DerivativeTail(Scale(c, p), x);
      EvalScale(c, r, x);
      ByTwice(c, x, Eval(Derivative(r), x));
      BySum(c, Eval(r, x), By(x, Eval(Derivative(r), x)));
    }
  }

  lemma {:induction false} ProductRule(p: Poly, q: Poly, x: real)
    ensures Eval(Derivative(Times(p, q)), x) ==
      By(Eval(Derivative(p), x), Eval(q, x)) + By(Eval(p, x), Eval(Derivative(q), x))
  {
    if p == [] {
      ByConstant(Eval(q, x));
      ByConstant(Eval(Derivative(q), x));
    } else {
      var r := p[1..];
      var t := Times(r, q);
      assert Eval(p, x) == p[0] + By(x, Eval(r, x));
      hide Times, Plus, Scale, Eval, Derivative, By;
      ProductRule(r, q, x);
      TimesTail(p, q, x);
      DerivativeTail(p, x);
      EvalTimes(r, q, x);
      ProductStep(p[0], x, Eval(r, x), Eval(Derivative(r), x), Eval(q, x), Eval(Derivative(q), x));
    }
  }

  /** (a * q + x * t)' = a * q' + (t + x * t') */
  lemma TimesTail(p: Poly, q: Poly, x: real)
    requires p != []
    ensures var t := Times(p[1..], q);
      Eval(Derivative(Times(p, q)), x) ==
        By(p[0], Eval(Derivative(q), x)) + (Eval(t, x) + By(x, Eval(Derivative(t), x)))
  {
    var t := Times(p[1..], q);
    assert Times(p, q) == Plus(Scale(p[0], q), [0.0] + t) && ([0.0] + t)[1..] == t;
    hide Times, Plus, Scale, Eval, Derivative, By;
    DerivativePlus(Scale(p[0], q), [0.0] + t, x);
    DerivativeScale(p[0], q, x);
    DerivativeTail([0.0] + t, x);
  }

  lemma ProductStep(a: real, x: real, r: real, dr: real, q: real, dq: real)
    ensures By(a, dq) + (By(r, q) + By(x, By(dr, q) + By(r, dq))) == By(r + By(x, dr), q) + By(a + By(x, r), dq)
  {
    hide By;
    BySum(x, By(dr, q), By(r, dq));
    BySum(q, r, By(x, dr));
    BySum(dq, a, By(x, r));
    ByTwice(x, dr, q);
    ByTwice(x, r, dq);
  }

  /** Leading zeros do not matter to the derivative. */
  lemma {:induction false} DerivativeTrim(p: Poly, x: real)
    ensures Eval(Derivative(Trim(p)), x) == Eval(Derivative(p), x)
  {
    if p != [] && p[|p| - 1] == 0.0 {
      DerivativeTrim(p[..|p| - 1], x);
      DerivativeAppend(p[..|p| - 1], x);
      assert p == p[..|p| - 1] + [0.0];
    }
  }

  lemma {:induction false} DerivativeAppend(p: Poly, x: real)
    ensures Eval(Derivative(p + [0.0]), x) == Eval(Derivative(p), x)
  {
    hide By;
    if p != [] {
      DerivativeAppend(p[1..], x);
      assert (p + [0.0])[1..] == p[1..] + [0.0];
      DerivativeTail(p, x);
      DerivativeTail(p + [0.0], x);
      EvalAppend(p[1..], 0.0, x);
    }
  }

  lemma EvalDiff(p: Poly, x: real)
    ensures Eval(Diff(p), x) == Eval(Derivative(p), x)
  {
    EvalTrim(Derivative(p), x);
  }

  lemma DiffMul(p: Poly, q: Poly, x: real)
    ensures Eval(Diff(Mul(p, q)), x) == By(Eval(Diff(p), x), Eval(q, x)) + By(Eval(p, x), Eval(Diff(q), x))
  {
    hide Trim, Times, Eval, Derivative, Diff, By;
    EvalDiff(p, x);
    EvalDiff(q, x);
    EvalDiff(Mul(p, q), x);
    DerivativeTrim(Times(p, q), x);
    ProductRule(p, q, x);
  }

  lemma DiffAdd(p: Poly, q: Poly, x: real)
    ensures Eval(Diff(Add(p, q)), x) == Eval(Diff(p), x) + Eval(Diff(q), x)
  {
    hide Trim, Plus, Eval, Derivative, Diff, By;
    EvalDiff(p, x);
    EvalDiff(q, x);
    EvalDiff(Add(p, q), x);
    DerivativeTrim(Plus(p, q), x);
    DerivativePlus(p, q, x);
  }

  lemma DiffScaled(c: real, p: Poly, x: real)
    ensures Eval(Diff(Scaled(c, p)), x) == By(c, Eval(Diff(p), x))
  {
    hide Trim, Scale, Eval, Derivative, Diff, By;
    EvalDiff(p, x);
    EvalDiff(Scaled(c, p), x);
    DerivativeTrim(Scale(c, p), x);
    DerivativeScale(c, p, x);
  }
}
