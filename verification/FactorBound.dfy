/** The Mignotte bound: no coefficient of an integer factor exceeds it (src/cas/Factorization.cpp:1109-1116). */
module FactorBound {
  import opened IntegerGcd
  import opened IntegerPower
  import opened IntPoly
  import opened TrialDivision
  import opened Recombination
  import opened RealProducts
  import opened FormNorms
  import BinaryForms
  import FormProducts
  import BombieriInequality

  function RealForm(h: Poly): (r: BinaryForms.Form)
    ensures |r| == |h|
  {
    seq(|h|, i requires 0 <= i < |h| => h[i] as real)
  }

  /** The sum of the magnitudes of the coefficients. */
  function SumAbs(g: Poly): nat {
    if g == [] then 0 else SumAbs(g[..|g| - 1]) + Abs(g[|g| - 1])
  }

  lemma RealTimes(x: int, y: int)
    ensures By(x as real, y as real) == (x * y) as real
  {
  }

  lemma {:induction false} ConvReal(h: Poly, q: Poly, k: int)
    ensures FormProducts.Conv(RealForm(h), RealForm(q), k) == Conv(h, q, k) as real
  {
    if h != [] {
      var n := |h| - 1;
      assert RealForm(h)[..n] == RealForm(h[..n]);
      ConvReal(h[..n], q, k);
      hide By;
      RealTimes(h[n], At(q, k - n));
      assert BinaryForms.At(RealForm(q), k - n) == At(q, k - n) as real;
    }
  }

  lemma TimesReal(h: Poly, q: Poly)
    requires h != [] && q != []
    ensures FormProducts.Mul(RealForm(h), RealForm(q)) == RealForm(Times(h, q))
  {
    hide FormProducts.Conv, Conv;
    forall k | 0 <= k < |h| + |q| - 1
      ensures FormProducts.Mul(RealForm(h), RealForm(q))[k] == RealForm(Times(h, q))[k]
    {
      ConvReal(h, q, k);
    }
  }

  lemma {:induction false} SizeReal(g: Poly)
    ensures Size(RealForm(g)) == SumAbs(g) as real
  {
    if g != [] {
      var n := |g| - 1;
      assert RealForm(g)[..n] == RealForm(g[..n]);
      SizeReal(g[..n]);
    }
  }

  /** (a + b)! is at most 2^(a + b) * a! * b!. */
  lemma {:induction false} FactorialOfSum(a: nat, b: nat)
    ensures Factorial(a + b) <= Pow(2, a + b) * (Factorial(a) * Factorial(b))
    decreases a + b
  {
    if a == 0 || b == 0 {
      PowPositive(a + b);
      assert Factorial(a) * Factorial(b) == Factorial(a + b);
      AtLeastOnce(Pow(2, a + b), Factorial(a + b));
    } else {
      FactorialOfSum(a - 1, b);
      FactorialOfSum(a, b - 1);
      var half, fa, fb, f := Pow(2, a + b - 1), Factorial(a - 1), Factorial(b - 1), Factorial(a + b - 1);
      assert Factorial(a) == a * fa && Factorial(b) == b * fb && Factorial(a + b) == (a + b) * f;
      assert Pow(2, a + b) == 2 * half;
      SumStep(a, b, half, fa, fb, f);
    }
  }

  lemma {:induction false} PowPositive(n: nat)
    ensures Pow(2, n) >= n + 1
  {
    if n > 0 { PowPositive(n - 1); }
  }

  lemma AtLeastOnce(x: nat, y: nat)
    requires x >= 1
    ensures y <= x * y
  {
  }

  lemma SumStep(a: nat, b: nat, half: nat, fa: nat, fb: nat, f: nat)
    requires f <= half * (fa * (b * fb)) && f <= half * ((a * fa) * fb)
    ensures (a + b) * f <= 2 * half * ((a * fa) * (b * fb))
  {
    var t := (a * fa) * (b * fb);
    TimesMonotone(a, f, half * (fa * (b * fb)));
    TimesMonotone(b, f, half * ((a * fa) * fb));
    assert a * (half * (fa * (b * fb))) == half * t;
    assert b * (half * ((a * fa) * fb)) == half * t;
    assert (a + b) * f == a * f + b * f;
    assert 2 * half * t == half * t + half * t;
  }

  lemma TimesMonotone(x: nat, a: int, b: int)
    requires a <= b
    ensures x * a <= x * b
  {
  }

  /** With the weights cancelled. */
  lemma CoefficientSquare(c: nat, s: nat, m: nat, l: nat, i: nat)
    requires i <= m
    requires Bounded(c, Weight(m, i), Factorial(l), Factorial(m + l), s)
    ensures c <= Pow(2, m + l) * s
  {
    FactorialOfSum(m, l);
    FactorialOfSum(i, m - i);
    PowMonotone(m, m + l);
    var w, fl, fm, fn, pm, big := Weight(m, i), Factorial(l), Factorial(m), Factorial(m + l), Pow(2, m), Pow(2, m + l);
    assert fm <= pm * w && fn <= big * (fm * fl) && pm <= big;
    assert c * c * (w * fl) <= fn * (s * s);
    hide *;
    TimesMonotone(w, pm, big);
    Chain(fn, fm, big, w, fl);
    TimesMonotone(s * s, fn, big * big * (w * fl));
    PositiveTimes(w, fl);
    CancelSquares(c, s, big, w * fl);
  }

  lemma PositiveTimes(x: nat, y: nat)
    requires x > 0 && y > 0
    ensures x * y > 0
  {
  }

  lemma Chain(n: nat, m: nat, big: nat, w: nat, l: nat)
    requires n <= big * (m * l) && m <= big * w
    ensures n <= big * big * (w * l)
  {
    TimesMonotone(l, m, big * w);
    TimesMonotone(big, m * l, big * w * l);
    assert big * (big * w * l) == big * big * (w * l);
  }

  lemma CancelSquares(c: nat, s: nat, big: nat, w: nat)
    requires w > 0 && c * c * w <= s * s * (big * big * w)
    ensures c <= big * s
  {
    var b := big * s;
    assert s * s * (big * big * w) == b * b * w;
    if c > b { SquareGrows(c, b, w); }
  }

  lemma SquareGrows(c: nat, b: nat, w: nat)
    requires c > b && w > 0
    ensures c * c * w > b * b * w
  {
    TimesStrict(c, b, c);
    TimesMonotone(b, b, c);
    assert c * b == b * c;
    TimesStrict(w, b * b, c * c);
    hide *;
    assert w * (b * b) == b * b * w;
    assert w * (c * c) == c * c * w;
  }

  lemma TimesStrict(x: nat, a: nat, b: nat)
    requires x > 0 && a < b
    ensures x * a < x * b
  {
  }

  /** The squared bound, with the weights of the norm. */
  predicate Bounded(c: nat, w: nat, fl: nat, n: nat, s: nat) {
    c * c * (w * fl) <= n * (s * s)
  }

  lemma {:induction false} PowMonotone(m: nat, n: nat)
    requires m <= n
    ensures Pow(2, m) <= Pow(2, n)
    decreases n
  {
    if m < n {
      PowMonotone(m, n - 1);
      PowPositive(n - 1);
    }
  }

  /** Bombieri's inequality on the integers: one coefficient of a factor against all coefficients of the product. */
  lemma NormsCompared(h: Poly, q: Poly, i: nat)
    requires i < |h| && q != [] && q[|q| - 1] != 0
    ensures Bounded(Abs(h[i]), Weight(|h| - 1, i), Factorial(|q| - 1), Factorial(|h| + |q| - 2), SumAbs(Times(h, q)))
  {
    hide Times, Factorial, Weight, Abs, SumAbs;
    var m, l := |h| - 1, |q| - 1;
    var a, b, product := Norm(h), Norm(q), Norm(Times(h, q));
    assert Abs(q[l]) > 0 by { NotZero(q[l]); }
    assert a >= Weighted(Abs(h[i]), Weight(m, i)) as real by { NormOver(h, i); }
    assert b >= Weighted(Abs(q[l]), Factorial(l)) as real by {
      NormOver(q, l);
      LastWeight(l);
    }
    assert product >= By(a, b) by { NormOfTimes(h, q); }
    assert product <= By(Factorial(m + l) as real, By(SumAbs(Times(h, q)) as real, SumAbs(Times(h, q)) as real)) by {
      NormUnder(Times(h, q));
    }
    hide *;
    Conclusion(a, b, product, Abs(h[i]), Abs(q[l]), Weight(m, i), Factorial(l), Factorial(m + l), SumAbs(Times(h, q)));
  }

  lemma NotZero(x: int)
    requires x != 0
    ensures Abs(x) > 0
  {
  }

  function Norm(h: Poly): real {
    BinaryForms.Inner(RealForm(h), RealForm(h))
  }

  lemma NormOver(h: Poly, i: nat)
    requires i < |h|
    ensures Norm(h) >= Weighted(Abs(h[i]), Weight(|h| - 1, i)) as real
  {
    hide Part, Weighted, BinaryForms.Inner, Weight;
    PartReal(h, i);
    NormAbove(RealForm(h), i);
  }

  lemma NormUnder(g: Poly)
    requires g != []
    ensures Norm(g) <= By(Factorial(|g| - 1) as real, By(SumAbs(g) as real, SumAbs(g) as real))
  {
    hide By, BinaryForms.Inner, Size, SumAbs, Factorial;
    NormBelow(RealForm(g));
    SizeReal(g);
  }

  lemma NormOfTimes(h: Poly, q: Poly)
    requires h != [] && q != []
    ensures Norm(Times(h, q)) >= By(Norm(h), Norm(q))
  {
    hide By, BinaryForms.Inner, Times, FormProducts.Mul;
    TimesReal(h, q);
    BombieriInequality.NormOfProduct(RealForm(h), RealForm(q));
  }

  lemma LastWeight(l: nat)
    ensures Weight(l, l) == Factorial(l)
  {
    assert Factorial(0) == 1;
  }

  function Weighted(c: nat, w: nat): nat {
    c * c * w
  }

  lemma PartReal(h: Poly, i: nat)
    requires i < |h|
    ensures Part(RealForm(h), i) == Weighted(Abs(h[i]), Weight(|h| - 1, i)) as real
  {
    hide Weight, By;
    RealTimes(h[i], h[i]);
    RealTimes(h[i] * h[i], Weight(|h| - 1, i));
    assert h[i] * h[i] == Abs(h[i]) * Abs(h[i]);
  }

  lemma Conclusion(a: real, b: real, product: real, c: nat, d: nat, w: nat, fl: nat, n: nat, s: nat)
    requires a >= Weighted(c, w) as real && b >= Weighted(d, fl) as real && d > 0
    requires product >= By(a, b) && product <= By(n as real, By(s as real, s as real))
    ensures Bounded(c, w, fl, n, s)
  {
    hide By;
    RealTimes(s, s);
    RealTimes(n, s * s);
    DividesFactor(d, fl);
    Compared(a, b, c * c * w, fl);
    assert c * c * w * fl == c * c * (w * fl);
  }

  lemma DividesFactor(d: nat, w: nat)
    requires d > 0
    ensures d * d * w >= w
  {
    AtLeastOnce(d, d);
    AtLeastOnce(d * d, w);
  }

  lemma Compared(a: real, b: real, x: nat, y: nat)
    requires a >= x as real && b >= y as real
    ensures By(a, b) >= (x * y) as real
  {
    AtMost(a, y as real, b);
    AtMost(y as real, x as real, a);
    RealTimes(x, y);
    BySwap(y as real, a);
    BySwap(y as real, x as real);
  }

  /** No coefficient of a factor exceeds 2^n times the sum of the magnitudes. */
  lemma CoefficientBound(h: Poly, q: Poly, i: nat)
    requires i < |h| && q != [] && q[|q| - 1] != 0
    ensures Abs(h[i]) <= Pow(2, |h| + |q| - 2) * SumAbs(Times(h, q))
  {
    hide Times, Factorial, Weight, Pow, SumAbs;
    NormsCompared(h, q, i);
    CoefficientSquare(Abs(h[i]), SumAbs(Times(h, q)), |h| - 1, |q| - 1, i);
  }

  /** A prime above twice the bound is above twice every coefficient of every monic factor. */
  lemma BoundIsEnough(g: Poly, p: int)
    requires MonicOver(g) && p > 2 * (Pow(2, |g| - 1) * SumAbs(g))
    ensures AboveFactors(g, p)
  {
    hide Pow, SumAbs, Below, Times;
    forall a | MonicOver(a) && DividesOver(a, g) ensures Below(a, p) {
      var q :| Trimmed(q) && g == Times(q, a);
      FactorBelow(a, q, g, p);
    }
  }

  lemma FactorBelow(a: Poly, q: Poly, g: Poly, p: int)
    requires a != [] && g != [] && Trimmed(q) && g == Times(q, a) && p > 2 * (Pow(2, |g| - 1) * SumAbs(g))
    ensures Below(a, p)
  {
    assert q != [] && |g| == |a| + |q| - 1;
    hide Pow, SumAbs, Times, Abs;
    TimesCommutes(q, a);
    forall i | 0 <= i < |a| ensures 2 * Abs(a[i]) < p { CoefficientBound(a, q, i); }
  }

  /** The sum of the magnitudes, doubled as often as the degree says. */
  method Mignotte(g: Poly) returns (bound: nat)
    requires MonicOver(g)
    ensures bound >= |g|
    ensures forall p: int :: p > 2 * bound ==> AboveFactors(g, p)
  {
    hide AboveFactors, Pow;
    var sum := 0;
    for i := 0 to |g|
      invariant sum == SumAbs(g[..i])
    {
      sum := sum + Abs(g[i]);
      assert g[..i + 1][..i] == g[..i];
    }
    assert g[..|g|] == g;
    assert sum >= 1;
    bound := sum;
    var n := |g| - 1;
    PowStep(0);
    for i := 0 to n
      invariant bound == Pow(2, i) * sum
    {
      bound := bound * 2;
      assert Pow(2, i + 1) == 2 * Pow(2, i) by { PowStep(i); }
    }
    PowPositive(n);
    AtLeastOnce(sum, Pow(2, n));
    forall p: int | p > 2 * bound ensures AboveFactors(g, p) { BoundIsEnough(g, p); }
  }

  lemma PowStep(i: nat)
    ensures Pow(2, i + 1) == 2 * Pow(2, i) && Pow(2, 0) == 1
  {
  }
}
