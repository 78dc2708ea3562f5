/** The norm of a form against its coefficients, from below and from above. */
module FormNorms {
  import opened RealProducts
  import opened BinaryForms

  function Factorial(n: nat): (r: nat)
    ensures r > 0
  {
    if n == 0 then 1 else n * Factorial(n - 1)
  }

  function Weight(n: nat, i: nat): (r: nat)
    requires i <= n
    ensures r > 0
  {
    Factorial(i) * Factorial(n - i)
  }

  lemma WeightStep(n: nat, i: nat)
    requires 1 <= n && i <= n
    ensures i > 0 ==> Weight(n, i) == i * Weight(n - 1, i - 1)
    ensures i < n ==> Weight(n, i) == (n - i) * Weight(n - 1, i)
  {
    var a, b := Factorial(i), Factorial(n - i);
    if i > 0 {
      assert a == i * Factorial(i - 1);
      Regroup(i, Factorial(i - 1), b);
    }
    if i < n {
      assert b == (n - i) * Factorial(n - i - 1);
      Regroup(n - i, Factorial(n - i - 1), a);
    }
  }

  lemma Regroup(k: nat, x: nat, y: nat)
    ensures (k * x) * y == k * (x * y) && y * (k * x) == k * (y * x)
  {
  }

  /** What coefficient `i` of f contributes to the norm. */
  function Part(f: Form, i: nat): real
    requires i < |f|
  {
    By(By(f[i], f[i]), Weight(|f| - 1, i) as real)
  }

  lemma PartOfDerivatives(f: Form, i: nat)
    requires i < |f| && |f| >= 2
    ensures i > 0 ==> Part(Dx(f), i - 1) == By(i as real, Part(f, i))
    ensures i < |f| - 1 ==> Part(Dy(f), i) == By((|f| - 1 - i) as real, Part(f, i))
  {
    var n := |f| - 1;
    WeightStep(n, i);
    hide By, Weight;
    if i > 0 {
      assert Dx(f)[i - 1] == By(i as real, f[i]);
      Squared(i, f[i], Weight(n - 1, i - 1), Weight(n, i));
    }
    if i < n {
      assert Dy(f)[i] == By((n - i) as real, f[i]);
      Squared(n - i, f[i], Weight(n - 1, i), Weight(n, i));
    }
  }

  /** One coefficient is not more than the whole. */
  lemma {:induction false} NormAbove(f: Form, i: nat)
    requires i < |f|
    ensures Inner(f, f) >= Part(f, i)
    decreases |f|
  {
    var n := |f| - 1;
    if n == 0 {
      assert Weight(0, 0) == 1;
      ByConstant(By(f[0], f[0]));
    } else {
      hide Inner, Part, By, Dx, Dy;
      InnerNonNegative(Dx(f));
      InnerNonNegative(Dy(f));
      InnerTimes(f, f);
      PartOfDerivatives(f, i);
      if i > 0 { NormAbove(Dx(f), i - 1); }
      if i < n { NormAbove(Dy(f), i); }
      ByConstant(Part(f, i));
      Parts(n, i, Part(f, i), Inner(f, f));
    }
  }

  /** (k * c)^2 * w = k * (c^2 * (k * w)) */
  lemma Squared(k: nat, c: real, w: nat, kw: nat)
    requires kw == k * w
    ensures By(By(By(k as real, c), By(k as real, c)), w as real) == By(k as real, By(By(c, c), kw as real))
  {
    var x := k as real;
    assert kw as real == By(x, w as real);
    hide By;
    ByTwice(x, c, By(x, c));
    ByTwice(c, x, c);
    ByTwice(By(x, By(x, By(c, c))), w as real, 1.0);
    ByTwice(x, By(x, By(c, c)), w as real);
    ByTwice(x, By(c, c), w as real);
    ByTwice(By(c, c), x, w as real);
  }

  /** n * a >= i * t + (n - i) * t gives a >= t. */
  lemma Parts(n: nat, i: nat, t: real, a: real)
    requires n > 0 && i <= n && By(n as real, a) >= By(i as real, t) + By((n - i) as real, t)
    ensures a >= t
  {
    assert (i as real) + ((n - i) as real) == n as real;
    if a < t {
      Monotone(n as real, a, t);
      BySum(t, i as real, (n - i) as real);
      BySwap(n as real, t);
    }
  }

  lemma Monotone(x: real, a: real, b: real)
    requires x > 0.0 && a < b
    ensures By(x, a) < By(x, b)
  {
    assert x * (b - a) > 0.0;
  }

  // ----- From above -----

  function Magnitude(c: real): (r: real)
    ensures r >= 0.0
  {
    if c < 0.0 then -c else c
  }

  /** The sum of the magnitudes of the coefficients. */
  function Size(f: Form): (r: real)
    ensures r >= 0.0
  {
    if f == [] then 0.0 else Size(f[..|f| - 1]) + Magnitude(f[|f| - 1])
  }

  /** The same, every coefficient times its position. */
  function Moment(f: Form): real {
    if f == [] then 0.0 else Moment(f[..|f| - 1]) + By((|f| - 1) as real, Magnitude(f[|f| - 1]))
  }

  lemma MagnitudeTimes(k: nat, c: real)
    ensures Magnitude(By(k as real, c)) == By(k as real, Magnitude(c))
  {
    if c < 0.0 {
      assert By(k as real, -c) == -By(k as real, c);
    }
  }

  lemma {:induction false} SizeDx(f: Form)
    ensures Size(Dx(f)) == Moment(f)
  {
    hide By, Magnitude;
    if |f| == 1 {
      ByConstant(Magnitude(f[0]));
    } else if |f| >= 2 {
      var n := |f| - 1;
      SizeDx(f[..n]);
      assert Dx(f)[..n - 1] == Dx(f[..n]) && Dx(f)[n - 1] == By(n as real, f[n]);
      MagnitudeTimes(n, f[n]);
    }
  }

  lemma {:induction false} SizeDy(f: Form, j: nat)
    requires j < |f|
    ensures Size(Dy(f)[..j]) + Moment(f[..j]) == By((|f| - 1) as real, Size(f[..j]))
  {
    hide By, Magnitude, Dy;
    var n := (|f| - 1) as real;
    if j == 0 {
      ByConstant(n);
    } else {
      var i := j - 1;
      SizeDy(f, i);
      assert Dy(f)[..j][..i] == Dy(f)[..i] && f[..j][..i] == f[..i];
      assert Dy(f)[i] == By((|f| - 1 - i) as real, f[i]) by { DyIs(f, i); }
      MagnitudeTimes(|f| - 1 - i, f[i]);
      BySum(n, Size(f[..i]), Magnitude(f[i]));
      BySum(Magnitude(f[i]), (|f| - 1 - i) as real, i as real);
    }
  }

  lemma DyIs(f: Form, i: nat)
    requires i + 1 < |f|
    ensures Dy(f)[i] == By((|f| - 1 - i) as real, f[i])
  {
  }

  lemma SizeLast(f: Form)
    requires f != []
    ensures var n := |f| - 1; Size(f) == Size(f[..n]) + Magnitude(f[n])
    ensures var n := |f| - 1; Moment(f) == Moment(f[..n]) + By(n as real, Magnitude(f[n]))
  {
    hide By, Magnitude;
  }

  lemma DyLength(f: Form)
    requires f != []
    ensures |Dy(f)| == |f| - 1
  {
  }

  /** The derivatives share the size, as often as the degree says. */
  lemma SizeOfDerivatives(f: Form)
    requires f != []
    ensures Size(Dx(f)) + Size(Dy(f)) == By((|f| - 1) as real, Size(f))
  {
    hide *;
    var n := |f| - 1;
    SizeLast(f);
    DyLength(f);
    SizeDx(f);
    SizeDy(f, n);
    assert Dy(f)[..n] == Dy(f);
    BySum(n as real, Size(f[..n]), Magnitude(f[n]));
  }

  /** The whole is not more than n! times the square of the size. */
  lemma {:induction false} NormBelow(f: Form)
    requires f != []
    ensures Inner(f, f) <= By(Factorial(|f| - 1) as real, By(Size(f), Size(f)))
    decreases |f|
  {
    var n := |f| - 1;
    if n == 0 {
      assert f[..0] == [] && Size(f) == Magnitude(f[0]) && Factorial(0) == 1;
      ByConstant(By(Size(f), Size(f)));
      assert By(Size(f), Size(f)) == By(f[0], f[0]);
    } else {
      assert Factorial(n) == n * Factorial(n - 1);
      hide Inner, Size, Dx, Dy, By;
      NormBelow(Dx(f));
      NormBelow(Dy(f));
      InnerTimes(f, f);
      SizeOfDerivatives(f);
      SquareOfSum(n, Factorial(n - 1), Factorial(n), Size(Dx(f)), Size(Dy(f)), Size(f), Inner(f, f));
    }
  }

  lemma SquareOfSum(n: nat, w: nat, nw: nat, a: real, b: real, s: real, norm: real)
    requires n > 0 && nw == n * w && a >= 0.0 && b >= 0.0 && a + b == By(n as real, s)
    requires By(n as real, norm) <= By(w as real, By(a, a)) + By(w as real, By(b, b))
    ensures norm <= By(nw as real, By(s, s))
  {
    var x, y := n as real, w as real;
    assert nw as real == By(x, y);
    assert By(a, a) + By(b, b) <= By(a + b, a + b) by { SumSquare(a, b); }
    AtMost(y, By(a, a) + By(b, b), By(a + b, a + b));
    assert By(a + b, a + b) == By(x, By(x, By(s, s))) by {
      hide By;
      ByTwice(x, s, By(x, s));
      ByTwice(s, x, s);
    }
    hide By;
    BySum(y, By(a, a), By(b, b));
    ByTwice(y, x, By(x, By(s, s)));
    ByTwice(y, x, By(s, s));
    ByTwice(x, y, By(s, s));
    if norm > By(nw as real, By(s, s)) { Monotone(x, By(nw as real, By(s, s)), norm); }
  }

  lemma SumSquare(a: real, b: real)
    requires a >= 0.0 && b >= 0.0
    ensures By(a, a) + By(b, b) <= By(a + b, a + b)
  {
    assert a * b >= 0.0;
    assert (a + b) * (a + b) == a * a + b * b + 2.0 * (a * b);
  }

  lemma AtMost(x: real, a: real, b: real)
    requires x >= 0.0 && a <= b
    ensures By(x, a) <= By(x, b)
  {
    assert x * (b - a) >= 0.0;
  }
}
