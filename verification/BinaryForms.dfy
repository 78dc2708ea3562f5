/** Homogeneous polynomials in two variables, lowest power of the first variable first: derivatives, products, and the
    inner product for which differentiation is adjoint to multiplication. */
module BinaryForms {
  import opened RealProducts

  /** The coefficient of x^i * y^(n-i) at position i; the degree n is one less than the length. */
  type Form = seq<real>

  function At(f: Form, k: int): real {
    if 0 <= k < |f| then f[k] else 0.0
  }

  function Dx(f: Form): (r: Form)
    ensures |r| == if f == [] then 0 else |f| - 1
  {
    if f == [] then [] else seq(|f| - 1, i requires 0 <= i < |f| - 1 => By((i + 1) as real, f[i + 1]))
  }

  function Dy(f: Form): (r: Form)
    ensures |r| == if f == [] then 0 else |f| - 1
  {
    if f == [] then [] else seq(|f| - 1, i requires 0 <= i < |f| - 1 => By((|f| - 1 - i) as real, f[i]))
  }

  function Plus(f: Form, g: Form): (r: Form)
    requires |f| == |g|
    ensures |r| == |f|
  {
    seq(|f|, i requires 0 <= i < |f| => f[i] + g[i])
  }

  function Scale(c: real, f: Form): (r: Form)
    ensures |r| == |f|
  {
    seq(|f|, i requires 0 <= i < |f| => By(c, f[i]))
  }

  function TimesX(f: Form): Form {
    [0.0] + f
  }

  function TimesY(f: Form): Form {
    f + [0.0]
  }

  // ----- Linearity -----

  lemma DerivativePlus(f: Form, g: Form)
    requires |f| == |g|
    ensures Dx(Plus(f, g)) == Plus(Dx(f), Dx(g)) && Dy(Plus(f, g)) == Plus(Dy(f), Dy(g))
  {
    hide By;
    forall i | 0 <= i < |f| - 1
      ensures Dx(Plus(f, g))[i] == Plus(Dx(f), Dx(g))[i] && Dy(Plus(f, g))[i] == Plus(Dy(f), Dy(g))[i]
    {
      BySum((i + 1) as real, f[i + 1], g[i + 1]);
      BySum((|f| - 1 - i) as real, f[i], g[i]);
    }
  }

  lemma DerivativeScale(c: real, f: Form)
    ensures Dx(Scale(c, f)) == Scale(c, Dx(f)) && Dy(Scale(c, f)) == Scale(c, Dy(f))
  {
    hide By;
    forall i | 0 <= i < |f| - 1
      ensures Dx(Scale(c, f))[i] == Scale(c, Dx(f))[i] && Dy(Scale(c, f))[i] == Scale(c, Dy(f))[i]
    {
      ByTwice((i + 1) as real, c, f[i + 1]);
      ByTwice((|f| - 1 - i) as real, c, f[i]);
    }
  }

  lemma DerivativesCommute(f: Form)
    ensures Dx(Dy(f)) == Dy(Dx(f))
  {
    hide By;
    forall i | 0 <= i < |f| - 2 ensures Dx(Dy(f))[i] == Dy(Dx(f))[i] {
      ByTwice((i + 1) as real, (|f| - 2 - i) as real, f[i + 1]);
    }
  }

  lemma DerivativeIs(f: Form, i: nat)
    requires i + 1 < |f|
    ensures Dx(f)[i] == By((i + 1) as real, f[i + 1]) && Dy(f)[i] == By((|f| - 1 - i) as real, f[i])
  {
    hide By;
  }

  lemma TimesXIs(f: Form, i: nat)
    requires i <= |f|
    ensures |TimesX(f)| == |f| + 1 && TimesX(f)[i] == if i == 0 then 0.0 else f[i - 1]
  {
  }

  /** (x * f)' = f + x * f' for its own variable, and x * f' for the other one. */
  lemma DerivativeTimesXAt(f: Form, i: nat)
    requires i < |f|
    ensures |TimesX(f)| == |f| + 1 && |TimesX(Dx(f))| == |TimesX(Dy(f))| == |f|
    ensures Dx(TimesX(f))[i] == f[i] + TimesX(Dx(f))[i] && Dy(TimesX(f))[i] == TimesX(Dy(f))[i]
  {
    hide By, Dx, Dy, TimesX;
    TimesXIs(f, i);
    TimesXIs(f, i + 1);
    TimesXIs(Dx(f), i);
    TimesXIs(Dy(f), i);
    DerivativeIs(TimesX(f), i);
    ByConstant(f[i]);
    if i == 0 {
      ByConstant(|f| as real);
    } else {
      DerivativeIs(f, i - 1);
      BySum(f[i], i as real, 1.0);
    }
  }

  lemma DerivativeTimesX(f: Form)
    requires f != []
    ensures Dx(TimesX(f)) == Plus(f, TimesX(Dx(f))) && Dy(TimesX(f)) == TimesX(Dy(f))
  {
    hide By, Dx, Dy, TimesX;
    forall i | 0 <= i < |f|
      ensures |TimesX(f)| == |f| + 1 && |TimesX(Dx(f))| == |TimesX(Dy(f))| == |f|
      ensures Dx(TimesX(f))[i] == f[i] + TimesX(Dx(f))[i] && Dy(TimesX(f))[i] == TimesX(Dy(f))[i]
    {
      DerivativeTimesXAt(f, i);
    }
    DerivativeTimesXAt(f, 0);
  }

  lemma TimesYIs(f: Form, i: nat)
    requires i <= |f|
    ensures |TimesY(f)| == |f| + 1 && TimesY(f)[i] == if i == |f| then 0.0 else f[i]
  {
  }

  lemma DerivativeTimesYAt(f: Form, i: nat)
    requires i < |f|
    ensures |TimesY(f)| == |f| + 1 && |TimesY(Dx(f))| == |TimesY(Dy(f))| == |f|
    ensures Dy(TimesY(f))[i] == f[i] + TimesY(Dy(f))[i] && Dx(TimesY(f))[i] == TimesY(Dx(f))[i]
  {
    hide By, Dx, Dy, TimesY;
    TimesYIs(f, i);
    TimesYIs(f, i + 1);
    TimesYIs(Dx(f), i);
    TimesYIs(Dy(f), i);
    DerivativeIs(TimesY(f), i);
    ByConstant(f[i]);
    if i == |f| - 1 {
      ByConstant((i + 1) as real);
    } else {
      DerivativeIs(f, i);
      BySum(f[i], (|f| - 1 - i) as real, 1.0);
    }
  }

  lemma DerivativeTimesY(f: Form)
    requires f != []
    ensures Dy(TimesY(f)) == Plus(f, TimesY(Dy(f))) && Dx(TimesY(f)) == TimesY(Dx(f))
  {
    hide By, Dx, Dy, TimesY;
    forall i | 0 <= i < |f|
      ensures |TimesY(f)| == |f| + 1 && |TimesY(Dx(f))| == |TimesY(Dy(f))| == |f|
      ensures Dy(TimesY(f))[i] == f[i] + TimesY(Dy(f))[i] && Dx(TimesY(f))[i] == TimesY(Dx(f))[i]
    {
      DerivativeTimesYAt(f, i);
    }
    DerivativeTimesYAt(f, 0);
  }

  // ----- The inner product -----

  /** n * <f, g> = <f_x, g_x> + <f_y, g_y> */
  function Inner(f: Form, g: Form): real
    requires |f| == |g|
    decreases |f|
  {
    if |f| == 0 then 0.0 else if |f| == 1 then By(f[0], g[0]) else
      By(1.0 / ((|f| - 1) as real), Inner(Dx(f), Dx(g)) + Inner(Dy(f), Dy(g)))
  }

  lemma Undivided(n: real, x: real)
    requires n != 0.0
    ensures By(n, By(1.0 / n, x)) == x && By(1.0 / n, By(n, x)) == x
  {
    assert By(n, 1.0 / n) == 1.0 && By(1.0 / n, n) == 1.0;
    hide By;
    ByTwice(n, 1.0 / n, x);
    ByTwice(1.0 / n, n, x);
    ByConstant(x);
  }

  lemma InnerTimes(f: Form, g: Form)
    requires |f| == |g| && |f| >= 2
    ensures By((|f| - 1) as real, Inner(f, g)) == Inner(Dx(f), Dx(g)) + Inner(Dy(f), Dy(g))
  {
    var n, sum := (|f| - 1) as real, Inner(Dx(f), Dx(g)) + Inner(Dy(f), Dy(g));
    assert n != 0.0 && Inner(f, g) == By(1.0 / n, sum);
    hide *;
    Undivided(n, sum);
  }

  lemma {:induction false} InnerSwap(f: Form, g: Form)
    requires |f| == |g|
    ensures Inner(f, g) == Inner(g, f)
    decreases |f|
  {
    if |f| == 1 {
      BySwap(f[0], g[0]);
    } else if |f| >= 2 {
      InnerSwap(Dx(f), Dx(g));
      InnerSwap(Dy(f), Dy(g));
    }
  }

  lemma {:induction false} InnerPlus(f: Form, g: Form, h: Form)
    requires |f| == |g| == |h|
    ensures Inner(f, Plus(g, h)) == Inner(f, g) + Inner(f, h)
    decreases |f|
  {
    hide By;
    if |f| == 1 {
      BySum(f[0], g[0], h[0]);
    } else if |f| >= 2 {
      DerivativePlus(g, h);
      InnerPlus(Dx(f), Dx(g), Dx(h));
      InnerPlus(Dy(f), Dy(g), Dy(h));
      BySum(1.0 / ((|f| - 1) as real), Inner(Dx(f), Dx(g)) + Inner(Dy(f), Dy(g)),
        Inner(Dx(f), Dx(h)) + Inner(Dy(f), Dy(h)));
    }
  }

  lemma {:induction false} InnerScale(f: Form, c: real, g: Form)
    requires |f| == |g|
    ensures Inner(f, Scale(c, g)) == By(c, Inner(f, g))
    decreases |f|
  {
    hide By;
    if |f| == 0 {
      ByConstant(c);
    } else if |f| == 1 {
      ByTwice(f[0], c, g[0]);
    } else {
      DerivativeScale(c, g);
      InnerScale(Dx(f), c, Dx(g));
      InnerScale(Dy(f), c, Dy(g));
      BySum(c, Inner(Dx(f), Dx(g)), Inner(Dy(f), Dy(g)));
      ByTwice(1.0 / ((|f| - 1) as real), c, Inner(Dx(f), Dx(g)) + Inner(Dy(f), Dy(g)));
    }
  }

  lemma InnerZero(f: Form, z: Form)
    requires |f| == |z| && forall i :: 0 <= i < |z| ==> z[i] == 0.0
    ensures Inner(f, z) == 0.0 && Inner(z, f) == 0.0
  {
    hide By, Inner;
    forall i | 0 <= i < |z| ensures By(0.0, z[i]) == z[i] { ByConstant(z[i]); }
    assert Scale(0.0, z) == z;
    InnerScale(f, 0.0, z);
    ByConstant(Inner(f, z));
    InnerSwap(f, z);
  }

  lemma PositiveProduct(a: real, b: real)
    requires a >= 0.0 && b >= 0.0
    ensures By(a, b) >= 0.0
  {
  }

  lemma {:induction false} InnerNonNegative(f: Form)
    ensures Inner(f, f) >= 0.0
    decreases |f|
  {
    if |f| == 1 {
      assert f[0] * f[0] >= 0.0;
    } else if |f| >= 2 {
      InnerNonNegative(Dx(f));
      InnerNonNegative(Dy(f));
      assert 1.0 / ((|f| - 1) as real) >= 0.0;
      hide By;
      PositiveProduct(1.0 / ((|f| - 1) as real), Inner(Dx(f), Dx(f)) + Inner(Dy(f), Dy(f)));
    }
  }

  lemma CancelFactor(n: real, a: real, b: real)
    requires n != 0.0 && By(n, a) == By(n, b)
    ensures a == b
  {
    Undivided(n, a);
    Undivided(n, b);
  }

  /** Multiplying by a variable is adjoint to differentiating. */
  lemma {:induction false} AdjointX(f: Form, g: Form)
    requires g != [] && |f| == |g| + 1
    ensures Inner(f, TimesX(g)) == Inner(Dx(f), g)
    decreases |g|
  {
    var n := |g| as real;
    InnerTimes(f, TimesX(g));
    DerivativeTimesX(g);
    if |g| == 1 {
      ByConstant(Inner(f, TimesX(g)));
      hide By, Inner;
      InnerZero(Dy(f), TimesX(Dy(g)));
      assert Plus(g, TimesX(Dx(g))) == g;
    } else {
      hide By, Inner;
      AdjointX(Dx(f), Dx(g));
      AdjointX(Dy(f), Dy(g));
      InnerPlus(Dx(f), g, TimesX(Dx(g)));
      DerivativesCommute(f);
      InnerTimes(Dx(f), g);
      BySum(Inner(Dx(f), g), n - 1.0, 1.0);
      BySwap(Inner(Dx(f), g), n);
      BySwap(Inner(Dx(f), g), n - 1.0);
      ByConstant(Inner(Dx(f), g));
      CancelFactor(n, Inner(f, TimesX(g)), Inner(Dx(f), g));
    }
  }

  lemma {:induction false} AdjointY(f: Form, g: Form)
    requires g != [] && |f| == |g| + 1
    ensures Inner(f, TimesY(g)) == Inner(Dy(f), g)
    decreases |g|
  {
    var n := |g| as real;
    InnerTimes(f, TimesY(g));
    DerivativeTimesY(g);
    if |g| == 1 {
      ByConstant(Inner(f, TimesY(g)));
      hide By, Inner;
      InnerZero(Dx(f), TimesY(Dx(g)));
      assert Plus(g, TimesY(Dy(g))) == g;
    } else {
      hide By, Inner;
      AdjointY(Dy(f), Dy(g));
      AdjointY(Dx(f), Dx(g));
      InnerPlus(Dy(f), g, TimesY(Dy(g)));
      DerivativesCommute(f);
      InnerTimes(Dy(f), g);
      BySum(Inner(Dy(f), g), n - 1.0, 1.0);
      BySwap(Inner(Dy(f), g), n);
      BySwap(Inner(Dy(f), g), n - 1.0);
      ByConstant(Inner(Dy(f), g));
      CancelFactor(n, Inner(f, TimesY(g)), Inner(Dy(f), g));
    }
  }
}
