/** Products of homogeneous polynomials: product rule, Euler's relation, and the operator adjoint to a product. */
module FormProducts {
  import opened RealProducts
  import opened BinaryForms

  /** The coefficient at position k of the product. */
  function Conv(p: Form, q: Form, k: int): real {
    if p == [] then 0.0 else Conv(p[..|p| - 1], q, k) + By(p[|p| - 1], At(q, k - (|p| - 1)))
  }

  function Mul(p: Form, q: Form): (r: Form)
    requires |p| + |q| >= 1
    ensures |r| == |p| + |q| - 1
  {
    seq(|p| + |q| - 1, k requires 0 <= k => Conv(p, q, k))
  }

  lemma ConvAppend(p: Form, c: real, q: Form, k: int)
    ensures Conv(p + [c], q, k) == Conv(p, q, k) + By(c, At(q, k - |p|))
  {
    assert (p + [c])[..|p|] == p;
  }

  lemma {:induction false} ConvOutside(p: Form, q: Form, k: int)
    requires k < 0 || k >= |p| + |q| - 1
    ensures Conv(p, q, k) == 0.0
  {
    hide By;
    if p != [] {
      ConvOutside(p[..|p| - 1], q, k);
      ByConstant(p[|p| - 1]);
    }
  }

  lemma DxAppend(p: Form, c: real)
    requires p != []
    ensures Dx(p + [c]) == Dx(p) + [By(|p| as real, c)]
  {
    hide By;
  }

  lemma ConvNothing(q: Form, k: int)
    ensures Conv([], q, k) == 0.0 && Dx([]) == []
  {
  }

  /** (k + 1) * (pq)(k + 1) = (p_x q)(k) + (p q_x)(k) */
  lemma {:induction false} ConvDx(p: Form, q: Form, k: int)
    requires k >= -1
    ensures By((k + 1) as real, Conv(p, q, k + 1)) == Conv(Dx(p), q, k) + Conv(p, Dx(q), k)
  {
    hide By, Conv, Dx, At;
    var c1 := (k + 1) as real;
    ConvNothing(q, k);
    ConvNothing(q, k + 1);
    ConvNothing(Dx(q), k);
    if p == [] {
      ByConstant(c1);
    } else {
      var n := |p| - 1;
      var front, c := p[..n], p[n];
      assert p == front + [c];
      ConvDx(front, q, k);
      ConvAppend(front, c, q, k + 1);
      ConvAppend(front, c, Dx(q), k);
      var at := At(q, k + 1 - n);
      BySum(c1, Conv(front, q, k + 1), By(c, at));
      LastDx(front, c, q, k);
      Weights(c1, n, k, c, at);
      DxAt(q, k - n);
    }
  }

  lemma LastDx(front: Form, c: real, q: Form, k: int)
    ensures Conv(Dx(front + [c]), q, k) == Conv(Dx(front), q, k) + By(By(|front| as real, c), At(q, k + 1 - |front|))
  {
    hide By, Conv;
    if front == [] {
      assert Dx(front + [c]) == [];
      ByConstant(c);
      ByConstant(At(q, k + 1));
    } else {
      DxAppend(front, c);
      ConvAppend(Dx(front), By(|front| as real, c), q, k);
    }
  }

  lemma DxAt(q: Form, k: int)
    ensures At(Dx(q), k) == By((k + 1) as real, At(q, k + 1))
  {
    hide By;
    ByConstant((k + 1) as real);
    ByConstant(At(q, k + 1));
  }

  lemma Weights(c1: real, n: nat, k: int, c: real, at: real)
    requires c1 == (k + 1) as real
    ensures By(c1, By(c, at)) == By(By(n as real, c), at) + By(c, By((k + 1 - n) as real, at))
  {
    hide By;
    BySum(By(c, at), n as real, (k + 1 - n) as real);
    ByTwice(n as real, c, at);
    ByTwice(c, (k + 1 - n) as real, at);
  }

  // ----- The other variable -----

  /** Every coefficient times its position. */
  function Theta(f: Form): (r: Form)
    ensures |r| == |f|
  {
    seq(|f|, i requires 0 <= i < |f| => By(i as real, f[i]))
  }

  /** k * (pq)(k) = sum of i * p(i) * q(k - i) + sum of p(i) * (k - i) * q(k - i) */
  lemma {:induction false} ConvTheta(p: Form, q: Form, k: int)
    ensures By(k as real, Conv(p, q, k)) == Conv(Theta(p), q, k) + Conv(p, Theta(q), k)
  {
    hide By, Conv, At, Theta;
    ConvNothing(q, k);
    ConvNothing(Theta(q), k);
    if p == [] {
      ByConstant(k as real);
    } else {
      var n := |p| - 1;
      var front, c := p[..n], p[n];
      assert p == front + [c];
      ConvTheta(front, q, k);
      ThetaAppend(front, c);
      ConvAppend(front, c, q, k);
      ConvAppend(front, c, Theta(q), k);
      ConvAppend(Theta(front), By(n as real, c), q, k);
      var at := At(q, k - n);
      BySum(k as real, Conv(front, q, k), By(c, at));
      Weights(k as real, n, k - 1, c, at);
      ThetaAt(q, k - n);
    }
  }

  lemma ThetaAppend(front: Form, c: real)
    ensures Theta(front + [c]) == Theta(front) + [By(|front| as real, c)]
  {
    hide By;
  }

  lemma ThetaAt(q: Form, k: int)
    ensures At(Theta(q), k) == By(k as real, At(q, k))
  {
    hide By;
    ByConstant(k as real);
  }

  /** Dy and Theta share n * f between them. */
  lemma {:induction false} ConvDy(p: Form, q: Form, k: int, j: nat)
    requires j < |p|
    ensures Conv(Dy(p)[..j], q, k) + Conv(Theta(p)[..j], q, k) == By((|p| - 1) as real, Conv(p[..j], q, k))
  {
    hide By, Conv, At;
    ConvNothing(q, k);
    var n := (|p| - 1) as real;
    if j == 0 {
      ByConstant(n);
    } else {
      var i := j - 1;
      ConvDy(p, q, k, i);
      assert Dy(p)[..j] == Dy(p)[..i] + [Dy(p)[i]];
      assert Theta(p)[..j] == Theta(p)[..i] + [Theta(p)[i]];
      assert p[..j] == p[..i] + [p[i]];
      var at := At(q, k - i);
      ConvAppend(Dy(p)[..i], Dy(p)[i], q, k);
      ConvAppend(Theta(p)[..i], Theta(p)[i], q, k);
      ConvAppend(p[..i], p[i], q, k);
      BySum(n, Conv(p[..i], q, k), By(p[i], at));
      BySum(By(p[i], at), (|p| - 1 - i) as real, i as real);
      ByTwice((|p| - 1 - i) as real, p[i], at);
      ByTwice(i as real, p[i], at);
    }
  }

  /** (p_y q)(k) + sum of i * p(i) * q(k - i) = n * (pq)(k) */
  lemma ConvDyWhole(p: Form, q: Form, k: int)
    requires p != []
    ensures Conv(Dy(p), q, k) + Conv(Theta(p), q, k) == By((|p| - 1) as real, Conv(p, q, k))
  {
    hide By, Conv, At;
    var n := |p| - 1;
    ConvDy(p, q, k, n);
    assert Dy(p)[..n] == Dy(p) && Theta(p) == Theta(p)[..n] + [By(n as real, p[n])] && p == p[..n] + [p[n]];
    ConvAppend(Theta(p)[..n], By(n as real, p[n]), q, k);
    ConvAppend(p[..n], p[n], q, k);
    BySum(n as real, Conv(p[..n], q, k), By(p[n], At(q, k - n)));
    ByTwice(n as real, p[n], At(q, k - n));
  }

  /** The same with the second factor. */
  lemma {:induction false} ConvDySecond(p: Form, q: Form, k: int)
    requires q != []
    ensures Conv(p, Dy(q), k) + Conv(p, Theta(q), k) == By((|q| - 1) as real, Conv(p, q, k))
  {
    hide By, Conv, At, Dy, Theta;
    var n := (|q| - 1) as real;
    ConvNothing(q, k);
    ConvNothing(Dy(q), k);
    ConvNothing(Theta(q), k);
    if p == [] {
      ByConstant(n);
    } else {
      var m := |p| - 1;
      var front, c := p[..m], p[m];
      assert p == front + [c];
      ConvDySecond(front, q, k);
      ConvAppend(front, c, q, k);
      ConvAppend(front, c, Dy(q), k);
      ConvAppend(front, c, Theta(q), k);
      DyAt(q, k - m);
      ThetaAt(q, k - m);
      var at := At(q, k - m);
      BySum(n, Conv(front, q, k), By(c, at));
      BySum(c, By((|q| - 1 - (k - m)) as real, at), By((k - m) as real, at));
      BySum(at, (|q| - 1 - (k - m)) as real, (k - m) as real);
      ByTwice(c, n, at);
    }
  }

  lemma DyAt(q: Form, k: int)
    requires q != []
    ensures At(Dy(q), k) == By((|q| - 1 - k) as real, At(q, k))
  {
    hide By;
    ByConstant((|q| - 1 - k) as real);
    ByConstant(At(q, k));
  }

  // ----- The laws for forms -----

  lemma ProductRuleAt(p: Form, q: Form, k: nat)
    requires p != [] && q != [] && k < |p| + |q| - 2
    ensures By((k + 1) as real, Conv(p, q, k + 1)) == Conv(Dx(p), q, k) + Conv(p, Dx(q), k)
    ensures By((|p| + |q| - 2 - k) as real, Conv(p, q, k)) == Conv(Dy(p), q, k) + Conv(p, Dy(q), k)
  {
    hide *;
    ConvDx(p, q, k);
    ConvTheta(p, q, k);
    ConvDyWhole(p, q, k);
    ConvDySecond(p, q, k);
    var c := Conv(p, q, k);
    BySum(c, (|p| - 1) as real, (|q| - 1) as real);
    BySum(c, (|p| + |q| - 2 - k) as real, k as real);
  }

  lemma ProductRule(p: Form, q: Form)
    requires p != [] && q != []
    ensures Dx(Mul(p, q)) == Plus(Mul(Dx(p), q), Mul(p, Dx(q))) && Dy(Mul(p, q)) == Plus(Mul(Dy(p), q), Mul(p, Dy(q)))
  {
    hide By, Conv;
    var n := |p| + |q| - 2;
    var dx, dy := Dx(p), Dy(p);
    var ex, ey := Dx(q), Dy(q);
    forall k | 0 <= k < n
      ensures By((k + 1) as real, Conv(p, q, k + 1)) == Conv(dx, q, k) + Conv(p, ex, k)
      ensures By((n - k) as real, Conv(p, q, k)) == Conv(dy, q, k) + Conv(p, ey, k)
    {
      ProductRuleAt(p, q, k);
    }
    assert |dx| == |dy| == |p| - 1 && |ex| == |ey| == |q| - 1;
  }

  /** n * p * q = x * (p_x q) + y * (p_y q) */
  lemma EulerProduct(p: Form, q: Form)
    requires |p| >= 2 && q != []
    ensures Scale((|p| - 1) as real, Mul(p, q)) == Plus(TimesX(Mul(Dx(p), q)), TimesY(Mul(Dy(p), q)))
  {
    hide By, Conv;
    var n := |p| + |q| - 1;
    var dx, dy := Dx(p), Dy(p);
    forall k | 0 <= k < n
      ensures By((|p| - 1) as real, Conv(p, q, k)) == TimesX(Mul(dx, q))[k] + TimesY(Mul(dy, q))[k]
    {
      EulerAt(p, q, k);
    }
    assert |dx| == |dy| == |p| - 1;
  }

  lemma EulerAt(p: Form, q: Form, k: nat)
    requires |p| >= 2 && q != [] && k < |p| + |q| - 1
    ensures By((|p| - 1) as real, Conv(p, q, k)) == TimesX(Mul(Dx(p), q))[k] + TimesY(Mul(Dy(p), q))[k]
  {
    hide By, Conv, Dx, Dy;
    ConvDyWhole(p, q, k);
    ConvShifted(p, q, k);
    if k == 0 { ConvOutside(Dx(p), q, -1); }
    if k == |p| + |q| - 2 { ConvOutside(Dy(p), q, k); }
  }

  /** The coefficients of x * p_x are those of p times their positions. */
  lemma ConvShifted(p: Form, q: Form, k: int)
    requires p != []
    ensures Conv(Dx(p), q, k - 1) == Conv(Theta(p), q, k)
  {
    hide By, Conv;
    assert Theta(p) == [By(0.0, p[0])] + Dx(p);
    ByConstant(p[0]);
    ConvPrepend(Dx(p), q, k);
  }

  lemma {:induction false} ConvPrepend(p: Form, q: Form, k: int)
    ensures Conv([0.0] + p, q, k) == Conv(p, q, k - 1)
  {
    hide By, Conv, At;
    ConvNothing(q, k);
    ConvNothing(q, k - 1);
    if p == [] {
      assert [] + [0.0] == [0.0] + p;
      ConvAppend([], 0.0, q, k);
      ByConstant(At(q, k));
    } else {
      var n := |p| - 1;
      var front, c := p[..n], p[n];
      assert p == front + [c] && [0.0] + p == ([0.0] + front) + [c];
      ConvPrepend(front, q, k);
      ConvAppend([0.0] + front, c, q, k);
      ConvAppend(front, c, q, k - 1);
    }
  }

  lemma MulConstant(p: Form, q: Form)
    requires |p| == 1
    ensures Mul(p, q) == Scale(p[0], q)
  {
    hide By, Conv;
    forall k | 0 <= k < |q| ensures Mul(p, q)[k] == Scale(p[0], q)[k] {
      assert p == [] + [p[0]];
      ConvAppend([], p[0], q, k);
      ConvNothing(q, k);
    }
  }

  // ----- The operator adjoint to a product -----

  /** p(d/dx, d/dy) applied to q. */
  function Contract(p: Form, q: Form): (r: Form)
    requires p != []
    ensures |r| == if |q| < |p| then 0 else |q| - |p| + 1
    decreases |p|
  {
    if |q| < |p| then [] else if |p| == 1 then Scale(p[0], q) else
      Scale(1.0 / ((|p| - 1) as real), Plus(Contract(Dx(p), Dx(q)), Contract(Dy(p), Dy(q))))
  }

  lemma ContractTimes(p: Form, q: Form)
    requires 2 <= |p| <= |q|
    ensures Scale((|p| - 1) as real, Contract(p, q)) == Plus(Contract(Dx(p), Dx(q)), Contract(Dy(p), Dy(q)))
  {
    var n, sum := (|p| - 1) as real, Plus(Contract(Dx(p), Dx(q)), Contract(Dy(p), Dy(q)));
    assert n != 0.0 && Contract(p, q) == Scale(1.0 / n, sum);
    hide By, Contract, Plus;
    forall i | 0 <= i < |sum| ensures Scale(n, Scale(1.0 / n, sum))[i] == sum[i] {
      Undivided(n, sum[i]);
    }
  }

  /** <p * q, s> = <q, p(d/dx, d/dy) s> */
  lemma {:induction false} AdjointProduct(p: Form, q: Form, s: Form)
    requires p != [] && q != [] && |s| == |p| + |q| - 1
    ensures Inner(Mul(p, q), s) == Inner(q, Contract(p, s))
    decreases |p|
  {
    hide By, Inner, Dx, Dy, Plus, Scale, TimesX, TimesY;
    if |p| == 1 {
      MulConstant(p, q);
      InnerSwap(Scale(p[0], q), s);
      InnerScale(s, p[0], q);
      InnerSwap(s, q);
      InnerScale(q, p[0], s);
      assert Contract(p, s) == Scale(p[0], s);
    } else {
      hide Contract, Mul;
      var n, f := (|p| - 1) as real, Mul(p, q);
      InnerSwap(f, s);
      InnerScale(s, n, f);
      EulerProduct(p, q);
      AdjointSum(s, Mul(Dx(p), q), Mul(Dy(p), q));
      InnerSwap(Mul(Dx(p), q), Dx(s));
      InnerSwap(Mul(Dy(p), q), Dy(s));
      AdjointProduct(Dx(p), q, Dx(s));
      AdjointProduct(Dy(p), q, Dy(s));
      ContractTimes(p, s);
      InnerPlus(q, Contract(Dx(p), Dx(s)), Contract(Dy(p), Dy(s)));
      InnerScale(q, n, Contract(p, s));
      CancelFactor(n, Inner(f, s), Inner(q, Contract(p, s)));
    }
  }

  /** <s, x * f + y * g> = <s_x, f> + <s_y, g> */
  lemma AdjointSum(s: Form, f: Form, g: Form)
    requires f != [] && |f| == |g| && |s| == |f| + 1
    ensures |Plus(TimesX(f), TimesY(g))| == |s|
    ensures Inner(s, Plus(TimesX(f), TimesY(g))) == Inner(Dx(s), f) + Inner(Dy(s), g)
  {
    hide By, Inner;
    InnerPlus(s, TimesX(f), TimesY(g));
    AdjointX(s, f);
    AdjointY(s, g);
  }
}
