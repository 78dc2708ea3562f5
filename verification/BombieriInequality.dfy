/** The norm of a product is at least the product of the norms: expanding <pq, rs> into contractions. */
module BombieriInequality {
  import opened RealProducts
  import opened BinaryForms
  import opened FormProducts

  /** Lengths of four forms with deg p >= deg r and deg p + deg q = deg r + deg s. */
  predicate Fit(p: Form, q: Form, r: Form, s: Form) {
    |p| >= |r| >= 1 && |p| + |q| == |r| + |s|
  }

  /** The sum over all words of k derivatives, applied to p and r, of <r q, p s>, where r and p act as derivatives. */
  function Contracted(k: nat, p: Form, q: Form, r: Form, s: Form): real
    requires Fit(p, q, r, s) && k < |r|
    decreases k
  {
    if k == 0 then Inner(Contract(r, q), Contract(p, s)) else
      Contracted(k - 1, Dx(p), q, Dx(r), s) + Contracted(k - 1, Dy(p), q, Dy(r), s)
  }

  /** 1 / k! */
  function InverseFactorial(k: nat): (r: real)
    ensures r > 0.0
  {
    if k == 0 then 1.0 else InverseFactorial(k - 1) / (k as real)
  }

  lemma NextInverse(k: nat)
    ensures By((k + 1) as real, InverseFactorial(k + 1)) == InverseFactorial(k)
  {
  }

  /** The contractions of up to k derivatives, each over k!. */
  function Expanded(k: nat, p: Form, q: Form, r: Form, s: Form): real
    requires Fit(p, q, r, s) && k < |r|
  {
    By(InverseFactorial(k), Contracted(k, p, q, r, s)) + if k == 0 then 0.0 else Expanded(k - 1, p, q, r, s)
  }

  /** Letting one derivative of r act on q instead: Euler's relation for what is left of r. */
  lemma {:induction false} ContractedEuler(k: nat, p: Form, q: Form, r: Form, s: Form)
    requires Fit(p, q, r, s) && k + 1 < |r| && q != []
    ensures Contracted(k, p, Dx(q), Dx(r), s) + Contracted(k, p, Dy(q), Dy(r), s) ==
      By((|r| - 1 - k) as real, Contracted(k, p, q, r, s))
    decreases k
  {
    hide By, Inner, Contract, Dx, Dy;
    if k == 0 {
      EulerBase(p, q, r, s);
    } else {
      DerivativesCommute(r);
      ContractedEuler(k - 1, Dx(p), q, Dx(r), s);
      ContractedEuler(k - 1, Dy(p), q, Dy(r), s);
      BySum((|r| - 1 - k) as real, Contracted(k - 1, Dx(p), q, Dx(r), s), Contracted(k - 1, Dy(p), q, Dy(r), s));
    }
  }

  lemma EulerBase(p: Form, q: Form, r: Form, s: Form)
    requires Fit(p, q, r, s) && |r| >= 2 && q != []
    ensures Inner(Contract(Dx(r), Dx(q)), Contract(p, s)) + Inner(Contract(Dy(r), Dy(q)), Contract(p, s)) ==
      By((|r| - 1) as real, Inner(Contract(r, q), Contract(p, s)))
  {
    hide By, Dx, Dy, Plus, Scale;
    var n := (|r| - 1) as real;
    var t := Contract(p, s);
    if |q| < |r| {
      ByConstant(n);
    } else {
      hide Contract, Inner;
      var u, v, w := Contract(Dx(r), Dx(q)), Contract(Dy(r), Dy(q)), Contract(r, q);
      ContractTimes(r, q);
      InnerSwap(u, t);
      InnerSwap(v, t);
      InnerSwap(w, t);
      InnerPlus(t, u, v);
      InnerScale(t, n, w);
    }
  }

  /** The four expansions with one derivative taken add up to the degree of r times the expansion. */
  lemma {:induction false} ExpandedSum(k: nat, p: Form, q: Form, r: Form, s: Form)
    requires Fit(p, q, r, s) && k + 1 < |r| && q != []
    ensures Expanded(k, Dx(p), q, Dx(r), s) + Expanded(k, Dy(p), q, Dy(r), s) +
      Expanded(k, p, Dx(q), Dx(r), s) + Expanded(k, p, Dy(q), Dy(r), s) ==
      By((|r| - 1) as real, Expanded(k, p, q, r, s)) + By(InverseFactorial(k), Contracted(k + 1, p, q, r, s))
  {
    hide By, Inner, Contract, Dx, Dy, InverseFactorial;
    var n, f := (|r| - 1) as real, InverseFactorial(k);
    ContractedEuler(k, p, q, r, s);
    var c, next := Contracted(k, p, q, r, s), Contracted(k + 1, p, q, r, s);
    var px, py := Contracted(k, Dx(p), q, Dx(r), s), Contracted(k, Dy(p), q, Dy(r), s);
    var qx, qy := Contracted(k, p, Dx(q), Dx(r), s), Contracted(k, p, Dy(q), Dy(r), s);
    assert next == px + py;
    var before := if k == 0 then 0.0 else Expanded(k - 1, p, q, r, s);
    hide Contracted;
    BySum(f, px, py);
    BySum(f, qx, qy);
    BySum(n, By(f, c), before);
    ByTwice(f, (|r| - 1 - k) as real, c);
    if k == 0 {
      ByConstant(n);
    } else {
      ExpandedSum(k - 1, p, q, r, s);
      NextInverse(k - 1);
      ByTwice(k as real, f, c);
      BySum(By(f, c), (|r| - 1 - k) as real, k as real);
    }
  }

  lemma {:induction false} NothingContracted(k: nat, p: Form, r: Form, s: Form)
    requires Fit(p, [], r, s) && k < |r|
    ensures Contracted(k, p, [], r, s) == 0.0
    decreases k
  {
    if k > 0 {
      hide Inner, Contract, Dx, Dy;
      NothingContracted(k - 1, Dx(p), Dx(r), s);
      NothingContracted(k - 1, Dy(p), Dy(r), s);
    }
  }

  lemma {:induction false} NothingExpanded(k: nat, p: Form, r: Form, s: Form)
    requires Fit(p, [], r, s) && k < |r|
    ensures Expanded(k, p, [], r, s) == 0.0
  {
    hide By, Contracted;
    NothingContracted(k, p, r, s);
    ByConstant(InverseFactorial(k));
    if k > 0 { NothingExpanded(k - 1, p, r, s); }
  }

  lemma {:induction false} ConvEmpty(p: Form, k: int)
    ensures Conv(p, [], k) == 0.0
  {
    hide By;
    if p != [] {
      ConvEmpty(p[..|p| - 1], k);
      ByConstant(p[|p| - 1]);
    }
  }

  /** <pq, rs> is the sum of all contractions, each over k!. */
  lemma {:induction false} Expansion(p: Form, q: Form, r: Form, s: Form)
    requires Fit(p, q, r, s)
    ensures Inner(Mul(p, q), Mul(r, s)) == Expanded(|r| - 1, p, q, r, s)
    decreases |r|
  {
    hide By, Inner, Dx, Dy, Plus, Scale, Mul, Contract;
    if q == [] {
      EmptyFactor(p, r, s);
    } else if |r| == 1 {
      ConstantFactor(p, q, r, s);
    } else {
      var n := (|r| - 1) as real;
      var f := Mul(p, q);
      InnerScale(f, n, Mul(r, s));
      EulerProduct(r, s);
      AdjointSum(f, Mul(Dx(r), s), Mul(Dy(r), s));
      ProductRule(p, q);
      SumTimes(Mul(Dx(p), q), Mul(p, Dx(q)), Mul(Dx(r), s));
      SumTimes(Mul(Dy(p), q), Mul(p, Dy(q)), Mul(Dy(r), s));
      Expansion(Dx(p), q, Dx(r), s);
      Expansion(Dy(p), q, Dy(r), s);
      Expansion(p, Dx(q), Dx(r), s);
      Expansion(p, Dy(q), Dy(r), s);
      ExpandedSum(|r| - 2, p, q, r, s);
      LastTerm(|r| - 1, p, q, r, s);
      CancelFactor(n, Inner(f, Mul(r, s)), Expanded(|r| - 1, p, q, r, s));
    }
  }

  lemma SumTimes(f: Form, g: Form, h: Form)
    requires |f| == |g| == |h|
    ensures Inner(Plus(f, g), h) == Inner(f, h) + Inner(g, h)
  {
    hide Inner, Plus;
    InnerSwap(Plus(f, g), h);
    InnerPlus(h, f, g);
    InnerSwap(f, h);
    InnerSwap(g, h);
  }

  lemma LastTerm(k: nat, p: Form, q: Form, r: Form, s: Form)
    requires Fit(p, q, r, s) && 1 <= k < |r|
    ensures By(k as real, Expanded(k, p, q, r, s)) ==
      By(k as real, Expanded(k - 1, p, q, r, s)) + By(InverseFactorial(k - 1), Contracted(k, p, q, r, s))
  {
    hide By, Contracted, InverseFactorial;
    NextInverse(k - 1);
    BySum(k as real, Expanded(k - 1, p, q, r, s), By(InverseFactorial(k), Contracted(k, p, q, r, s)));
    ByTwice(k as real, InverseFactorial(k), Contracted(k, p, q, r, s));
  }

  lemma EmptyFactor(p: Form, r: Form, s: Form)
    requires Fit(p, [], r, s)
    ensures Inner(Mul(p, []), Mul(r, s)) == Expanded(|r| - 1, p, [], r, s)
  {
    hide Inner, Expanded, Conv;
    NothingExpanded(|r| - 1, p, r, s);
    forall k | 0 <= k < |p| - 1 ensures Mul(p, [])[k] == 0.0 { ConvEmpty(p, k); }
    InnerZero(Mul(r, s), Mul(p, []));
  }

  lemma ConstantFactor(p: Form, q: Form, r: Form, s: Form)
    requires Fit(p, q, r, s) && |r| == 1 && q != []
    ensures Inner(Mul(p, q), Mul(r, s)) == Expanded(0, p, q, r, s)
  {
    assert Contract(r, q) == Scale(r[0], q) && InverseFactorial(0) == 1.0;
    hide By, Inner, Mul, Contract, Scale;
    MulConstant(r, s);
    InnerScale(Mul(p, q), r[0], s);
    AdjointProduct(p, q, s);
    var t := Contract(p, s);
    InnerSwap(Scale(r[0], q), t);
    InnerScale(t, r[0], q);
    InnerSwap(t, q);
    ByConstant(Contracted(0, p, q, r, s));
  }

  // ----- The inequality -----

  lemma {:induction false} ContractedNonNegative(k: nat, p: Form, q: Form)
    requires k < |p|
    ensures Contracted(k, p, q, p, q) >= 0.0
    decreases k
  {
    hide Inner, Contract, Dx, Dy;
    if k == 0 {
      InnerNonNegative(Contract(p, q));
    } else {
      ContractedNonNegative(k - 1, Dx(p), q);
      ContractedNonNegative(k - 1, Dy(p), q);
    }
  }

  lemma {:induction false} ExpandedNonNegative(k: nat, p: Form, q: Form)
    requires k < |p|
    ensures Expanded(k, p, q, p, q) >= By(InverseFactorial(k), Contracted(k, p, q, p, q)) >= 0.0
  {
    hide By, Contracted, InverseFactorial;
    ContractedNonNegative(k, p, q);
    PositiveProduct(InverseFactorial(k), Contracted(k, p, q, p, q));
    if k > 0 { ExpandedNonNegative(k - 1, p, q); }
  }

  /** When all derivatives have acted on p alone, the product of the norms is left. */
  lemma {:induction false} AllContracted(p: Form, q: Form)
    requires p != [] && q != []
    ensures By(InverseFactorial(|p| - 1), Contracted(|p| - 1, p, q, p, q)) == By(Inner(p, p), Inner(q, q))
    decreases |p|
  {
    hide By, Contracted, Inner, InverseFactorial, Contract, Dx, Dy;
    var n := |p| - 1;
    if n == 0 {
      ConstantContracted(p, q);
    } else {
      AllContracted(Dx(p), q);
      AllContracted(Dy(p), q);
      var f := InverseFactorial(n);
      var cx, cy := Contracted(n - 1, Dx(p), q, Dx(p), q), Contracted(n - 1, Dy(p), q, Dy(p), q);
      assert Contracted(n, p, q, p, q) == cx + cy by { ContractedSplits(n, p, q); }
      NextInverse(n - 1);
      InnerTimes(p, p);
      BySum(By(n as real, f), cx, cy);
      ByTwice(n as real, f, cx + cy);
      BySum(Inner(q, q), Inner(Dx(p), Dx(p)), Inner(Dy(p), Dy(p)));
      ByTwice(n as real, Inner(p, p), Inner(q, q));
      CancelFactor(n as real, By(f, cx + cy), By(Inner(p, p), Inner(q, q)));
    }
  }

  lemma ContractedSplits(k: nat, p: Form, q: Form)
    requires 1 <= k < |p|
    ensures Contracted(k, p, q, p, q) == Contracted(k - 1, Dx(p), q, Dx(p), q) + Contracted(k - 1, Dy(p), q, Dy(p), q)
  {
    hide Inner, Contract, Dx, Dy;
  }

  lemma ConstantContracted(p: Form, q: Form)
    requires |p| == 1 && q != []
    ensures By(InverseFactorial(0), Contracted(0, p, q, p, q)) == By(Inner(p, p), Inner(q, q))
  {
    var c, t := p[0], Scale(p[0], q);
    assert Contract(p, q) == t && Inner(p, p) == By(c, c) && InverseFactorial(0) == 1.0;
    hide By, Inner, Scale, Contract;
    ByConstant(Contracted(0, p, q, p, q));
    InnerScale(t, c, q);
    InnerSwap(t, q);
    InnerScale(q, c, q);
    ByTwice(c, c, Inner(q, q));
  }

  /** Bombieri's inequality, for the norm that weighs the coefficient at i with i! * (n - i)!. */
  lemma NormOfProduct(p: Form, q: Form)
    requires p != [] && q != []
    ensures Inner(Mul(p, q), Mul(p, q)) >= By(Inner(p, p), Inner(q, q))
  {
    assert Fit(p, q, p, q);
    hide *;
    Expansion(p, q, p, q);
    ExpandedNonNegative(|p| - 1, p, q);
    AllContracted(p, q);
  }
}
