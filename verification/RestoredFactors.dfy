/** What undoing the monic substitution gives cannot be split further when the monic factor could not
    (src/cas/Factorization.cpp:1230-1268). */
module RestoredFactors {
  import opened IntegerGcd
  import opened IntegerPower
  import opened IntPoly
  import opened GaussLemma
  import opened FactorReconstruction
  import TrialDivision
  import opened Recombination

  ghost predicate Decomposes(h: Poly, u: Poly, v: Poly) {
    Trimmed(u) && Trimmed(v) && h == Times(u, v)
  }

  /** No product of two integer polynomials of positive degree. */
  ghost predicate Indecomposable(h: Poly) {
    |h| > 1 && forall u, v :: Decomposes(h, u, v) ==> |u| == 1 || |v| == 1
  }

  /** u(y / c), times the power of `c` that makes it integral. */
  function Stretched(u: Poly, c: int): (r: Poly)
    ensures |r| == |u| && forall i :: 0 <= i < |u| ==> r[i] == u[i] * Pow(c, |u| - 1 - i)
  {
    seq(|u|, i requires 0 <= i < |u| => u[i] * Pow(c, |u| - 1 - i))
  }

  lemma StretchedBack(u: Poly, c: int)
    requires u != []
    ensures Substituted(Stretched(u, c), c) == Scaled(Pow(c, |u| - 1), u)
  {
    hide Pow;
    var n := |u| - 1;
    var l, r := Substituted(Stretched(u, c), c), Scaled(Pow(c, n), u);
    forall i: nat | i < |u| ensures l[i] == r[i] { StretchedBackAt(u[i], c, n, i); }
  }

  lemma StretchedBackAt(x: int, c: int, n: nat, i: nat)
    requires i <= n
    ensures (x * Pow(c, n - i)) * Pow(c, i) == Pow(c, n) * x
  {
    hide Pow;
    PowAdd(c, n - i, i);
    ThreeFactors(x, Pow(c, n - i), Pow(c, i), Pow(c, n));
  }

  lemma SubstitutedInjective(a: Poly, b: Poly, c: int)
    requires c != 0 && |a| == |b| && Substituted(a, c) == Substituted(b, c)
    ensures a == b
  {
    hide Pow;
    forall i: nat | i < |a| ensures a[i] == b[i] {
      assert Substituted(a, c)[i] == Substituted(b, c)[i];
      PowNonZero(c, i);
      TrialDivision.CancelFactor(a[i], b[i], Pow(c, i));
    }
  }

  /** A decomposition, carried over to the monic polynomial up to constants. */
  lemma StretchedTimes(h: Poly, u: Poly, v: Poly, monic: Poly, lead: int, c: int, d: int)
    requires lead != 0 && u != [] && v != [] && h == Times(u, v) && |monic| == |h|
    requires Scaled(c, h) == Scaled(d, Substituted(monic, lead))
    ensures Scaled(c, Times(Stretched(u, lead), Stretched(v, lead))) == Scaled(d * Pow(lead, |h| - 1), monic)
  {
    hide Pow, Times;
    var x, y := Stretched(u, lead), Stretched(v, lead);
    var r := Pow(lead, |h| - 1);
    StretchedBack(u, lead);
    StretchedBack(v, lead);
    PowAdd(lead, |u| - 1, |v| - 1);
    TimesSubstituted(x, y, lead);
    TimesScaled(Pow(lead, |u| - 1), u, Pow(lead, |v| - 1), v);
    var left, right := Scaled(c, Times(x, y)), Scaled(d * r, monic);
    forall i: nat | i < |h| ensures Substituted(left, lead)[i] == Substituted(right, lead)[i] {
      assert Substituted(Times(x, y), lead)[i] == Scaled(r, h)[i];
      assert Scaled(c, h)[i] == Scaled(d, Substituted(monic, lead))[i];
      SameScaled(c, Times(x, y)[i], Pow(lead, i), r, h[i], d, monic[i]);
    }
    SubstitutedInjective(left, right, lead);
  }

  lemma SameScaled(c: int, t: int, p: int, r: int, h: int, d: int, m: int)
    requires t * p == r * h && c * h == d * (m * p)
    ensures (c * t) * p == ((d * r) * m) * p
  {
    assert (c * t) * p == c * (t * p) == c * (r * h) == r * (c * h) == r * (d * (m * p));
    assert r * (d * (m * p)) == ((d * r) * m) * p;
  }

  lemma PrimitiveOf(u: Poly) returns (w: Poly, c: nat)
    requires u != [] && u[|u| - 1] != 0
    ensures c > 0 && Scaled(c, w) == u && Content(w) == 1 && |w| == |u|
  {
    hide Content, Divides;
    c := Content(u);
    ContentDivides(u);
    assert c > 0;
    w := seq(|u|, i requires 0 <= i < |u| => u[i] / c);
    forall i: nat | i < |u| ensures c * w[i] == u[i] { ExactQuotient(c, u[i]); }
    assert Scaled(c, w) == u;
    PrimitivePart(c, w);
  }

  lemma MonicPrimitive(a: Poly)
    requires MonicOver(a)
    ensures Content(a) == 1
  {
    hide Content;
    ContentDivides(a);
    DivisorBound(Content(a), 1);
  }

  /** Two primitive polynomials with a common multiple are the same up to the sign. */
  lemma SameUpToSign(e: int, w: Poly, f: int, a: Poly) returns (s: int)
    requires e != 0 && f != 0 && Content(w) == 1 && Content(a) == 1 && Scaled(e, w) == Scaled(f, a)
    ensures (s == 1 || s == -1) && w == Scaled(s, a)
  {
    hide Content;
    ContentScaled(e, w);
    ContentScaled(f, a);
    s := if e == f then 1 else -1;
    forall i: nat | i < |w| ensures w[i] == s * a[i] {
      assert Scaled(e, w)[i] == Scaled(f, a)[i];
      TrialDivision.CancelFactor(w[i], s * a[i], e) by { assert (s * a[i]) * e == f * a[i]; }
    }
  }

  lemma UnitFactors(x: int, y: int, s: int)
    requires x * y == s && (s == 1 || s == -1)
    ensures (x == 1 || x == -1) && (y == 1 || y == -1)
  {
    assert Divides(x, s) && Divides(y, s) by { assert y * x == s; }
    DivisorBound(x, s);
    DivisorBound(y, s);
  }

  /** Two primitive polynomials that multiply to a monic one up to the sign are monic up to their signs. */
  lemma MonicUpToSign(x: Poly, y: Poly, monic: Poly, s: int) returns (a: Poly, b: Poly)
    requires x != [] && y != [] && MonicOver(monic) && (s == 1 || s == -1) && Times(x, y) == Scaled(s, monic)
    ensures SplitsOver(monic, a, b) && |a| == |x| && |b| == |y|
  {
    hide Times;
    TimesLead(x, y);
    var p, q := x[|x| - 1], y[|y| - 1];
    assert p * q == s * 1;
    UnitFactors(p, q, s);
    a, b := Scaled(p, x), Scaled(q, y);
    TimesScaled(p, x, q, y);
    forall i: nat | i < |monic| ensures Scaled(p * q, Times(x, y))[i] == monic[i] {
      assert Times(x, y)[i] == s * monic[i];
      assert s * (s * monic[i]) == monic[i];
    }
    assert Times(a, b) == monic;
  }

  lemma {:induction false} RestoredIndecomposable(h: Poly, monic: Poly, lead: int, c: int, d: int)
    requires lead != 0 && c != 0 && d != 0 && |monic| == |h| && IrreducibleOver(monic)
    requires Scaled(c, h) == Scaled(d, Substituted(monic, lead))
    ensures Indecomposable(h)
  {
    hide Times, Content, Pow, SplitsOver, Substituted;
    forall u, v | Decomposes(h, u, v) ensures |u| == 1 || |v| == 1 {
      assert |h| == if u == [] || v == [] then 0 else |u| + |v| - 1;
      if |u| > 1 && |v| > 1 {
        var a, b := SplitMonic(h, u, v, monic, lead, c, d);
      }
    }
  }

  lemma SplitMonic(h: Poly, u: Poly, v: Poly, monic: Poly, lead: int, c: int, d: int) returns (a: Poly, b: Poly)
    requires lead != 0 && c != 0 && d != 0 && |monic| == |h| && MonicOver(monic)
    requires Scaled(c, h) == Scaled(d, Substituted(monic, lead)) && Decomposes(h, u, v) && |u| > 1 && |v| > 1
    ensures SplitsOver(monic, a, b) && |a| == |u| && |b| == |v|
  {
    hide Times, Content, SplitsOver, Substituted;
    assert Pow(lead, 0) == 1;
    hide Pow;
    StretchedTimes(h, u, v, monic, lead, c, d);
    var x, m := PrimitiveOf(Stretched(u, lead));
    var y, n := PrimitiveOf(Stretched(v, lead));
    TimesScaled(m, x, n, y);
    GaussPrimitive(x, y);
    MonicPrimitive(monic);
    var r := Pow(lead, |h| - 1);
    PowNonZero(lead, |h| - 1);
    NonZeroTimes(d, r);
    NonZeroTimes(m, n);
    NonZeroTimes(c, m * n);
    ScaledTwice(c, m * n, Times(x, y));
    var s := SameUpToSign(c * (m * n), Times(x, y), d * r, monic);
    a, b := MonicUpToSign(x, y, monic, s);
  }
}
