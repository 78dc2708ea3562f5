/** Monic polynomials modulo a prime and their exact division (src/cas/Factorization.cpp:676-720). */
module MonicPoly {
  import opened IntegerGcd
  import opened IntPoly
  import opened PolyCongruence
  import opened ModularPoly

  ghost predicate Monic(a: Poly, p: int) {
    Canonical(a, p) && a != [] && a[|a| - 1] == 1
  }

  ghost predicate AllMonic(fs: seq<Poly>, p: int) {
    forall i :: 0 <= i < |fs| ==> Monic(fs[i], p)
  }

  // ----- Exact division modulo p -----

  /** What a monic divisor divides leaves no remainder. */
  lemma DivisorLeavesNothing(f: Poly, g: Poly, q: Poly, r: Poly, p: int)
    requires Prime(p) && Canonical(g, p) && g != [] && ModDividesPoly(g, f, p) && IsDivision(f, g, q, r, p)
    ensures r == [] && EqMod(f, Times(q, g), p)
  {
    hide Divides, Conv, Add, Prime, Times;
    var s := CongElim(f, [], g, p);
    var d := Add(s, -1, q);
    forall k ensures Divides(p, Conv(d, g, k) - At(r, k)) {
      CombinesConv(d, s, -1, 0, q, g, k);
      AtNothing(k);
      DividesSum(p, At(f, k) - At([], k) - Conv(s, g, k), At(f, k) - Conv(q, g, k) - At(r, k), -1, 1);
    }
    forall k | k >= |g| - 1 ensures Divides(p, Conv(d, g, k)) { assert At(r, k) == 0; }
    MultipleTooHigh(d, g, p, |d|);
    ZeroFromEntries(d, p);
    forall k ensures Divides(p, At(r, k) - At([], k)) {
      ZeroModConv(d, g, p, k);
      AtNothing(k);
      DividesSum(p, Conv(d, g, k), Conv(d, g, k) - At(r, k), 1, -1);
    }
    PrimeAboveOne(p);
    CanonicalUnique(r, [], p);
    TimesAt(q, g);
    forall k ensures Divides(p, At(f, k) - At(Times(q, g), k)) {
      assert Divides(p, At(f, k) - Conv(q, g, k) - At(r, k));
    }
  }

  /** The cofactor of a monic polynomial by a monic one is monic. */
  lemma CofactorMonic(f: Poly, g: Poly, q: Poly, p: int)
    requires Prime(p) && Monic(f, p) && Monic(g, p) && Canonical(q, p) && EqMod(f, Times(q, g), p)
    ensures Monic(q, p) && |f| == |q| + |g| - 1
  {
    hide Divides, Conv, Prime;
    PrimeAboveOne(p);
    if q == [] {
      assert Divides(p, At(f, |f| - 1) - At(Times(q, g), |f| - 1));
      ResidueUnique(1, 0, p);
    } else {
      var top := |q| + |g| - 2;
      TimesLead(q, g);
      assert At(Times(q, g), top) == q[|q| - 1];
      assert Divides(p, At(f, top) - At(Times(q, g), top));
      ResidueUnique(At(f, top), q[|q| - 1], p);
      assert Divides(p, At(f, |f| - 1) - At(Times(q, g), |f| - 1));
      if |f| - 1 > top {
        ResidueUnique(1, 0, p);
      }
    }
  }

  // ----- Congruent products -----

  lemma SameSelf(a: Poly, p: int)
    ensures EqMod(a, a, p)
  {
    hide Divides;
    SameEqMod(a, a, p);
  }

  lemma ExtendProduct(a: Poly, b: Poly, u: Poly, v: Poly, p: int)
    requires EqMod(a, b, p) && (u == v || EqMod(u, v, p))
    ensures EqMod(Times(a, u), Times(b, v), p)
  {
    hide EqMod, Times;
    if u == v { SameSelf(u, p); }
    EqModTimes(a, b, u, v, p);
  }
}
