/** Irreducible polynomials modulo a prime and Euclid's lemma: what the factors of src/cas/Factorization.cpp:736-803
    are used for. */
module Irreducibility {
  import opened IntegerGcd
  import opened IntPoly
  import opened PolyCongruence
  import opened ModularPoly
  import opened MonicPoly

  /** No product of two monic polynomials of positive degree. */
  ghost predicate Irreducible(f: Poly, p: int) {
    Monic(f, p) && |f| > 1 && forall a, b :: Splits(f, a, b, p) ==> |a| == 1 || |b| == 1
  }

  ghost predicate Splits(f: Poly, a: Poly, b: Poly, p: int) {
    Monic(a, p) && Monic(b, p) && EqMod(f, Times(a, b), p)
  }

  ghost predicate AllIrreducible(fs: seq<Poly>, p: int) {
    forall i :: 0 <= i < |fs| ==> Irreducible(fs[i], p)
  }

  // ----- Representatives -----

  lemma {:induction false} CanonicalForm(a: Poly, p: int) returns (r: Poly)
    requires p > 0
    ensures Canonical(r, p) && EqMod(r, a, p) && |r| <= |a|
  {
    hide Divides;
    if a == [] {
      r := [];
      SameSelf(a, p);
    } else if Residue(a[|a| - 1], p) == 0 {
      var n := |a| - 1;
      r := CanonicalForm(a[..n], p);
      forall k ensures Divides(p, At(r, k) - At(a, k)) {
        assert Divides(p, At(r, k) - At(a[..n], k));
        if k == n { DividesSum(p, At(r, k) - 0, a[n] - 0, 1, -1); }
      }
    } else {
      r := seq(|a|, i requires 0 <= i < |a| => Residue(a[i], p));
      forall k ensures Divides(p, At(r, k) - At(a, k)) {
        if 0 <= k < |a| { DividesFlip(p, a[k], r[k]); } else { DividesSelf(p); }
      }
    }
  }

  /** Division by a monic polynomial. */
  lemma {:induction false} MonicRemainder(x: Poly, g: Poly, p: int) returns (q: Poly, r: Poly)
    requires p > 1 && Monic(g, p)
    ensures Balanced(x, q, g, r, p) && Canonical(r, p) && |r| < |g|
    decreases |x|
  {
    hide Divides, Conv;
    if |x| < |g| {
      q := [];
      r := CanonicalForm(x, p);
      forall k ensures Divides(p, At(x, k) - Conv([], g, k) - At(r, k)) {
        NoConv(g, k);
        DividesFlip(p, At(r, k), At(x, k));
      }
    } else {
      var n := |x| - 1;
      var lead, d := x[n], n + 1 - |g|;
      var rest := seq(n, j requires 0 <= j < n => x[j] - lead * At(g, j - d));
      var s;
      s, r := MonicRemainder(rest, g, p);
      q := WithTerm(s, lead, d);
      forall k ensures Divides(p, At(x, k) - Conv(q, g, k) - At(r, k)) {
        CombinesConv(q, s, lead, d, [1], g, k);
        MonomialConv(g, k - d);
        assert At(rest, k) == At(x, k) - lead * At(g, k - d);
        assert Divides(p, At(rest, k) - Conv(s, g, k) - At(r, k));
      }
    }
  }

  ghost function WithTerm(s: Poly, lead: int, d: nat): (q: Poly)
    ensures Combines(q, s, lead, d, [1])
  {
    seq(if |s| > d then |s| else d + 1, j => At(s, j) + if j == d then lead else 0)
  }

  /** The monic multiple. */
  lemma MakeMonic(r: Poly, p: int) returns (g: Poly, c: int)
    requires Prime(p) && Canonical(r, p) && r != []
    ensures Monic(g, p) && |g| == |r| && EqMod(g, Times([c], r), p)
  {
    hide Divides, Conv, Prime;
    PrimeAboveOne(p);
    var n := |r| - 1;
    var lead := r[n];
    PrimeInvertible(lead, p);
    ResidueUnique(lead, Residue(lead, p), p);
    var a, b := Bezout(p, lead);
    c := b;
    g := CanonicalForm(Times([c], r), p);
    TimesLead([c], r);
    assert Divides(p, At(g, n) - At(Times([c], r), n));
    InverseResidue(p, a, c, lead, At(g, n));
  }

  lemma InverseResidue(p: int, a: int, c: int, lead: int, x: int)
    requires p > 1 && a * p + c * lead == 1 && 0 <= x < p && Divides(p, x - c * lead)
    ensures x == 1
  {
    assert p * a == a * p;
    assert Divides(p, a * p);
    DividesSum(p, x - c * lead, a * p, 1, -1);
    ResidueUnique(x, 1, p);
  }

  lemma MonicCofactor(f: Poly, g: Poly, p: int) returns (q: Poly)
    requires Prime(p) && Monic(f, p) && Monic(g, p) && ModDividesPoly(g, f, p)
    ensures Monic(q, p) && EqMod(f, Times(q, g), p) && |f| == |q| + |g| - 1
  {
    hide Divides, Conv, Prime, Times, Cong;
    PrimeAboveOne(p);
    var s := CongElim(f, [], g, p);
    TimesAt(s, g);
    forall k ensures Divides(p, At(f, k) - At(Times(s, g), k)) { AtNothing(k); }
    q := CanonicalForm(s, p);
    EqModSymmetric(q, s, p);
    ExtendProduct(s, q, g, g, p);
    EqModTransitive(f, Times(s, g), Times(q, g), p);
    CofactorMonic(f, g, q, p);
  }

  /** A monic factor can be cancelled modulo p. */
  lemma CancelMonic(a: Poly, b: Poly, m: Poly, p: int)
    requires Prime(p) && Monic(m, p) && EqMod(Times(a, m), Times(b, m), p)
    ensures EqMod(a, b, p)
  {
    hide Divides, Conv, Times, Prime, Add;
    var d := Add(a, -1, b);
    TimesAt(a, m);
    TimesAt(b, m);
    forall k ensures Divides(p, Conv(d, m, k)) {
      CombinesConv(d, a, -1, 0, b, m, k);
      assert Divides(p, At(Times(a, m), k) - At(Times(b, m), k));
    }
    MultipleTooHigh(d, m, p, |d|);
    ZeroFromEntries(d, p);
    forall k ensures Divides(p, At(a, k) - At(b, k)) {
      assert At(d, k) == At(a, k) + -1 * At(b, k - 0);
      assert Divides(p, At(d, k));
    }
  }

  // ----- Euclid's lemma -----

  /** `f` divides x * b. */
  ghost predicate Kills(f: Poly, b: Poly, x: Poly, p: int) {
    ModDividesPoly(f, Times(x, b), p)
  }

  lemma AddTimes(x: Poly, c: int, y: Poly, b: Poly, p: int)
    ensures EqMod(Add(Times(x, b), c, Times(y, b)), Times(Add(x, c, y), b), p)
  {
    hide Conv, Times, Divides;
    TimesAt(x, b);
    TimesAt(y, b);
    TimesAt(Add(x, c, y), b);
    forall k ensures At(Add(Times(x, b), c, Times(y, b)), k) == At(Times(Add(x, c, y), b), k) {
      CombinesConv(Add(x, c, y), x, c, 0, y, b, k);
      assert At(Add(Times(x, b), c, Times(y, b)), k) == At(Times(x, b), k) + c * At(Times(y, b), k - 0);
    }
    SameEqMod(Add(Times(x, b), c, Times(y, b)), Times(Add(x, c, y), b), p);
  }

  lemma KillsRemainder(f: Poly, b: Poly, x: Poly, g: Poly, q: Poly, r: Poly, p: int)
    requires Kills(f, b, x, p) && Kills(f, b, g, p) && Balanced(x, q, g, r, p)
    ensures Kills(f, b, r, p)
  {
    hide Cong, EqMod, Times, Add, Balanced, Combines;
    var y := Times(q, g);
    BalancedBothWays(x, q, g, r, p);
    TimesAssociative(q, g, b);
    DividesMultiple(f, Times(g, b), q, p);
    DividesAdd(f, Times(x, b), -1, Times(y, b), p);
    AddTimes(x, -1, y, b, p);
    ExtendProduct(Add(x, -1, y), r, b, b, p);
    EqModTransitive(Add(Times(x, b), -1, Times(y, b)), Times(Add(x, -1, y), b), Times(r, b), p);
    DividesEq(f, Add(Times(x, b), -1, Times(y, b)), Times(r, b), p);
  }

  lemma KillsMultiple(f: Poly, b: Poly, r: Poly, s: Poly, g: Poly, p: int)
    requires Kills(f, b, r, p) && EqMod(g, Times(s, r), p)
    ensures Kills(f, b, g, p)
  {
    hide Cong, EqMod, Times;
    EqModSymmetric(g, Times(s, r), p);
    TimesAssociative(s, r, b);
    DividesMultiple(f, Times(r, b), s, p);
    ExtendProduct(Times(s, r), g, b, b, p);
    DividesEq(f, Times(Times(s, r), b), Times(g, b), p);
  }

  lemma NoRemainder(x: Poly, q: Poly, g: Poly, p: int)
    requires Balanced(x, q, g, [], p)
    ensures ModDividesPoly(g, x, p)
  {
    hide Conv, Divides, Cong;
    forall k ensures Divides(p, At(x, k) - At([], k) - Conv(q, g, k)) {
      assert Divides(p, At(x, k) - Conv(q, g, k) - At([], k));
    }
    CongIntro(x, [], q, g, p);
  }

  /** A monic one of least degree among what `f` kills with `b` divides all the others. */
  lemma {:induction false} Least(f: Poly, b: Poly, g: Poly, p: int) returns (h: Poly)
    requires Prime(p) && Monic(g, p) && Kills(f, b, g, p)
    ensures Monic(h, p) && forall x :: Kills(f, b, x, p) ==> ModDividesPoly(h, x, p)
    ensures Kills(f, b, h, p)
    decreases |g|
  {
    hide Kills, Cong, Prime, EqMod, Times, Balanced, Canonical;
    PrimeAboveOne(p);
    if x :| Kills(f, b, x, p) && !ModDividesPoly(g, x, p) {
      var q, r := MonicRemainder(x, g, p);
      if r == [] { NoRemainder(x, q, g, p); }
      KillsRemainder(f, b, x, g, q, r, p);
      var m, c := MakeMonic(r, p);
      KillsMultiple(f, b, r, [c], m, p);
      h := Least(f, b, m, p);
    } else {
      h := g;
    }
  }

  /** An irreducible polynomial that divides a product divides a factor. */
  lemma EuclidsLemma(f: Poly, a: Poly, b: Poly, p: int)
    requires Prime(p) && Irreducible(f, p) && ModDividesPoly(f, Times(a, b), p)
    ensures ModDividesPoly(f, a, p) || ModDividesPoly(f, b, p)
  {
    hide Cong, Prime, EqMod, Times, Canonical;
    PrimeAboveOne(p);
    KillsItself(f, b, p);
    var h := Least(f, b, f, p);
    assert ModDividesPoly(h, f, p);
    var q := MonicCofactor(f, h, p);
    assert Splits(f, q, h, p);
    assert Kills(f, b, a, p);
    if |h| == 1 {
      assert h == [1];
      TimesOne(b);
    } else {
      assert q == [1];
      TimesOne(h);
      CanonicalUnique(f, h, p) by { assert Monic(f, p); }
    }
  }

  lemma KillsItself(f: Poly, b: Poly, p: int)
    ensures Kills(f, b, f, p)
  {
    hide Cong, Times;
    TimesCommutes(f, b);
    MultipleCong(b, f, p);
  }
}
