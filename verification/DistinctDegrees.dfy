/** Why the factors that distinct- and equal-degree factorisation return are irreducible
    (src/cas/Factorization.cpp:736-803). */
module DistinctDegrees {
  import opened IntegerGcd
  import opened IntPoly
  import opened PolyCongruence
  import opened ModularPoly
  import opened MonicPoly
  import opened Irreducibility
  import opened FiniteField

  const X: Poly := [0, 1]

  /** x^(p^d) - x */
  ghost function Frobenius(p: nat, d: nat): Poly {
    Add(Power(X, PrimePower(p, d)), -1, X)
  }

  /** No irreducible polynomial divides `f` twice. */
  ghost predicate SquareFreeMod(f: Poly, p: int) {
    forall k :: Irreducible(k, p) ==> !ModDividesPoly(Times(k, k), f, p)
  }

  /** Every irreducible divisor has at least the degree `d`. */
  ghost predicate NoSmall(g: Poly, d: int, p: int) {
    forall k :: Irreducible(k, p) && ModDividesPoly(k, g, p) ==> |k| - 1 >= d
  }

  // ----- Divisors -----

  lemma DividesThrough(a: Poly, b: Poly, c: Poly, p: int)
    requires ModDividesPoly(a, b, p) && ModDividesPoly(b, c, p)
    ensures ModDividesPoly(a, c, p)
  {
    hide Cong;
    CongDivisor(c, [], b, a, p);
  }

  lemma DividesItself(a: Poly, p: int)
    ensures ModDividesPoly(a, a, p)
  {
    hide Cong, Times;
    TimesOne(a);
    MultipleCong([1], a, p);
  }

  lemma FactorDivides(f: Poly, a: Poly, b: Poly, p: int)
    requires EqMod(f, Times(a, b), p)
    ensures ModDividesPoly(a, f, p) && ModDividesPoly(b, f, p)
  {
    hide Cong, Times, EqMod;
    MultipleCong(a, b, p);
    MultipleCong(b, a, p);
    TimesCommutes(a, b);
    EqModSymmetric(f, Times(a, b), p);
    DividesEq(a, Times(a, b), f, p);
    DividesEq(b, Times(a, b), f, p);
  }

  lemma NoSmallDivisor(g: Poly, u: Poly, d: int, p: int)
    requires NoSmall(g, d, p) && ModDividesPoly(u, g, p)
    ensures NoSmall(u, d, p)
  {
    hide ModDividesPoly, Irreducible;
    forall k | Irreducible(k, p) && ModDividesPoly(k, u, p) ensures |k| - 1 >= d { DividesThrough(k, u, g, p); }
  }

  lemma SquareFreeDivisor(g: Poly, u: Poly, p: int)
    requires SquareFreeMod(g, p) && ModDividesPoly(u, g, p)
    ensures SquareFreeMod(u, p)
  {
    hide ModDividesPoly, Irreducible, Times;
    forall k | Irreducible(k, p) ensures !ModDividesPoly(Times(k, k), u, p) {
      if ModDividesPoly(Times(k, k), u, p) { DividesThrough(Times(k, k), u, g, p); }
    }
  }

  /** Every monic polynomial of positive degree has an irreducible divisor. */
  lemma {:induction false} SomeIrreducible(a: Poly, p: int) returns (k: Poly)
    requires Prime(p) && Monic(a, p) && |a| > 1
    ensures Irreducible(k, p) && ModDividesPoly(k, a, p)
    decreases |a|
  {
    hide ModDividesPoly, Prime, Times, EqMod, Canonical;
    if Irreducible(a, p) {
      k := a;
      DividesItself(a, p);
    } else {
      var x, y :| Splits(a, x, y, p) && |x| != 1 && |y| != 1;
      SplitsDegrees(a, x, y, p);
      k := SomeIrreducible(x, p);
      FactorDivides(a, x, y, p);
      DividesThrough(k, x, a, p);
    }
  }

  lemma SplitsDegrees(a: Poly, x: Poly, y: Poly, p: int)
    requires Prime(p) && Monic(a, p) && Splits(a, x, y, p)
    ensures |a| - 1 == (|x| - 1) + (|y| - 1) && |x| > 0 && |y| > 0
  {
    CofactorMonic(a, y, x, p);
  }

  lemma DegreeAtLeast(u: Poly, d: int, p: int)
    requires Prime(p) && Monic(u, p) && |u| > 1 && NoSmall(u, d, p)
    ensures |u| - 1 >= d
  {
    hide ModDividesPoly, Prime, Irreducible;
    var k := SomeIrreducible(u, p);
    IrreducibleDegree(k, p);
    var q := MonicCofactor(u, k, p);
    assert |q| >= 1;
  }

  /** A polynomial without small divisors that is too short for two of them. */
  lemma ShortIsIrreducible(u: Poly, d: int, p: int)
    requires Prime(p) && Monic(u, p) && |u| > 1 && NoSmall(u, d, p) && |u| - 1 < 2 * d
    ensures Irreducible(u, p)
  {
    hide ModDividesPoly, Prime, NoSmall, Canonical;
    forall x, y | Splits(u, x, y, p) ensures |x| == 1 || |y| == 1 {
      SplitsDegrees(u, x, y, p);
      FactorDivides(u, x, y, p);
      NoSmallDivisor(u, x, d, p);
      NoSmallDivisor(u, y, d, p);
      if |x| > 1 && |y| > 1 {
        DegreeAtLeast(x, d, p);
        DegreeAtLeast(y, d, p);
      }
    }
  }

  // ----- Distinct degrees -----

  /** An irreducible polynomial of degree `d` divides x^(p^d) - x. */
  lemma DividesFrobenius(k: Poly, p: nat)
    requires Prime(p) && Irreducible(k, p)
    ensures |k| > 0 && ModDividesPoly(k, Frobenius(p, |k| - 1), p)
  {
    hide Cong, Prime, Irreducible, Power, PrimePower, Add;
    IrreducibleDegree(k, p);
    var power := Power(X, PrimePower(p, |k| - 1));
    Fermat(k, X, p);
    CongReflexive(X, k, p);
    CongAdd(power, X, -1, X, X, k, p);
    SelfDifference(X, k, p);
    CongTransitive(Add(power, -1, X), Add(X, -1, X), [], k, p);
  }

  /** What divides the modulus and x^(p^d) - x divides the computed difference. */
  lemma DividesDifference(k: Poly, h: Poly, difference: Poly, m: Poly, p: nat, d: nat)
    requires Cong(h, Power(X, PrimePower(p, d)), m, p) && EqMod(difference, Add(h, -1, X), p)
    requires ModDividesPoly(k, m, p) && ModDividesPoly(k, Frobenius(p, d), p)
    ensures ModDividesPoly(k, difference, p)
  {
    hide Cong, Power, EqMod, Add, PrimePower;
    var target := Power(X, PrimePower(p, d));
    CongDivisor(h, target, m, k, p);
    CongReflexive(X, k, p);
    CongAdd(h, target, -1, X, X, k, p);
    CongTransitive(Add(h, -1, X), Add(target, -1, X), [], k, p);
    EqModCong(difference, Add(h, -1, X), k, p);
    CongTransitive(difference, Add(h, -1, X), [], k, p);
  }

  /** A common divisor divides the greatest one. */
  lemma CommonDividesGcd(k: Poly, g: Poly, a: Poly, b: Poly, p: int)
    requires IsGcd(g, a, b, p) && ModDividesPoly(k, a, p) && ModDividesPoly(k, b, p)
    ensures ModDividesPoly(k, g, p)
  {
    hide ModDividesPoly;
    assert Common(k, a, b, p);
    assert Common(k, g, [], p);
  }

  lemma ProductDivides(k: Poly, a: Poly, b: Poly, f: Poly, p: int)
    requires ModDividesPoly(k, a, p) && ModDividesPoly(k, b, p) && EqMod(f, Times(a, b), p)
    ensures ModDividesPoly(Times(k, k), f, p)
  {
    hide Cong, Times, EqMod, Divides, Conv;
    var s := DivisorWitness(k, a, p);
    var t := DivisorWitness(k, b, p);
    EqModTimes(a, Times(s, k), b, Times(t, k), p);
    EqModTransitive(f, Times(a, b), Times(Times(s, k), Times(t, k)), p);
    Interchange(s, k, t, k);
    FactorDivides(f, Times(s, t), Times(k, k), p);
  }

  lemma DivisorWitness(k: Poly, a: Poly, p: int) returns (s: Poly)
    requires ModDividesPoly(k, a, p)
    ensures EqMod(a, Times(s, k), p)
  {
    hide Divides, Conv, Times, Cong;
    s := CongElim(a, [], k, p);
    TimesAt(s, k);
    forall i ensures Divides(p, At(a, i) - At(Times(s, k), i)) { AtNothing(i); }
  }

  /** After the step for degree `d` no irreducible divisor of that degree is left. */
  lemma NextDegree(m: Poly, h: Poly, difference: Poly, g: Poly, q: Poly, p: nat, d: nat)
    requires Prime(p) && SquareFreeMod(m, p) && NoSmall(m, d, p)
    requires Cong(h, Power(X, PrimePower(p, d)), m, p) && EqMod(difference, Add(h, -1, X), p)
    requires IsGcd(g, difference, m, p) && EqMod(m, Times(q, g), p)
    ensures NoSmall(q, d + 1, p)
  {
    hide ModDividesPoly, Cong, Prime, Times, EqMod, Power, PrimePower, Irreducible, Add, Frobenius, IsGcd;
    FactorDivides(m, q, g, p);
    forall k | Irreducible(k, p) && ModDividesPoly(k, q, p) ensures |k| - 1 >= d + 1 {
      DividesThrough(k, q, m, p);
      if |k| - 1 == d {
        DividesFrobenius(k, p);
        DividesDifference(k, h, difference, m, p, d);
        CommonDividesGcd(k, g, difference, m, p);
        ProductDivides(k, q, g, m, p);
      }
    }
  }

  // ----- Equal degrees -----

  ghost function Degrees(fs: seq<Poly>): int {
    if fs == [] then 0 else Degrees(fs[..|fs| - 1]) + |fs[|fs| - 1]| - 1
  }

  lemma {:induction false} ProductDegree(fs: seq<Poly>, p: int)
    requires AllMonic(fs, p)
    ensures |Product(fs)| == Degrees(fs) + 1 && Product(fs) != [] && Product(fs)[|Product(fs)| - 1] == 1
  {
    hide Times;
    if fs != [] {
      var n := |fs| - 1;
      ProductDegree(fs[..n], p);
      TimesLead(Product(fs[..n]), fs[n]);
    }
  }

  lemma DegreesAdd(fs: seq<Poly>, f: Poly, p: int)
    requires p > 1 && AllMonic(fs, p) && Monic(f, p) && EqMod(Product(fs), f, p)
    ensures |f| - 1 == Degrees(fs)
  {
    hide Divides;
    ProductDegree(fs, p);
    var g := Product(fs);
    if |g| > |f| {
      assert Divides(p, At(g, |g| - 1) - At(f, |g| - 1));
      ResidueUnique(1, 0, p);
    } else if |f| > |g| {
      assert Divides(p, At(g, |f| - 1) - At(f, |f| - 1));
      ResidueUnique(0, 1, p);
    }
  }

  lemma {:induction false} DegreesBound(fs: seq<Poly>, d: nat)
    requires forall i :: 0 <= i < |fs| ==> |fs[i]| - 1 >= d
    ensures Degrees(fs) >= |fs| * d
  {
    if fs != [] {
      DegreesBound(fs[..|fs| - 1], d);
      Spread(d, |fs|);
    }
  }

  /** One factor of twice the degree. */
  lemma {:induction false} DegreesBoundOne(fs: seq<Poly>, d: nat, at: nat)
    requires at < |fs| && |fs[at]| - 1 >= 2 * d && forall i :: 0 <= i < |fs| ==> |fs[i]| - 1 >= d
    ensures Degrees(fs) >= (|fs| + 1) * d
  {
    var n := |fs| - 1;
    if at == n {
      DegreesBound(fs[..n], d);
      assert (n + 2) * d == n * d + 2 * d;
    } else {
      DegreesBoundOne(fs[..n], d, at);
      assert (n + 2) * d == (n + 1) * d + d;
    }
  }

  lemma FactorOfProduct(fs: seq<Poly>, f: Poly, i: nat, p: int)
    requires i < |fs| && EqMod(Product(fs), f, p)
    ensures ModDividesPoly(fs[i], f, p)
  {
    hide Times, EqMod, Cong;
    ProductWithout(fs, i);
    MultipleCong(Product(fs[..i] + fs[i + 1..]), fs[i], p);
    DividesEq(fs[i], Product(fs), f, p);
  }

  /** As many factors as there is room for: none of them can be split. */
  lemma EnoughFactors(fs: seq<Poly>, f: Poly, d: nat, p: int)
    requires Prime(p) && AllMonic(fs, p) && Monic(f, p) && EqMod(Product(fs), f, p) && d > 0
    requires (forall i :: 0 <= i < |fs| ==> |fs[i]| > 1) && |fs| >= (|f| - 1) / d && NoSmall(f, d, p)
    ensures AllIrreducible(fs, p)
  {
    hide Prime, EqMod, ModDividesPoly, NoSmall, Irreducible, Product;
    PrimeAboveOne(p);
    DegreesAdd(fs, f, p);
    forall i | 0 <= i < |fs| ensures NoSmall(fs[i], d, p) && |fs[i]| - 1 >= d {
      FactorOfProduct(fs, f, i, p);
      NoSmallDivisor(f, fs[i], d, p);
      DegreeAtLeast(fs[i], d, p);
    }
    forall i | 0 <= i < |fs| ensures Irreducible(fs[i], p) {
      if |fs[i]| - 1 >= 2 * d {
        DegreesBoundOne(fs, d, i);
        TooMany(|f| - 1, d, |fs|);
      }
      ShortIsIrreducible(fs[i], d, p);
    }
  }

  lemma TooMany(n: nat, d: nat, count: nat)
    requires d > 0 && count >= n / d
    ensures (count + 1) * d > n
  {
    var q, r := n / d, n % d;
    assert n == q * d + r;
    assert (count + 1) * d == (count - q) * d + q * d + d;
    assert (count - q) * d >= 0;
  }
}
