/** The test by which a prime is chosen: the polynomial and its derivative have no common divisor modulo the prime
    (src/cas/Factorization.cpp:725-734, 1120-1155). */
module SquareFreeTest {
  import opened IntegerGcd
  import opened IntPoly
  import opened PolyCongruence
  import opened ModularPoly
  import opened MonicPoly
  import opened Irreducibility
  import opened FiniteField
  import opened DistinctDegrees

  function Deriv(a: Poly): (r: Poly)
    ensures |r| == if a == [] then 0 else |a| - 1
    ensures forall k :: 0 <= k < |r| ==> r[k] == (k + 1) * a[k + 1]
  {
    if a == [] then [] else seq(|a| - 1, k requires 0 <= k < |a| - 1 => (k + 1) * a[k + 1])
  }

  lemma DerivAt(a: Poly, k: int)
    requires k >= 0
    ensures At(Deriv(a), k) == (k + 1) * At(a, k + 1)
  {
    if k + 1 >= |a| { assert (k + 1) * 0 == 0; }
  }

  function ReducedAt(a: Poly, k: nat, p: int): int
    requires k + 1 < |a| && p > 0
  {
    Residue((k + 1) * a[k + 1], p)
  }

  lemma LiftedRemainder(a: Poly, k: nat, p: int, x: int)
    requires k + 1 < |a| && p > 0
    requires var r := TruncRem((k + 1) * a[k + 1], p); x == if r < 0 then r + p else r
    ensures x == ReducedAt(a, k, p)
  {
  }

  /** derivP */
  method DerivP(a: Poly, p: int) returns (res: Poly)
    requires p > 0
    ensures Canonical(res, p) && EqMod(res, Deriv(a), p)
  {
    hide Divides, TruncRem, ReducedAt;
    if |a| <= 1 {
      SameSelf([], p);
      return [];
    }
    res := seq(|a| - 1, _ => 0);
    for i := 1 to |a|
      invariant |res| == |a| - 1
      invariant forall k :: 0 <= k < i - 1 ==> res[k] == ReducedAt(a, k, p)
    {
      var x := TruncRem(i * a[i], p);
      if x < 0 { x := x + p; }
      LiftedRemainder(a, i - 1, p, x);
      res := res[i - 1 := x];
    }
    ghost var full := res;
    res := Trim(res);
    ReducedDeriv(a, full, res, p);
  }

  lemma ReducedDeriv(a: Poly, full: Poly, res: Poly, p: int)
    requires p > 0 && |full| == |Deriv(a)| && forall k :: 0 <= k < |full| ==> full[k] == ReducedAt(a, k, p)
    requires res <= full && Trimmed(res) && Same(res, full)
    ensures Canonical(res, p) && EqMod(res, Deriv(a), p)
  {
    hide Divides, Residue;
    TrimResidues(full, res, p);
    forall k ensures Divides(p, At(res, k) - At(Deriv(a), k)) {
      assert At(res, k) == At(full, k);
      if 0 <= k < |full| {
        DividesFlip(p, (k + 1) * a[k + 1], full[k]);
      } else {
        DividesSelf(p);
      }
    }
  }

  // ----- The product rule -----

  lemma DerivFront(a: Poly, b: Poly, k: int)
    requires a != [] && k >= 0
    ensures var n := |a| - 1;
      Conv(Deriv(a), b, k) == Conv(Deriv(a[..n]), b, k) + if n == 0 then 0 else n * a[n] * At(b, k - (n - 1))
  {
    var n := |a| - 1;
    if n == 0 {
      assert Deriv(a) == [] && Deriv(a[..0]) == [];
    } else {
      assert Deriv(a)[..n - 1] == Deriv(a[..n]);
      assert Deriv(a)[n - 1] == n * a[n];
    }
  }

  /** (a * b)' = a' * b + a * b' */
  lemma {:induction false} ProductRule(a: Poly, b: Poly, k: int)
    requires k >= 0
    ensures (k + 1) * Conv(a, b, k + 1) == Conv(Deriv(a), b, k) + Conv(a, Deriv(b), k)
  {
    hide Conv, At, Deriv;
    if a == [] {
      ConvNothing(a, b, k + 1);
      ConvNothing(a, Deriv(b), k);
      DerivNothing();
      ConvNothing(Deriv(a), b, k);
      assert (k + 1) * 0 == 0;
    } else {
      var n := |a| - 1;
      var front, x := a[..n], a[n];
      assert a == front + [x];
      ProductRule(front, b, k);
      ConvAppend(front, x, b, k + 1);
      ConvAppend(front, x, Deriv(b), k);
      DerivFront(a, b, k);
      DerivTerm(b, k - n);
      TermRule(k, n, x, At(b, k + 1 - n), Conv(front, b, k + 1));
      assert k - (n - 1) == k + 1 - n && k - n + 1 == k + 1 - n;
    }
  }

  lemma DerivNothing()
    ensures Deriv([]) == []
  {
  }

  lemma DerivTerm(b: Poly, k: int)
    ensures At(Deriv(b), k) == (k + 1) * At(b, k + 1)
  {
    if k >= 0 {
      DerivAt(b, k);
    } else if k == -1 {
      assert 0 * At(b, 0) == 0;
    } else {
      assert (k + 1) * 0 == 0;
    }
  }

  lemma TermRule(k: int, n: int, x: int, y: int, c: int)
    ensures (k + 1) * (c + x * y) == (k + 1) * c + n * x * y + x * ((k - n + 1) * y)
    ensures n == 0 ==> n * x * y == 0
  {
    assert n * x * y == x * (n * y);
    assert (k + 1) * (x * y) == x * ((k + 1) * y);
    assert x * ((k + 1) * y) == x * (n * y) + x * ((k - n + 1) * y);
  }

  lemma DerivTimes(a: Poly, b: Poly, p: int)
    ensures EqMod(Deriv(Times(a, b)), Add(Times(Deriv(a), b), 1, Times(a, Deriv(b))), p)
  {
    hide Divides, Conv, Times, Deriv, At;
    var l, r := Deriv(Times(a, b)), Add(Times(Deriv(a), b), 1, Times(a, Deriv(b)));
    TimesAt(a, b);
    TimesAt(Deriv(a), b);
    TimesAt(a, Deriv(b));
    forall k ensures At(l, k) == At(r, k) {
      assert At(r, k) == At(Times(Deriv(a), b), k) + 1 * At(Times(a, Deriv(b)), k - 0);
      if k >= 0 {
        DerivAt(Times(a, b), k);
        ProductRule(a, b, k);
      } else {
        NegativeAt(l, k);
        NegativeAt(Times(Deriv(a), b), k);
        NegativeAt(Times(a, Deriv(b)), k);
      }
    }
    SameEqMod(l, r, p);
  }

  lemma NegativeAt(a: Poly, k: int)
    requires k < 0
    ensures At(a, k) == 0
  {
  }

  lemma DerivEq(a: Poly, b: Poly, p: int)
    requires EqMod(a, b, p)
    ensures EqMod(Deriv(a), Deriv(b), p)
  {
    hide Divides, Deriv, At;
    forall k ensures Divides(p, At(Deriv(a), k) - At(Deriv(b), k)) {
      if k >= 0 {
        DerivAt(a, k);
        DerivAt(b, k);
        assert Divides(p, At(a, k + 1) - At(b, k + 1));
        DividesTimes(p, At(a, k + 1) - At(b, k + 1), k + 1);
        assert (k + 1) * (At(a, k + 1) - At(b, k + 1)) == (k + 1) * At(a, k + 1) - (k + 1) * At(b, k + 1);
      } else {
        NegativeAt(Deriv(a), k);
        NegativeAt(Deriv(b), k);
        DividesSelf(p);
      }
    }
  }

  lemma DivisorTimes(k: Poly, a: Poly, b: Poly, p: int)
    requires ModDividesPoly(k, a, p) || ModDividesPoly(k, b, p)
    ensures ModDividesPoly(k, Times(a, b), p)
  {
    hide Cong, Times;
    TimesCommutes(a, b);
    if ModDividesPoly(k, a, p) { DividesMultiple(k, a, b, p); } else { DividesMultiple(k, b, a, p); }
  }

  /** The derivative of a product of two multiples of `k` is a multiple of `k`. */
  lemma DerivOfDouble(k: Poly, a: Poly, b: Poly, p: int)
    requires ModDividesPoly(k, a, p) && ModDividesPoly(k, b, p)
    ensures ModDividesPoly(k, Deriv(Times(a, b)), p)
  {
    hide Cong, Times, Deriv, EqMod, Add;
    DivisorTimes(k, Deriv(a), b, p);
    DivisorTimes(k, a, Deriv(b), p);
    DividesAdd(k, Times(Deriv(a), b), 1, Times(a, Deriv(b)), p);
    DerivTimes(a, b, p);
    EqModSymmetric(Deriv(Times(a, b)), Add(Times(Deriv(a), b), 1, Times(a, Deriv(b))), p);
    DividesEq(k, Add(Times(Deriv(a), b), 1, Times(a, Deriv(b))), Deriv(Times(a, b)), p);
  }

  /** A double divisor divides the derivative. */
  lemma DoubleDivides(k: Poly, f: Poly, p: int)
    requires ModDividesPoly(Times(k, k), f, p)
    ensures ModDividesPoly(k, f, p) && ModDividesPoly(k, Deriv(f), p)
  {
    hide Cong, Times, Deriv, EqMod;
    var q := DivisorWitness(Times(k, k), f, p);
    DividesItself(k, p);
    DivisorTimes(k, k, k, p);
    DividesThrough(k, Times(k, k), f, p);
    TimesAssociative(q, k, k);
    DivisorTimes(k, q, k, p);
    DerivOfDouble(k, Times(q, k), k, p);
    DerivEq(f, Times(Times(q, k), k), p);
    EqModSymmetric(Deriv(f), Deriv(Times(Times(q, k), k)), p);
    DividesEq(k, Deriv(Times(Times(q, k), k)), Deriv(f), p);
  }

  /** A monic polynomial of degree below `p` does not divide its derivative. */
  lemma NotOwnDerivative(k: Poly, p: int)
    requires Prime(p) && Monic(k, p) && 1 < |k| <= p
    ensures !ModDividesPoly(k, Deriv(k), p)
  {
    hide Cong, Prime, Divides;
    PrimeAboveOne(p);
    if ModDividesPoly(k, Deriv(k), p) {
      ShortMultiple(k, Deriv(k), p);
      var n := |k| - 1;
      assert Deriv(k)[n - 1] == n * k[n];
      assert Divides(p, At(Deriv(k), n - 1));
      DivisorBound(p, n);
    }
  }

  /** A common irreducible divisor of a polynomial and its derivative divides it twice. */
  lemma CommonIsDouble(k: Poly, f: Poly, p: int)
    requires Prime(p) && Irreducible(k, p) && |k| <= p && ModDividesPoly(k, f, p) && ModDividesPoly(k, Deriv(f), p)
    ensures ModDividesPoly(Times(k, k), f, p)
  {
    hide Cong, Times, Deriv, EqMod, Prime, Irreducible, Add, Combines;
    IrreducibleDegree(k, p);
    var q := DivisorWitness(k, f, p);
    var x, y := Times(Deriv(q), k), Times(q, Deriv(k));
    DerivEq(f, Times(q, k), p);
    DerivTimes(q, k, p);
    EqModTransitive(Deriv(f), Deriv(Times(q, k)), Add(x, 1, y), p);
    DividesEq(k, Deriv(f), Add(x, 1, y), p);
    DividesItself(k, p);
    DivisorTimes(k, Deriv(q), k, p);
    DividesAdd(k, Add(x, 1, y), -1, x, p);
    Leaves(x, y, p);
    DividesEq(k, Add(Add(x, 1, y), -1, x), y, p);
    EuclidsLemma(k, q, Deriv(k), p);
    NotOwnDerivative(k, p);
    ProductDivides(k, q, k, f, p);
  }

  lemma Leaves(x: Poly, y: Poly, p: int)
    ensures EqMod(Add(Add(x, 1, y), -1, x), y, p)
  {
    hide Divides, Add, At;
    var l := Add(Add(x, 1, y), -1, x);
    forall k ensures At(l, k) == At(y, k) {
      assert At(l, k) == At(Add(x, 1, y), k) + -1 * At(x, k - 0);
      assert At(Add(x, 1, y), k) == At(x, k) + 1 * At(y, k - 0);
    }
    SameEqMod(l, y, p);
  }

  /** The test: it accepts square-free polynomials only, and all of them if the prime is above the degree. */
  method IsSquareFree(g: Poly, p: int) returns (ok: bool)
    requires Prime(p) && Monic(g, p)
    ensures ok ==> SquareFreeMod(g, p)
    ensures |g| <= p ==> (ok <==> SquareFreeMod(g, p))
  {
    hide Prime, Cong, Times, SameDivisors, Deriv, SquareFreeMod, EqMod;
    PrimeAboveOne(p);
    var derivative := DerivP(g, p);
    var d := PolyGcd(g, derivative, p);
    ok := |d| <= 1;
    if ok {
      NoCommonDivisor(g, derivative, d, p);
    } else if |g| <= p {
      CommonDivisor(g, derivative, d, p);
    }
  }

  lemma NoCommonDivisor(g: Poly, derivative: Poly, d: Poly, p: int)
    requires Prime(p) && Monic(g, p) && EqMod(derivative, Deriv(g), p) && IsGcd(d, g, derivative, p) && |d| <= 1
    requires d != []
    ensures SquareFreeMod(g, p)
  {
    hide Prime, Cong, Times, SameDivisors, Deriv, EqMod, Irreducible;
    EqModSymmetric(derivative, Deriv(g), p);
    forall k | Irreducible(k, p) ensures !ModDividesPoly(Times(k, k), g, p) {
      if ModDividesPoly(Times(k, k), g, p) {
        DoubleDivides(k, g, p);
        DividesEq(k, Deriv(g), derivative, p);
        CommonDividesGcd(k, d, g, derivative, p);
        assert d == [1];
        OneNotDivided(k, p);
      }
    }
  }

  lemma CommonDivisor(g: Poly, derivative: Poly, d: Poly, p: int)
    requires Prime(p) && Monic(g, p) && EqMod(derivative, Deriv(g), p) && IsGcd(d, g, derivative, p) && 1 < |d|
    requires |g| <= p
    ensures !SquareFreeMod(g, p)
  {
    hide Prime, Cong, Times, Deriv, EqMod, Irreducible, SameDivisors;
    assert Monic(d, p);
    GcdDividesThem(d, g, derivative, p);
    var k := SomeIrreducible(d, p);
    DividesThrough(k, d, g, p);
    DividesThrough(k, d, derivative, p);
    DividesEq(k, derivative, Deriv(g), p);
    IrreducibleDegree(k, p);
    var q := MonicCofactor(g, k, p);
    assert |k| <= |g|;
    CommonIsDouble(k, g, p);
  }

  lemma GcdDividesThem(d: Poly, a: Poly, b: Poly, p: int)
    requires IsGcd(d, a, b, p)
    ensures ModDividesPoly(d, a, p) && ModDividesPoly(d, b, p)
  {
    hide Cong;
    DividesItself(d, p);
    DividesNothing(d, p);
    assert Common(d, d, [], p);
  }
}
