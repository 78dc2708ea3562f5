/** A random polynomial that separates two irreducible factors takes them apart (src/cas/Factorization.cpp:752-776). */
module SeparatingDraws {
  import opened IntegerGcd
  import opened IntPoly
  import opened PolyCongruence
  import opened ModularPoly
  import opened MonicPoly
  import opened Irreducibility
  import opened FiniteField
  import opened DistinctDegrees

  /** Half the number of nonzero residues modulo an irreducible polynomial of degree `d`. */
  ghost function HalfOrder(p: nat, d: nat): nat {
    if PrimePower(p, d) == 0 then 0 else (PrimePower(p, d) - 1) / 2
  }

  /** The power of `a` that the loop takes is one modulo u and not one modulo w. */
  ghost predicate Separates(a: Poly, u: Poly, w: Poly, p: nat, d: nat) {
    && Irreducible(u, p) && Irreducible(w, p) && |u| - 1 == |w| - 1 == d
    && Cong(Power(a, HalfOrder(p, d)), [1], u, p) && !Cong(Power(a, HalfOrder(p, d)), [1], w, p)
  }

  /** Some factor is divisible by both. */
  ghost predicate Together(factors: seq<Poly>, u: Poly, w: Poly, p: int) {
    exists i :: 0 <= i < |factors| && ModDividesPoly(u, factors[i], p) && ModDividesPoly(w, factors[i], p)
  }

  /** u divides f exactly once. */
  ghost predicate Once(u: Poly, f: Poly, p: int) {
    ModDividesPoly(u, f, p) && !ModDividesPoly(Times(u, u), f, p)
  }

  /** No factor is divisible by both u and w, for all pairs that `a` separates with u exactly once in f. */
  ghost predicate SeparatedBy(a: Poly, f: Poly, factors: seq<Poly>, p: nat, d: nat) {
    forall u, w :: Separates(a, u, w, p, d) && Once(u, f, p) ==> !Together(factors, u, w, p)
  }

  ghost predicate AllSeparated(draws: seq<Poly>, f: Poly, factors: seq<Poly>, p: nat, d: nat) {
    forall i :: 0 <= i < |draws| ==> SeparatedBy(draws[i], f, factors, p, d)
  }

  // ----- One pass -----

  /** u divides `b` and w does not. */
  ghost predicate Parted(u: Poly, w: Poly, b: Poly, p: int, d: nat) {
    && Irreducible(u, p) && Irreducible(w, p) && |u| - 1 == |w| - 1 == d
    && ModDividesPoly(u, b, p) && !ModDividesPoly(w, b, p)
  }

  /** The gcds with `b` have taken apart whatever `b` parts. */
  ghost predicate Apart(factors: seq<Poly>, b: Poly, m: Poly, p: int, d: nat) {
    forall u, w :: Parted(u, w, b, p, d) && !ModDividesPoly(Times(u, u), m, p) ==> !Together(factors, u, w, p)
  }

  /** Every new factor divides an old one. */
  ghost predicate Refines(next: seq<Poly>, factors: seq<Poly>, p: int) {
    forall j :: 0 <= j < |next| ==> DividesOne(next[j], factors, p)
  }

  ghost predicate DividesOne(g: Poly, factors: seq<Poly>, p: int) {
    exists k :: 0 <= k < |factors| && ModDividesPoly(g, factors[k], p)
  }

  lemma RefinesApart(next: seq<Poly>, factors: seq<Poly>, u: Poly, w: Poly, p: int)
    requires Refines(next, factors, p) && Together(next, u, w, p)
    ensures Together(factors, u, w, p)
  {
    hide ModDividesPoly;
    var i :| 0 <= i < |next| && ModDividesPoly(u, next[i], p) && ModDividesPoly(w, next[i], p);
    assert DividesOne(next[i], factors, p);
    var k :| 0 <= k < |factors| && ModDividesPoly(next[i], factors[k], p);
    DividesThrough(u, next[i], factors[k], p);
    DividesThrough(w, next[i], factors[k], p);
  }

  lemma ExtendRefines(next: seq<Poly>, factors: seq<Poly>, f: Poly, g: Poly, p: int)
    requires Refines(next, factors, p) && ModDividesPoly(g, f, p)
    ensures Refines(next + [g], factors + [f], p)
  {
    hide ModDividesPoly;
    var longer, all := next + [g], factors + [f];
    forall j | 0 <= j < |longer| ensures DividesOne(longer[j], all, p) {
      if j < |next| {
        assert DividesOne(next[j], factors, p);
        var k :| 0 <= k < |factors| && ModDividesPoly(next[j], factors[k], p);
        assert ModDividesPoly(longer[j], all[k], p);
      } else {
        assert ModDividesPoly(longer[j], all[|factors|], p);
      }
    }
  }

  lemma ExtendRefinesTwice(next: seq<Poly>, factors: seq<Poly>, f: Poly, g: Poly, h: Poly, p: int)
    requires Refines(next, factors, p) && ModDividesPoly(g, f, p) && ModDividesPoly(h, f, p)
    ensures Refines(next + [g] + [h], factors + [f], p)
  {
    hide ModDividesPoly, DividesOne;
    ExtendRefines(next, factors, f, g, p);
    ExtendRefines(next, factors, f, h, p);
    var longer, all := next + [g] + [h], factors + [f];
    forall j | 0 <= j < |longer| ensures DividesOne(longer[j], all, p) {
      if j < |next| + 1 {
        assert longer[j] == (next + [g])[j];
      } else {
        assert longer[j] == (next + [h])[|next|];
      }
    }
  }

  lemma ExtendApart(factors: seq<Poly>, g: Poly, b: Poly, m: Poly, p: int, d: nat)
    requires Apart(factors, b, m, p, d) && Apart([g], b, m, p, d)
    ensures Apart(factors + [g], b, m, p, d)
  {
    hide ModDividesPoly, Parted, Times;
    forall u, w | Parted(u, w, b, p, d) && !ModDividesPoly(Times(u, u), m, p)
      ensures !Together(factors + [g], u, w, p)
    {
      assert !Together(factors, u, w, p) && !Together([g], u, w, p);
      if Together(factors + [g], u, w, p) { TogetherEither(factors, g, u, w, p); }
    }
  }

  lemma TogetherEither(factors: seq<Poly>, g: Poly, u: Poly, w: Poly, p: int)
    requires Together(factors + [g], u, w, p)
    ensures Together(factors, u, w, p) || Together([g], u, w, p)
  {
    hide ModDividesPoly;
    var all := factors + [g];
    var i :| 0 <= i < |all| && ModDividesPoly(u, all[i], p) && ModDividesPoly(w, all[i], p);
    if i < |factors| {
      assert ModDividesPoly(u, factors[i], p) && ModDividesPoly(w, factors[i], p);
    } else {
      assert ModDividesPoly(u, [g][0], p) && ModDividesPoly(w, [g][0], p);
    }
  }

  // ----- The gcd with one factor -----

  lemma SingleTogether(f: Poly, u: Poly, w: Poly, p: int)
    requires Together([f], u, w, p)
    ensures ModDividesPoly(u, f, p) && ModDividesPoly(w, f, p)
  {
    hide ModDividesPoly;
  }

  /** Monic polynomials of one degree that divide each other are equal. */
  lemma SameDegree(f: Poly, u: Poly, p: int)
    requires Prime(p) && Monic(f, p) && Monic(u, p) && |f| == |u| && ModDividesPoly(u, f, p)
    ensures f == u
  {
    hide ModDividesPoly, Times, EqMod, Prime;
    PrimeAboveOne(p);
    var q := MonicCofactor(f, u, p);
    assert q == [1];
    TimesOne(u);
    CanonicalUnique(f, u, p);
  }

  /** A factor of the degree that is looked for. */
  lemma DegreeApart(f: Poly, b: Poly, m: Poly, p: int, d: nat)
    requires Prime(p) && Monic(f, p) && |f| - 1 == d
    ensures Apart([f], b, m, p, d)
  {
    hide ModDividesPoly, Times, Irreducible, Together, Prime;
    forall u, w | Parted(u, w, b, p, d) && !ModDividesPoly(Times(u, u), m, p) ensures !Together([f], u, w, p) {
      if Together([f], u, w, p) {
        SingleTogether(f, u, w, p);
        IrreducibleDegree(u, p);
        IrreducibleDegree(w, p);
        SameDegree(f, u, p);
        SameDegree(f, w, p);
      }
    }
  }

  lemma GcdFacts(g: Poly, b: Poly, f: Poly, p: int)
    requires IsGcd(g, b, f, p) && p > 1 && g != []
    ensures Monic(g, p) && ModDividesPoly(g, b, p) && ModDividesPoly(g, f, p)
  {
    hide Cong, Times;
    TimesOne(g);
    MultipleCong([1], g, p);
    DividesNothing(g, p);
    assert Common(g, g, [], p);
  }

  /** A factor that the gcd does not split: all of it divides `b`, or nothing of it. */
  lemma WholeApart(f: Poly, b: Poly, g: Poly, m: Poly, p: int, d: nat)
    requires Prime(p) && Monic(f, p) && IsGcd(g, b, f, p) && g != [] && (|g| <= 1 || |g| >= |f|)
    ensures Apart([f], b, m, p, d)
  {
    hide ModDividesPoly, Times, Irreducible, Together, Prime, IsGcd;
    PrimeAboveOne(p);
    GcdFacts(g, b, f, p);
    forall u, w | Parted(u, w, b, p, d) && !ModDividesPoly(Times(u, u), m, p) ensures !Together([f], u, w, p) {
      if Together([f], u, w, p) {
        SingleTogether(f, u, w, p);
        if |g| <= 1 {
          assert g == [1];
          OneNotDivided(u, p);
          CommonDividesGcd(u, g, b, f, p);
        } else {
          var q := MonicCofactor(f, g, p);
          SameDegree(f, g, p);
          DividesThrough(w, f, b, p);
        }
      }
    }
  }

  /** A factor that is split: what divides `b` and what does not part company. */
  lemma PiecesApart(f: Poly, b: Poly, g: Poly, q: Poly, m: Poly, p: int, d: nat)
    requires IsGcd(g, b, f, p) && g != [] && p > 1 && EqMod(f, Times(q, g), p) && ModDividesPoly(f, m, p)
    ensures Apart([g], b, m, p, d) && Apart([q], b, m, p, d)
  {
    hide ModDividesPoly, Times, Irreducible, Together, IsGcd, EqMod;
    GcdFacts(g, b, f, p);
    forall u, w | Parted(u, w, b, p, d) && !ModDividesPoly(Times(u, u), m, p)
      ensures !Together([g], u, w, p) && !Together([q], u, w, p)
    {
      if Together([g], u, w, p) {
        SingleTogether(g, u, w, p);
        DividesThrough(w, g, b, p);
      }
      if Together([q], u, w, p) {
        SingleTogether(q, u, w, p);
        FactorDivides(f, q, g, p);
        DividesThrough(u, q, f, p);
        CommonDividesGcd(u, g, b, f, p);
        ProductDivides(u, q, g, f, p);
        DividesThrough(Times(u, u), f, m, p);
      }
    }
  }

  // ----- What a draw parts -----

  /** Subtracting one from the power: u divides the result exactly when the power is one modulo u. */
  lemma DrawDivides(power: Poly, r: Poly, b: Poly, f: Poly, u: Poly, p: int)
    requires Cong(r, power, f, p) && EqMod(b, Add(r, -1, [1]), p) && ModDividesPoly(u, f, p)
    ensures ModDividesPoly(u, b, p) <==> Cong(power, [1], u, p)
  {
    hide Cong, EqMod, Add;
    CongDivisor(r, power, f, u, p);
    CongReflexive([1], u, p);
    CongAdd(r, power, -1, [1], [1], u, p);
    EqModCong(b, Add(r, -1, [1]), u, p);
    CongTransitive(b, Add(r, -1, [1]), Add(power, -1, [1]), u, p);
    if Cong(power, [1], u, p) {
      CongAdd(power, [1], -1, [1], [1], u, p);
      SelfDifference([1], u, p);
      CongTransitive(b, Add(power, -1, [1]), Add([1], -1, [1]), u, p);
      CongTransitive(b, Add([1], -1, [1]), [], u, p);
    }
    if ModDividesPoly(u, b, p) {
      CongSymmetric(b, Add(power, -1, [1]), u, p);
      CongTransitive(Add(power, -1, [1]), b, [], u, p);
      DifferenceCong(u, power, [1], p);
    }
  }

  /** The pass with the draw `a` separates what `a` separates. */
  lemma DrawSeparates(a: Poly, r: Poly, b: Poly, f: Poly, factors: seq<Poly>, m: Poly, p: nat, d: nat)
    requires Cong(r, Power(a, HalfOrder(p, d)), f, p) && EqMod(b, Add(r, -1, [1]), p)
    requires Apart(factors, b, m, p, d) && EqMod(m, f, p) && EqMod(Product(factors), f, p)
    ensures SeparatedBy(a, f, factors, p, d)
  {
    hide ModDividesPoly, Times, Irreducible, Cong, EqMod, Power, HalfOrder, Product;
    forall u, w | Separates(a, u, w, p, d) && Once(u, f, p) ensures !Together(factors, u, w, p)
    {
      if Together(factors, u, w, p) {
        TogetherDivide(factors, f, u, w, p);
        DrawDivides(Power(a, HalfOrder(p, d)), r, b, f, u, p);
        DrawDivides(Power(a, HalfOrder(p, d)), r, b, f, w, p);
        assert Parted(u, w, b, p, d);
        if ModDividesPoly(Times(u, u), m, p) { DividesEq(Times(u, u), m, f, p); }
      }
    }
  }

  lemma TogetherDivide(factors: seq<Poly>, f: Poly, u: Poly, w: Poly, p: int)
    requires Together(factors, u, w, p) && EqMod(Product(factors), f, p)
    ensures ModDividesPoly(u, f, p) && ModDividesPoly(w, f, p)
  {
    hide ModDividesPoly, EqMod, Product;
    var i :| 0 <= i < |factors| && ModDividesPoly(u, factors[i], p) && ModDividesPoly(w, factors[i], p);
    FactorOfProduct(factors, f, i, p);
    DividesThrough(u, factors[i], f, p);
    DividesThrough(w, factors[i], f, p);
  }

  /** Later passes keep apart what earlier draws have separated. */
  lemma StillSeparated(draws: seq<Poly>, f: Poly, factors: seq<Poly>, next: seq<Poly>, p: nat, d: nat)
    requires AllSeparated(draws, f, factors, p, d) && Refines(next, factors, p)
    ensures AllSeparated(draws, f, next, p, d)
  {
    hide ModDividesPoly, Separates, Times, Together, Refines;
    forall i | 0 <= i < |draws| ensures SeparatedBy(draws[i], f, next, p, d) {
      assert SeparatedBy(draws[i], f, factors, p, d);
      forall u, w | Separates(draws[i], u, w, p, d) && Once(u, f, p) ensures !Together(next, u, w, p) {
        if Together(next, u, w, p) { RefinesApart(next, factors, u, w, p); }
      }
    }
  }

  /** Irreducible factors are separate from each other. */
  lemma IrreducibleSeparated(draws: seq<Poly>, f: Poly, factors: seq<Poly>, p: nat, d: nat)
    requires Prime(p) && AllIrreducible(factors, p)
    ensures AllSeparated(draws, f, factors, p, d)
  {
    hide ModDividesPoly, Times, Irreducible, Cong, Power, HalfOrder, Prime;
    forall i, u, w | 0 <= i < |draws| && Separates(draws[i], u, w, p, d) ensures !Together(factors, u, w, p) {
      if Together(factors, u, w, p) {
        var j :| 0 <= j < |factors| && ModDividesPoly(u, factors[j], p) && ModDividesPoly(w, factors[j], p);
        DividesIrreducible(factors[j], u, p);
        DividesIrreducible(factors[j], w, p);
      }
    }
  }

  /** A nontrivial divisor of an irreducible polynomial is that polynomial. */
  lemma DividesIrreducible(f: Poly, u: Poly, p: int)
    requires Prime(p) && Irreducible(f, p) && Irreducible(u, p) && ModDividesPoly(u, f, p)
    ensures f == u
  {
    hide ModDividesPoly, Times, EqMod, Prime;
    var q := MonicCofactor(f, u, p);
    assert Splits(f, q, u, p);
    SameDegree(f, u, p);
  }
}
