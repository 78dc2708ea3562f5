/** One square-free part of a polynomial, from its integer coefficients to its factors
    (src/cas/Factorization.cpp:1089-1272). */
module PolynomialFactoring {
  import opened IntegerGcd
  import opened IntegerPower
  import opened IntPoly
  import opened GaussLemma
  import opened FactorReconstruction
  import opened PolyCongruence
  import opened ModularPoly
  import opened MonicPoly
  import opened CantorZassenhaus
  import opened Irreducibility
  import opened DistinctDegrees
  import opened SquareFreeTest
  import opened Recombination
  import opened FactorBound
  import opened RestoredFactors

  /** `Unchanged` when the recombination finds a single factor; otherwise factors and what stands before them.
      `NoPrime` when none of the candidates passes the test. */
  datatype Factored = NoPrime | Unchanged | Split(leading: int, factors: seq<Poly>)

  /** The positive content, and the primitive part. */
  method RemoveContent(f: Poly) returns (content: nat, primitive: Poly)
    requires Trimmed(f) && f != []
    ensures content > 0 && Scaled(content, primitive) == f && Content(primitive) == 1 && Trimmed(primitive)
    ensures |primitive| == |f|
  {
    assert Content([]) == 0;
    hide Content, Divides, Gcd;
    content := 0;
    for i := 0 to |f|
      invariant content == Content(f[..i])
    {
      ContentNext(f, i);
      if f[i] != 0 {
        content := Gcd(content, Abs(f[i]));
      } else {
        GcdZero(content);
      }
    }
    assert f[..|f|] == f;
    ContentDivides(f);
    assert f[|f| - 1] != 0;
    primitive := f;
    if content > 1 {
      primitive := DivideContent(f, content);
    } else {
      assert Scaled(1, f) == f;
    }
    PrimitivePart(content, primitive);
    assert content * primitive[|f| - 1] == f[|f| - 1];
  }

  /** The residues of the monic transform. */
  method ReduceCoefficients(g: Poly, p: int) returns (r: Poly)
    requires p > 1 && MonicOver(g)
    ensures MonicPoly.Monic(r, p) && EqMod(r, g, p)
  {
    hide Divides, EqMod;
    r := g;
    for i := 0 to |g|
      invariant |r| == |g| && forall k :: i <= k < |g| ==> r[k] == g[k]
      invariant forall k :: 0 <= k < i ==> r[k] == Residue(g[k], p)
    {
      var x := TruncRem(r[i], p);
      if x < 0 { x := x + p; }
      assert x == Residue(g[i], p);
      r := r[i := x];
    }
    ResidueUnique(Residue(1, p), 1, p);
    ghost var full := r;
    r := Trim(r);
    assert full[|full| - 1] == 1;
    TrimmedSame(r, full);
    ResiduesEqual(g, r, p);
  }

  lemma ResiduesEqual(g: Poly, r: Poly, p: int)
    requires p > 0 && |r| == |g| && forall k :: 0 <= k < |g| ==> r[k] == Residue(g[k], p)
    ensures EqMod(r, g, p)
  {
    hide Divides, Residue;
    forall k ensures Divides(p, At(r, k) - At(g, k)) {
      if 0 <= k < |g| { DividesFlip(p, g[k], r[k]); } else { DividesSelf(p); }
    }
  }

  /** Undoes the monic substitution on every factor. */
  method RestoreAll(monics: seq<Poly>, lead: int) returns (hs: seq<Poly>, ghost cs: seq<int>)
    requires lead != 0 && AllMonicOver(monics)
    ensures AllRestored(hs, monics, lead, cs)
  {
    hide Restores;
    hs, cs := [], [];
    for j := 0 to |monics|
      invariant AllRestored(hs, monics[..j], lead, cs)
    {
      var h, c := BackSubstitute(monics[j], lead);
      hs, cs := hs + [h], cs + [c];
    }
    assert monics[..|monics|] == monics;
  }

  /** The polynomial without its content. */
  function Primitive(f: Poly): (r: Poly)
    requires Content(f) > 0
    ensures |r| == |f|
  {
    seq(|f|, i requires 0 <= i < |f| => f[i] / Content(f))
  }

  lemma PrimitiveIs(f: Poly, content: nat, primitive: Poly)
    requires content > 0 && Scaled(content, primitive) == f && Content(primitive) == 1
    ensures content == Content(f) && primitive == Primitive(f)
  {
    hide Content;
    ContentScaled(content, primitive);
    forall i | 0 <= i < |f| ensures primitive[i] == f[i] / content {
      assert f[i] == content * primitive[i];
      QuotientOf(content, primitive[i]);
    }
  }

  lemma QuotientOf(c: int, x: int)
    requires c > 0
    ensures c * x / c == x
  {
    var y := c * x;
    assert Divides(c, y);
    FactorReconstruction.ExactQuotient(c, y);
    if y / c != x { NonZeroTimes(c, y / c - x); }
  }

  /** A single factor means that the polynomial cannot be split. */
  lemma WholeIndecomposable(f: Poly, content: int, primitive: Poly, trueFactors: seq<Poly>)
    requires content != 0 && f == Scaled(content, primitive) && Trimmed(primitive) && |primitive| > 1
    requires |trueFactors| == 1 && Product(trueFactors) == FactorReconstruction.Monic(primitive)
    requires AllIrreducibleOver(trueFactors)
    ensures Indecomposable(f)
  {
    hide Product, FactorReconstruction.Monic, IrreducibleOver, Substituted, Pow, Times;
    var g, lead := FactorReconstruction.Monic(primitive), primitive[|primitive| - 1];
    OneProduct(trueFactors[0]);
    assert trueFactors == [trueFactors[0]];
    MonicUndone(primitive);
    var power := Pow(lead, |primitive| - 2);
    PowNonZero(lead, |primitive| - 2);
    ScaledBoth(power, content, primitive);
    RestoredIndecomposable(f, g, lead, power, content);
  }

  lemma OneProduct(a: Poly)
    ensures Product([a]) == a
  {
    ProductAppend([], a);
    assert [] + [a] == [a];
    TimesOne(a);
  }

  lemma ScaledBoth(x: int, y: int, a: Poly)
    ensures Scaled(x, Scaled(y, a)) == Scaled(y, Scaled(x, a))
  {
    forall i | 0 <= i < |a| ensures Scaled(x, Scaled(y, a))[i] == Scaled(y, Scaled(x, a))[i] {
      assert x * (y * a[i]) == y * (x * a[i]);
    }
  }

  lemma PartsIndecomposable(hs: seq<Poly>, monics: seq<Poly>, lead: int, cs: seq<int>)
    requires lead != 0 && AllRestored(hs, monics, lead, cs) && AllIrreducibleOver(monics)
    ensures forall i :: 0 <= i < |hs| ==> Indecomposable(hs[i])
  {
    hide Content, Substituted, IrreducibleOver, Indecomposable;
    forall i | 0 <= i < |hs| ensures Indecomposable(hs[i]) {
      assert Restores(hs[i], monics[i], lead, cs[i]);
      assert Scaled(1, Substituted(monics[i], lead)) == Substituted(monics[i], lead);
      RestoredIndecomposable(hs[i], monics[i], lead, cs[i], 1);
    }
  }

  lemma SquareFreeSame(a: Poly, b: Poly, p: int)
    requires EqMod(a, b, p)
    ensures SquareFreeMod(a, p) <==> SquareFreeMod(b, p)
  {
    hide EqMod, ModDividesPoly, Times, Irreducible;
    EqModSymmetric(a, b, p);
    forall k | Irreducible(k, p) ensures ModDividesPoly(Times(k, k), a, p) <==> ModDividesPoly(Times(k, k), b, p) {
      if ModDividesPoly(Times(k, k), a, p) { DividesEq(Times(k, k), a, b, p); }
      if ModDividesPoly(Times(k, k), b, p) { DividesEq(Times(k, k), b, a, p); }
    }
  }

  ghost predicate AllPrime(candidates: seq<nat>) {
    forall c :: c in candidates ==> Prime(c)
  }

  /** The first candidate modulo which the polynomial is square-free; candidates above the degree are not missed. */
  method ChoosePrime(g: Poly, candidates: seq<nat>) returns (found: bool, p: nat, reduced: Poly)
    requires MonicOver(g) && AllPrime(candidates)
    ensures found ==> p in candidates && MonicPoly.Monic(reduced, p) && EqMod(reduced, g, p) && SquareFreeMod(g, p)
    ensures !found ==> forall c :: c in candidates && |g| <= c ==> !SquareFreeMod(g, c)
  {
    hide Prime, EqMod, SquareFreeMod, MonicPoly.Monic;
    found, p, reduced := false, 0, [];
    for i := 0 to |candidates|
      invariant forall k :: 0 <= k < i && |g| <= candidates[k] ==> !SquareFreeMod(g, candidates[k])
    {
      var c := candidates[i];
      assert c in candidates;
      PrimeAboveOne(c);
      reduced := ReduceCoefficients(g, c);
      SameLength(reduced, g, c);
      SquareFreeSame(reduced, g, c);
      var ok := IsSquareFree(reduced, c);
      if ok {
        return true, c, reduced;
      }
    }
  }

  lemma SameLength(a: Poly, g: Poly, p: int)
    requires p > 1 && MonicPoly.Monic(a, p) && MonicOver(g) && EqMod(a, g, p)
    ensures |a| == |g|
  {
    hide Divides;
    if |a| > |g| {
      assert Divides(p, At(a, |a| - 1) - At(g, |a| - 1));
      ResidueUnique(1, 0, p);
    } else if |g| > |a| {
      assert Divides(p, At(a, |g| - 1) - At(g, |g| - 1));
      ResidueUnique(0, 1, p);
    }
  }

  ghost predicate GoodRandoms(candidates: seq<nat>, randoms: nat -> nat -> seq<Poly>) {
    forall c :: c in candidates ==> GoodStream(randoms(c), c)
  }

  /** What the factorisation promises once the prime is large enough for the coefficients of all factors. */
  ghost predicate FullySplit(f: Poly, res: Factored) {
    match res
    case NoPrime => false
    case Unchanged => Indecomposable(f)
    case Split(_, factors) => forall i :: 0 <= i < |factors| ==> Indecomposable(factors[i])
  }

  /** The modular factors come from a square-free image of the polynomial, as the random polynomials split it. */
  ghost predicate Drawn(modular: seq<Poly>, g: Poly, finished: bool, randoms: nat -> seq<Poly>, p: nat) {
    exists reduced, parts, rest, groups :: EqMod(reduced, g, p) && SquareFreeMod(reduced, p) && PartsDivide(parts, p)
      && FactoredBy(modular, reduced, parts, rest, groups, finished, randoms, p)
  }

  lemma DrawnBy(modular: seq<Poly>, reduced: Poly, parts: seq<Part>, rest: Poly, groups: seq<seq<Poly>>,
                finished: bool, randoms: nat -> seq<Poly>, p: nat, g: Poly)
    requires EqMod(reduced, g, p) && SquareFreeMod(reduced, p) && PartsDivide(parts, p)
    requires FactoredBy(modular, reduced, parts, rest, groups, finished, randoms, p)
    ensures Drawn(modular, g, finished, randoms, p)
  {
    hide EqMod, SquareFreeMod, PartsDivide, FactoredBy;
  }

  /** The primes that are tried above a bound, which is what asking for the next prime again and again gives. */
  ghost predicate PrimesAbove(primes: nat -> seq<nat>) {
    forall b: nat, c :: c in primes(b) ==> Prime(c) && c > b
  }

  /**
   * The factors times what stands before them are exactly the polynomial, whatever primes and random polynomials are
   * used. If the random polynomials were enough (`finished`), then no factor can be split, and a polynomial that is
   * left alone cannot be split either: the primes are above twice the Mignotte bound of the monic transform.
   */
  method FactorPart(f: Poly, primes: nat -> seq<nat>, randoms: nat -> nat -> seq<Poly>)
    returns (res: Factored, bound: nat, p: nat, ghost modular: seq<Poly>, ghost finished: bool)
    requires Trimmed(f) && |f| > 2 && PrimesAbove(primes) && forall b: nat :: GoodRandoms(primes(b), randoms)
    ensures Content(f) > 0
    ensures res.NoPrime? ==>
      forall c :: c in primes(2 * bound) ==> !SquareFreeMod(FactorReconstruction.Monic(Primitive(f)), c)
    ensures res.Split? ==> Scaled(res.leading, Product(res.factors)) == f && Abs(res.leading) == Content(f)
    ensures res.Split? ==> |res.factors| != 1 && forall i :: 0 <= i < |res.factors| ==> Content(res.factors[i]) == 1
    ensures !res.NoPrime? ==>
      p in primes(2 * bound) && AllMonic(modular, p) &&
        EqMod(Product(modular), FactorReconstruction.Monic(Primitive(f)), p)
    ensures !res.NoPrime? && finished ==> AllIrreducible(modular, p)
    ensures !res.NoPrime? ==> Drawn(modular, FactorReconstruction.Monic(Primitive(f)), finished, randoms(p), p)
    ensures !res.NoPrime? && finished ==> FullySplit(f, res)
  {
    hide Content, Prime, Product, EqMod, Divides, FactorReconstruction.Monic, AllRestored, Primitive;
    hide AllIrreducible, AboveFactors, IrreducibleOver, Indecomposable, SquareFreeMod, GoodStream, Drawn, FactoredBy;
    hide PartsDivide;
    modular, finished := [], false;
    var content, primitive := RemoveContent(f);
    PrimitiveIs(f, content, primitive);
    var lead := primitive[|primitive| - 1];
    var g := MonicTransform(primitive);
    MonicIsMonic(primitive);
    p := 0;
    bound := Mignotte(g);
    var candidates := primes(2 * bound);
    var found, reduced;
    found, p, reduced := ChoosePrime(g, candidates);
    if !found {
      res := NoPrime;
      return;
    }
    PrimeAboveOne(p);
    SquareFreeSame(reduced, g, p);
    var modFactors; ghost var parts, rest, groups;
    modFactors, parts, rest, finished, groups := Factor(reduced, p, randoms(p));
    modular := modFactors;
    DrawnBy(modular, reduced, parts, rest, groups, finished, randoms(p), p, g);
    EqModTransitive(Product(modFactors), reduced, g, p);
    var trueFactors; ghost var remaining, last;
    trueFactors, remaining, last := Recombine(g, modFactors, p);
    ghost var fine := finished;
    assert AboveFactors(g, p);
    if |trueFactors| == 1 {
      if fine { WholeIndecomposable(f, content, primitive, trueFactors); }
      res := Unchanged;
      return;
    }
    var hs; ghost var cs;
    hs, cs := RestoreAll(trueFactors, lead);
    ReconstructionExact(primitive, trueFactors, hs, cs);
    var leading: int := content;
    if lead < 0 && (|primitive| - 1) % 2 == 0 {
      leading := -leading;
    }
    ScaledTwice(content, LostSign(primitive), Product(hs));
    RestoredPrimitive(hs, trueFactors, lead, cs);
    ContentScaled(content, primitive);
    if fine { PartsIndecomposable(hs, trueFactors, lead, cs); }
    res := Split(leading, hs);
  }

  lemma MonicIsMonic(f: Poly)
    requires f != []
    ensures MonicOver(FactorReconstruction.Monic(f))
  {
  }

  lemma RestoredPrimitive(hs: seq<Poly>, monics: seq<Poly>, lead: int, cs: seq<int>)
    requires AllRestored(hs, monics, lead, cs)
    ensures |hs| == |monics| && forall i :: 0 <= i < |hs| ==> Content(hs[i]) == 1
  {
    hide Content;
  }

  /** The sign is needed: 1 - x^2 has the monic transform (y - 1) * (y + 1), whose restored factors -1 - x and 1 - x
      multiply to its negative. */
  lemma SignIsNeeded()
    ensures var f, monics, hs := [1, 0, -1], [[-1, 1], [1, 1]], [[-1, -1], [1, -1]];
      && Product(monics) == FactorReconstruction.Monic(f) && AllRestored(hs, monics, -1, [1, 1])
      && Product(hs) == [-1, 0, 1] && Product(hs) != f && Scaled(LostSign(f), Product(hs)) == f
  {
    var f, monics, hs := [1, 0, -1], [[-1, 1], [1, 1]], [[-1, -1], [1, -1]];
    TwoFactors([-1, 1], [1, 1]);
    TwoFactors([-1, -1], [1, -1]);
    LinearTimes(-1, 1, 1, 1);
    LinearTimes(-1, -1, 1, -1);
    MonicOfDifference();
    LinearRestored(-1, 1);
    LinearRestored(1, 1);
    SignOfDifference();
    hide *;
  }

  lemma SignOfDifference()
    ensures LostSign([1, 0, -1]) == -1 && Scaled(-1, [-1, 0, 1]) == [1, 0, -1]
  {
  }

  lemma MonicOfDifference()
    ensures FactorReconstruction.Monic([1, 0, -1]) == [-1, 0, 1]
  {
    var f := [1, 0, -1];
    assert f[0] * Pow(-1, 1) == -1 && f[1] * Pow(-1, 0) == 0;
  }

  lemma TwoFactors(a: Poly, b: Poly)
    requires a != []
    ensures Product([a, b]) == Times(a, b)
  {
    ProductAppend([a], b);
    assert [a] + [b] == [a, b];
    OneProduct(a);
  }

  lemma LinearTimes(a: int, b: int, c: int, d: int)
    ensures Times([a, b], [c, d]) == [a * c, a * d + b * c, b * d]
  {
    var y := [c, d];
    assert [a, b][..1] == [a] && [a][..0] == [];
    forall k | 0 <= k < 3 ensures Conv([a, b], y, k) == a * At(y, k) + b * At(y, k - 1) {
      assert Conv([a], y, k) == Conv([], y, k) + a * At(y, k);
    }
  }

  /** x + a and -x + a restore each other. */
  lemma LinearRestored(a: int, b: int)
    requires b == 1 && (a == 1 || a == -1)
    ensures Restores([a, -b], [a, b], -1, 1)
  {
  }
}
