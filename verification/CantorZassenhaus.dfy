/** Distinct- and equal-degree factorisation over Z_p (src/cas/Factorization.cpp:736-803). */
module CantorZassenhaus {
  import opened IntegerGcd
  import opened IntPoly
  import opened PolyCongruence
  import opened ModularPoly
  import opened MonicPoly
  import opened Irreducibility
  import opened FiniteField
  import opened DistinctDegrees
  import opened SeparatingDraws

  // ----- Exact division modulo p -----

  /** Splits off a monic divisor. */
  method SplitOff(f: Poly, g: Poly, p: int) returns (q: Poly)
    requires Prime(p) && Monic(f, p) && Monic(g, p) && ModDividesPoly(g, f, p)
    ensures Monic(q, p) && EqMod(f, Times(q, g), p) && |f| == |q| + |g| - 1
  {
    hide Divides, Conv, Prime, Times, Balanced, Cong;
    PrimeAboveOne(p);
    var division := Divide(f, g, p);
    q := division.value.0;
    DivisorLeavesNothing(f, g, q, division.value.1, p);
    CofactorMonic(f, g, q, p);
  }

  lemma GcdDividesBoth(g: Poly, a: Poly, b: Poly, p: int)
    requires IsGcd(g, a, b, p)
    ensures ModDividesPoly(g, a, p) && ModDividesPoly(g, b, p)
  {
    hide Cong, Times;
    TimesOne(g);
    MultipleCong([1], g, p);
    DividesNothing(g, p);
    assert Common(g, g, [], p);
  }

  // ----- czEDF -----

  /** One pass over the current factors with the polynomial `b`. */
  method SplitAll(factors: seq<Poly>, b: Poly, d: nat, p: int) returns (next: seq<Poly>)
    requires Prime(p) && AllMonic(factors, p) && Canonical(b, p)
    ensures AllMonic(next, p) && EqMod(Product(next), Product(factors), p)
    ensures forall i :: 0 <= i < |next| ==> |next[i]| > 1 || next[i] in factors
    ensures Refines(next, factors, p) && Apart(next, b, Product(factors), p, d)
  {
    hide Divides, Prime, Product, EqMod, SameDivisors, Cong, Times, Refines, Apart;
    PrimeAboveOne(p);
    next := [];
    SameSelf(Product([]), p);
    SameSelf(Product(factors), p);
    ghost var m := Product(factors);
    StartApart(b, m, p, d);
    for i := 0 to |factors|
      invariant AllMonic(next, p) && EqMod(Product(next), Product(factors[..i]), p)
      invariant forall j :: 0 <= j < |next| ==> |next[j]| > 1 || next[j] in factors
      invariant Refines(next, factors[..i], p) && Apart(next, b, m, p, d)
    {
      var u := factors[i];
      assert factors[..i + 1] == factors[..i] + [u];
      ProductAppend(factors[..i], u);
      ProductAppend(next, u);
      DividesItself(u, p);
      FactorOfProduct(factors, m, i, p);
      if |u| - 1 == d {
        ExtendProduct(Product(next), Product(factors[..i]), u, u, p);
        DegreeApart(u, b, m, p, d);
        KeepFactor(next, factors[..i], u, u, b, m, p, d);
        next := next + [u];
        continue;
      }
      var g := PolyGcd(b, u, p);
      if g != [] && |g| > 1 && |g| < |u| {
        GcdDividesBoth(g, b, u, p);
        var q := SplitOff(u, g, p);
        TakeBoth(next, factors[..i], u, g, q, p);
        PiecesApart(u, b, g, q, m, p, d);
        FactorDivides(u, q, g, p);
        SplitFactor(next, factors[..i], u, g, q, b, m, p, d);
        next := next + [g] + [q];
      } else {
        ExtendProduct(Product(next), Product(factors[..i]), u, u, p);
        WholeApart(u, b, g, m, p, d);
        KeepFactor(next, factors[..i], u, u, b, m, p, d);
        next := next + [u];
      }
    }
    assert factors[..|factors|] == factors;
  }

  lemma StartApart(b: Poly, m: Poly, p: int, d: nat)
    ensures Refines([], [], p) && Apart([], b, m, p, d)
  {
    hide ModDividesPoly, Parted;
  }

  lemma KeepFactor(next: seq<Poly>, done: seq<Poly>, u: Poly, g: Poly, b: Poly, m: Poly, p: int, d: nat)
    requires Refines(next, done, p) && Apart(next, b, m, p, d) && ModDividesPoly(g, u, p) && Apart([g], b, m, p, d)
    ensures Refines(next + [g], done + [u], p) && Apart(next + [g], b, m, p, d)
  {
    hide *;
    ExtendRefines(next, done, u, g, p);
    ExtendApart(next, g, b, m, p, d);
  }

  lemma SplitFactor(next: seq<Poly>, done: seq<Poly>, u: Poly, g: Poly, q: Poly, b: Poly, m: Poly, p: int, d: nat)
    requires Refines(next, done, p) && Apart(next, b, m, p, d) && ModDividesPoly(g, u, p) && ModDividesPoly(q, u, p)
    requires Apart([g], b, m, p, d) && Apart([q], b, m, p, d)
    ensures Refines(next + [g] + [q], done + [u], p) && Apart(next + [g] + [q], b, m, p, d)
  {
    hide *;
    ExtendRefinesTwice(next, done, u, g, q, p);
    ExtendApart(next, g, b, m, p, d);
    ExtendApart(next + [g], q, b, m, p, d);
  }

  lemma TakeBoth(next: seq<Poly>, done: seq<Poly>, u: Poly, g: Poly, q: Poly, p: int)
    requires EqMod(Product(next), Product(done), p) && EqMod(u, Times(q, g), p)
    ensures EqMod(Product(next + [g] + [q]), Times(Product(done), u), p)
  {
    hide EqMod, Times, Product;
    ProductAppend(next, g);
    ProductAppend(next + [g], q);
    TimesAssociative(Product(next), g, q);
    TimesCommutes(g, q);
    EqModSymmetric(u, Times(q, g), p);
    ExtendProduct(Product(next), Product(done), Times(q, g), u, p);
  }

  ghost predicate AllCanonical(fs: seq<Poly>, p: int) {
    forall i :: 0 <= i < |fs| ==> Canonical(fs[i], p)
  }

  /** Splits a product of irreducibles of degree `d`, drawing polynomials from `randoms`; `complete` says that the
      loop stopped by itself and not for want of random polynomials. Otherwise whatever some draw separates is
      separated. */
  method EqualDegree(f: Poly, d: nat, p: nat, randoms: seq<Poly>) returns (factors: seq<Poly>, complete: bool)
    requires Prime(p) && Monic(f, p) && |f| > 1 && d > 0 && AllCanonical(randoms, p)
    ensures AllMonic(factors, p) && EqMod(Product(factors), f, p)
    ensures forall i :: 0 <= i < |factors| ==> |factors[i]| > 1
    ensures complete ==> |factors| >= (|f| - 1) / d
    ensures complete && NoSmall(f, d, p) ==> AllIrreducible(factors, p)
    ensures !complete ==> |factors| < (|f| - 1) / d
    ensures !complete || NoSmall(f, d, p) ==> AllSeparated(randoms, f, factors, p, d)
  {
    hide Divides, Prime, Product, EqMod, Times, Cong, PrimePower, NoSmall, AllIrreducible, AllSeparated, Refines;
    hide SeparatedBy, Apart;
    var n := |f| - 1;
    OneFactor(f, p);
    if n == d {
      if NoSmall(f, d, p) {
        EnoughFactors([f], f, d, p);
        IrreducibleSeparated(randoms, f, [f], p, d);
      }
      return [f], true;
    }
    PrimeAboveOne(p);
    factors := [f];
    var exp := p;
    PrimePowerNext(p, 0);
    for i := 1 to d
      invariant exp == PrimePower(p, i)
    {
      PrimePowerNext(p, i);
      exp := exp * p;
    }
    HalfOrderIs(p, d);
    exp := (exp - 1) / 2;
    var drawn := 0;
    NothingDrawn(randoms[..0], f, [f], p, d);
    while |factors| < n / d && drawn < |randoms|
      invariant AllMonic(factors, p) && EqMod(Product(factors), f, p) && 0 <= drawn <= |randoms|
      invariant forall i :: 0 <= i < |factors| ==> |factors[i]| > 1
      invariant AllSeparated(randoms[..drawn], f, factors, p, d)
      decreases |randoms| - drawn
    {
      var a := randoms[drawn];
      ghost var before := drawn;
      drawn := drawn + 1;
      var r := PowerMod(a, exp, f, p);
      var b := Subtract(r, [1], p);
      var next := SplitAll(factors, b, d, p);
      EqModTransitive(Product(next), Product(factors), f, p);
      DrawSeparates(a, r, b, f, next, Product(factors), p, d);
      StillSeparated(randoms[..before], f, factors, next, p, d);
      OneMoreDraw(randoms, before, f, next, p, d);
      factors := next;
    }
    complete := |factors| >= n / d;
    if complete && NoSmall(f, d, p) {
      EnoughFactors(factors, f, d, p);
      IrreducibleSeparated(randoms, f, factors, p, d);
    }
    assert randoms[..|randoms|] == randoms;
  }

  lemma PrimePowerNext(p: nat, i: nat)
    ensures PrimePower(p, i + 1) == PrimePower(p, i) * p && PrimePower(p, 0) == 1 && (i == 0 ==> PrimePower(p, 1) == p)
  {
  }

  lemma HalfOrderIs(p: nat, d: nat)
    requires p > 0
    ensures PrimePower(p, d) > 0 && HalfOrder(p, d) == (PrimePower(p, d) - 1) / 2
  {
    PowerPositive(p, d);
  }

  lemma NothingDrawn(draws: seq<Poly>, f: Poly, factors: seq<Poly>, p: nat, d: nat)
    requires draws == []
    ensures AllSeparated(draws, f, factors, p, d)
  {
  }

  lemma OneMoreDraw(randoms: seq<Poly>, drawn: nat, f: Poly, factors: seq<Poly>, p: nat, d: nat)
    requires drawn < |randoms| && AllSeparated(randoms[..drawn], f, factors, p, d)
    requires SeparatedBy(randoms[drawn], f, factors, p, d)
    ensures AllSeparated(randoms[..drawn + 1], f, factors, p, d)
  {
    hide SeparatedBy;
    assert forall i :: 0 <= i < drawn ==> randoms[..drawn][i] == randoms[..drawn + 1][i];
  }

  lemma OneFactor(f: Poly, p: int)
    ensures EqMod(Product([f]), f, p)
  {
    hide EqMod, Times;
    assert [f] == [] + [f];
    ProductAppend([], f);
    TimesOne(f);
    SameSelf(f, p);
  }

  // ----- cantorZassenhaus -----

  datatype Part = Part(poly: Poly, degree: nat)

  ghost function Polys(parts: seq<Part>): seq<Poly> {
    seq(|parts|, i requires 0 <= i < |parts| => parts[i].poly)
  }

  /** Every distinct-degree part divides x^(p^d) - x for its degree `d`. */
  ghost predicate PartsDivide(parts: seq<Part>, p: nat) {
    forall i :: 0 <= i < |parts| ==> ModDividesPoly(parts[i].poly, Frobenius(p, parts[i].degree), p)
  }

  ghost predicate PartsAscend(parts: seq<Part>, below: nat) {
    (forall i :: 0 <= i < |parts| ==> 1 <= parts[i].degree < below)
    && forall i, j :: 0 <= i < j < |parts| ==> parts[i].degree < parts[j].degree
  }

  /** h' = h^p continues x^(p^(d-1)) to x^(p^d). */
  lemma FrobeniusStep(h: Poly, h': Poly, m: Poly, p: nat, d: nat)
    requires d > 0 && Cong(h, Power(X, PrimePower(p, d - 1)), m, p) && Cong(h', Power(h, p), m, p)
    ensures Cong(h', Power(X, PrimePower(p, d)), m, p)
  {
    hide Cong, Power;
    PowerCong(h, Power(X, PrimePower(p, d - 1)), p, m, p);
    PowerPower(X, PrimePower(p, d - 1), p);
    CongTransitive(h', Power(h, p), Power(X, PrimePower(p, d)), m, p);
  }

  /** A divisor of h - x and of the modulus divides x^(p^d) - x. */
  lemma PartDivides(h: Poly, difference: Poly, m: Poly, g: Poly, p: nat, d: nat)
    requires Cong(h, Power(X, PrimePower(p, d)), m, p) && EqMod(difference, Add(h, -1, X), p)
    requires ModDividesPoly(g, m, p) && ModDividesPoly(g, difference, p)
    ensures ModDividesPoly(g, Frobenius(p, d), p)
  {
    hide Cong, Power, EqMod, Add, PrimePower;
    var target := Power(X, PrimePower(p, d));
    CongDivisor(h, target, m, g, p);
    CongSymmetric(h, target, g, p);
    CongReflexive(X, g, p);
    CongAdd(target, h, -1, X, X, g, p);
    EqModSymmetric(difference, Add(h, -1, X), p);
    EqModCong(Add(h, -1, X), difference, g, p);
    CongTransitive(Add(target, -1, X), Add(h, -1, X), difference, g, p);
    CongTransitive(Add(target, -1, X), difference, [], g, p);
  }

  /** Taking a part out of the cofactor keeps the product. */
  lemma TakePart(factors: seq<Poly>, rest: Poly, found: seq<Poly>, g: Poly, q: Poly, f: Poly, p: int)
    requires EqMod(Times(Product(factors), rest), f, p) && EqMod(Product(found), g, p) && EqMod(rest, Times(q, g), p)
    ensures EqMod(Times(Product(factors + found), q), f, p)
  {
    hide EqMod, Times, Product;
    var a := Product(factors);
    ProductConcat(factors, found);
    TimesAssociative(a, Product(found), q);
    TimesCommutes(Product(found), q);
    ExtendProduct(q, q, Product(found), g, p) by { SameSelf(q, p); }
    EqModSymmetric(rest, Times(q, g), p);
    EqModTransitive(Times(q, Product(found)), Times(q, g), rest, p);
    ExtendProduct(a, a, Times(q, Product(found)), rest, p) by { SameSelf(a, p); }
    EqModTransitive(Times(a, Times(q, Product(found))), Times(a, rest), f, p);
  }

  ghost predicate GoodStream(randoms: nat -> seq<Poly>, p: int) {
    forall n :: AllCanonical(randoms(n), p)
  }

  /** All groups, one after the other. */
  function Flat(groups: seq<seq<Poly>>): seq<Poly> {
    if groups == [] then [] else Flat(groups[..|groups| - 1]) + groups[|groups| - 1]
  }

  /** As many factors as the degree of the part has room for. */
  ghost predicate Enough(group: seq<Poly>, part: Part) {
    part.degree > 0 && |group| >= (|part.poly| - 1) / part.degree
  }

  ghost predicate AllEnough(groups: seq<seq<Poly>>, parts: seq<Part>) {
    forall i :: 0 <= i < |parts| ==> i < |groups| && Enough(groups[i], parts[i])
  }

  /** The factors of each part; a part of a square-free polynomial is separated wherever some draw for it separates. */
  ghost predicate Grouped(groups: seq<seq<Poly>>, parts: seq<Part>, randoms: nat -> seq<Poly>, p: nat, fine: bool) {
    |groups| == |parts| && forall i :: 0 <= i < |parts| ==> GroupOf(groups[i], parts[i], randoms, p, fine)
  }

  ghost predicate GroupOf(group: seq<Poly>, part: Part, randoms: nat -> seq<Poly>, p: nat, fine: bool) {
    && |part.poly| > 0 && EqMod(Product(group), part.poly, p)
    && (fine ==> AllSeparated(randoms(|part.poly| - 1), part.poly, group, p, part.degree))
  }

  /** No factor is divisible by two irreducibles of a part that a draw for this part separates. */
  ghost predicate PartsSeparated(factors: seq<Poly>, parts: seq<Part>, randoms: nat -> seq<Poly>, p: nat) {
    forall i :: 0 <= i < |parts| && |parts[i].poly| > 0 ==>
      AllSeparated(randoms(|parts[i].poly| - 1), parts[i].poly, factors, p, parts[i].degree)
  }

  /** How the factors come about: the groups of the parts and the rest; `finished` says that no group is too small. */
  ghost predicate FactoredBy(factors: seq<Poly>, f: Poly, parts: seq<Part>, rest: Poly, groups: seq<seq<Poly>>,
                             finished: bool, randoms: nat -> seq<Poly>, p: nat) {
    && EqMod(Times(Product(Polys(parts)), rest), f, p) && Grouped(groups, parts, randoms, p, SquareFreeMod(f, p))
    && factors == Flat(groups) + (if |rest| > 1 then [rest] else [])
    && (finished <==> AllEnough(groups, parts))
    && (SquareFreeMod(f, p) ==> PartsSeparated(factors, parts, randoms, p))
  }

  /** Splits a monic polynomial. If it is square-free and the random polynomials were enough (`finished`), all factors
      are irreducible; if they were not, the factors of some part are too few, but whatever a draw separates is
      separated. */
  method Factor(f: Poly, p: nat, randoms: nat -> seq<Poly>)
    returns (factors: seq<Poly>, ghost parts: seq<Part>, ghost rest: Poly, ghost finished: bool,
             ghost groups: seq<seq<Poly>>)
    requires Prime(p) && Monic(f, p) && GoodStream(randoms, p)
    ensures finished && SquareFreeMod(f, p) ==> AllIrreducible(factors, p)
    ensures AllMonic(factors, p) && EqMod(Product(factors), f, p)
    ensures forall i :: 0 <= i < |factors| ==> |factors[i]| > 1
    ensures PartsDivide(parts, p) && exists below :: PartsAscend(parts, below)
    ensures FactoredBy(factors, f, parts, rest, groups, finished, randoms, p)
  {
    hide Divides, Prime, Product, EqMod, Times, Cong, PrimePower, Power, SameDivisors, Frobenius, PartsDivide;
    hide PartsAscend, AllSeparated, GroupOf, Enough, Grouped, Flat, Polys, AllEnough;
    hide SquareFreeMod, NoSmall, AllIrreducible, IsGcd;
    PrimeAboveOne(p);
    factors, parts, finished, groups := [], [], true, [];
    ghost var fine := SquareFreeMod(f, p);
    StartIrreducible(f, p);
    NoGroups(randoms, p, fine);
    var cofactor := f;
    var h: Poly := X;
    var d := 1;
    StartFactoring(f, p);
    NoParts();
    while |cofactor| - 1 >= 2 * d
      invariant d >= 1 && Monic(cofactor, p) && Canonical(h, p) && AllMonic(factors, p)
      invariant forall i :: 0 <= i < |factors| ==> |factors[i]| > 1
      invariant EqMod(Times(Product(factors), cofactor), f, p)
      invariant Cong(h, Power(X, PrimePower(p, d - 1)), cofactor, p)
      invariant PartsDivide(parts, p) && PartsAscend(parts, d)
      invariant EqMod(Times(Product(Polys(parts)), cofactor), f, p)
      invariant Grouped(groups, parts, randoms, p, fine) && factors == Flat(groups)
      invariant finished <==> AllEnough(groups, parts)
      invariant fine ==>
        SquareFreeMod(cofactor, p) && NoSmall(cofactor, d, p) && (finished ==> AllIrreducible(factors, p))
      decreases |cofactor| - 2 * d
    {
      var next := PowerMod(h, p, cofactor, p);
      FrobeniusStep(h, next, cofactor, p, d);
      h := next;
      var difference := Subtract(h, X, p);
      var g := PolyGcd(difference, cofactor, p);
      GcdDividesBoth(g, difference, cofactor, p);
      GcdMonic(g, difference, cofactor, p);
      if |g| > 1 {
        PartDivides(h, difference, cofactor, g, p, d);
        var found, complete := EqualDegree(g, d, p, randoms(|g| - 1));
        var q := SplitOff(cofactor, g, p);
        if fine {
          NoSmallDivisor(cofactor, g, d, p);
          NextDegree(cofactor, h, difference, g, q, p, d);
          FactorDivides(cofactor, q, g, p);
          SquareFreeDivisor(cofactor, q, p);
          if finished && complete { BothIrreducible(factors, found, p); }
        }
        GroupIs(found, Part(g, d), randoms, p, fine, complete);
        AddGroup(groups, parts, found, Part(g, d), randoms, p, fine, complete, finished);
        finished := finished && complete;
        groups := groups + [found];
        TakePart(factors, cofactor, found, g, q, f, p);
        CofactorDivides(cofactor, q, g, p);
        var division := Divide(h, q, p);
        ReduceFurther(h, division.value.0, division.value.1, q, cofactor, Power(X, PrimePower(p, d)), p);
        AddPart(parts, g, p, d);
        OneFactor(g, p);
        TakePart(Polys(parts), cofactor, [g], g, q, f, p);
        MoreParts(parts, g, d);
        factors := factors + found;
        cofactor := q;
        h := division.value.1;
        parts := parts + [Part(g, d)];
      } else {
        if fine {
          TimesOne(cofactor);
          SameSelf(cofactor, p);
          NextDegree(cofactor, h, difference, g, cofactor, p, d);
        }
        AscendFurther(parts, d);
      }
      d := d + 1;
    }
    rest := cofactor;
    if |cofactor| > 1 {
      if fine && finished {
        ShortIsIrreducible(cofactor, d, p);
        OneIrreducible(cofactor, p);
        BothIrreducible(factors, [cofactor], p);
      }
      ProductAppend(factors, cofactor);
      factors := factors + [cofactor];
    } else {
      assert cofactor == [1];
      TimesOne(Product(factors));
    }
    if fine { GroupsSeparate(groups, parts, randoms, rest, factors, f, p); }
    hide PartsSeparated;
    assert FactoredBy(factors, f, parts, rest, groups, finished, randoms, p);
  }

  lemma GroupIs(found: seq<Poly>, part: Part, randoms: nat -> seq<Poly>, p: nat, fine: bool, complete: bool)
    requires |part.poly| > 0 && part.degree > 0 && EqMod(Product(found), part.poly, p)
    requires fine ==> AllSeparated(randoms(|part.poly| - 1), part.poly, found, p, part.degree)
    requires complete <==> |found| >= (|part.poly| - 1) / part.degree
    ensures GroupOf(found, part, randoms, p, fine) && (complete <==> Enough(found, part))
  {
    hide AllSeparated, EqMod, Product;
  }

  lemma NoParts()
    ensures Polys([]) == []
  {
  }

  lemma MoreParts(parts: seq<Part>, g: Poly, d: nat)
    ensures Polys(parts + [Part(g, d)]) == Polys(parts) + [g]
  {
  }

  lemma NoGroups(randoms: nat -> seq<Poly>, p: nat, fine: bool)
    ensures Grouped([], [], randoms, p, fine) && Flat([]) == [] && AllEnough([], [])
  {
  }

  lemma AddGroup(groups: seq<seq<Poly>>, parts: seq<Part>, found: seq<Poly>, part: Part, randoms: nat -> seq<Poly>,
                 p: nat, fine: bool, complete: bool, finished: bool)
    requires Grouped(groups, parts, randoms, p, fine) && GroupOf(found, part, randoms, p, fine)
    requires complete <==> Enough(found, part)
    requires finished <==> AllEnough(groups, parts)
    ensures Grouped(groups + [found], parts + [part], randoms, p, fine)
    ensures Flat(groups + [found]) == Flat(groups) + found
    ensures finished && complete <==> AllEnough(groups + [found], parts + [part])
  {
    hide GroupOf, Enough;
    var more, all := groups + [found], parts + [part];
    assert more[..|groups|] == groups;
    assert forall i :: 0 <= i < |parts| ==> all[i] == parts[i] && more[i] == groups[i];
    assert all[|parts|] == part && more[|parts|] == found;
  }

  lemma {:induction false} FlatMember(groups: seq<seq<Poly>>, x: Poly) returns (k: nat)
    requires x in Flat(groups)
    ensures k < |groups| && x in groups[k]
  {
    var n := |groups| - 1;
    if x in groups[n] { k := n; } else { k := FlatMember(groups[..n], x); }
  }

  /** In a square-free polynomial an irreducible divisor of one part divides no factor of another one. */
  lemma GroupsSeparate(groups: seq<seq<Poly>>, parts: seq<Part>, randoms: nat -> seq<Poly>, rest: Poly,
                       factors: seq<Poly>, f: Poly, p: nat)
    requires Prime(p) && SquareFreeMod(f, p) && Grouped(groups, parts, randoms, p, true)
    requires EqMod(Times(Product(Polys(parts)), rest), f, p)
    requires factors == Flat(groups) + if |rest| > 1 then [rest] else []
    ensures PartsSeparated(factors, parts, randoms, p)
  {
    hide ModDividesPoly, EqMod, Times, Product, SquareFreeMod, Prime, SeparatedBy;
    forall i | 0 <= i < |parts| && |parts[i].poly| > 0
      ensures AllSeparated(randoms(|parts[i].poly| - 1), parts[i].poly, factors, p, parts[i].degree)
    {
      assert GroupOf(groups[i], parts[i], randoms, p, true);
      var draws := randoms(|parts[i].poly| - 1);
      forall a: nat | a < |draws| ensures SeparatedBy(draws[a], parts[i].poly, factors, p, parts[i].degree) {
        GroupSeparates(groups, parts, randoms, rest, factors, f, p, i, draws[a]);
      }
    }
  }

  lemma GroupSeparates(groups: seq<seq<Poly>>, parts: seq<Part>, randoms: nat -> seq<Poly>, rest: Poly,
                       factors: seq<Poly>, f: Poly, p: nat, i: nat, draw: Poly)
    requires Prime(p) && SquareFreeMod(f, p) && Grouped(groups, parts, randoms, p, true)
    requires EqMod(Times(Product(Polys(parts)), rest), f, p)
    requires factors == Flat(groups) + if |rest| > 1 then [rest] else []
    requires i < |parts| && SeparatedBy(draw, parts[i].poly, groups[i], p, parts[i].degree)
    ensures SeparatedBy(draw, parts[i].poly, factors, p, parts[i].degree)
  {
    hide ModDividesPoly, EqMod, Times, Product, Separates, SquareFreeMod, Prime, Once, Grouped, Flat;
    var part := parts[i];
    forall u, w | Separates(draw, u, w, p, part.degree) && Once(u, part.poly, p) ensures !Together(factors, u, w, p) {
      if Together(factors, u, w, p) {
        var j :| 0 <= j < |factors| && ModDividesPoly(u, factors[j], p) && ModDividesPoly(w, factors[j], p);
        OwnGroup(groups, parts, randoms, rest, factors, f, p, i, j, u, w, draw);
      }
    }
  }

  /** The factor that an irreducible divisor of a part divides belongs to that part. */
  lemma OwnGroup(groups: seq<seq<Poly>>, parts: seq<Part>, randoms: nat -> seq<Poly>, rest: Poly, factors: seq<Poly>,
                 f: Poly, p: nat, i: nat, j: nat, u: Poly, w: Poly, draw: Poly)
    requires Prime(p) && SquareFreeMod(f, p) && Grouped(groups, parts, randoms, p, true)
    requires EqMod(Times(Product(Polys(parts)), rest), f, p)
    requires factors == Flat(groups) + if |rest| > 1 then [rest] else []
    requires i < |parts| && j < |factors| && Separates(draw, u, w, p, parts[i].degree) && Once(u, parts[i].poly, p)
    requires ModDividesPoly(u, factors[j], p) && ModDividesPoly(w, factors[j], p)
    ensures Together(groups[i], u, w, p)
  {
    hide ModDividesPoly, EqMod, Times, Product, Irreducible, Prime, HalfOrder, Cong, AllSeparated;
    assert Irreducible(u, p) && !ModDividesPoly(Times(u, u), f, p);
    var all := Product(Polys(parts));
    EqModSymmetric(Times(all, rest), f, p);
    assert Polys(parts)[i] == parts[i].poly;
    DivisorOfPart(parts, u, i, p);
    if j >= |Flat(groups)| {
      ProductDivides(u, all, rest, f, p);
    } else {
      var k := FlatMember(groups, factors[j]);
      if k != i {
        var h :| 0 <= h < |groups[k]| && groups[k][h] == factors[j];
        assert GroupOf(groups[k], parts[k], randoms, p, true);
        FactorOfProduct(groups[k], parts[k].poly, h, p);
        DividesThrough(u, factors[j], parts[k].poly, p);
        TwiceInParts(parts, u, i, k, p);
        FactorDivides(f, all, rest, p);
        DividesThrough(Times(u, u), all, f, p);
      } else {
        var h :| 0 <= h < |groups[i]| && groups[i][h] == factors[j];
        assert ModDividesPoly(u, groups[i][h], p) && ModDividesPoly(w, groups[i][h], p);
      }
    }
  }

  lemma DivisorOfPart(parts: seq<Part>, u: Poly, i: nat, p: int)
    requires i < |parts| && ModDividesPoly(u, parts[i].poly, p)
    ensures ModDividesPoly(u, Product(Polys(parts)), p)
  {
    hide ModDividesPoly, EqMod, Product;
    SameSelf(Product(Polys(parts)), p);
    FactorOfProduct(Polys(parts), Product(Polys(parts)), i, p);
    DividesThrough(u, parts[i].poly, Product(Polys(parts)), p);
  }

  lemma TwiceInParts(parts: seq<Part>, u: Poly, i: nat, k: nat, p: int)
    requires i < |parts| && k < |parts| && i != k
    requires ModDividesPoly(u, parts[i].poly, p) && ModDividesPoly(u, parts[k].poly, p)
    ensures ModDividesPoly(Times(u, u), Product(Polys(parts)), p)
  {
    hide ModDividesPoly, EqMod, Product, Times;
    var fs := Polys(parts);
    var others := fs[..i] + fs[i + 1..];
    ProductWithout(fs, i);
    var h := if k < i then k else k - 1;
    assert others[h] == parts[k].poly;
    SameSelf(Product(others), p);
    FactorOfProduct(others, Product(others), h, p);
    DividesThrough(u, parts[k].poly, Product(others), p);
    SameSelf(Product(fs), p);
    ProductDivides(u, Product(others), parts[i].poly, Product(fs), p);
  }

  lemma StartIrreducible(f: Poly, p: int)
    ensures NoSmall(f, 1, p) && AllIrreducible([], p)
  {
    hide ModDividesPoly, EqMod, Times;
  }

  lemma OneIrreducible(f: Poly, p: int)
    requires Irreducible(f, p)
    ensures AllIrreducible([f], p)
  {
    hide Irreducible;
  }

  lemma BothIrreducible(a: seq<Poly>, b: seq<Poly>, p: int)
    requires AllIrreducible(a, p) && AllIrreducible(b, p)
    ensures AllIrreducible(a + b, p)
  {
    hide Irreducible;
  }

  lemma GcdMonic(g: Poly, a: Poly, b: Poly, p: int)
    requires IsGcd(g, a, b, p) && p > 1 && g != []
    ensures Monic(g, p) && (|g| == 1 ==> g == [1])
  {
    hide SameDivisors;
  }

  lemma StartFactoring(f: Poly, p: nat)
    requires p > 1
    ensures EqMod(Times(Product([]), f), f, p) && Cong(X, Power(X, PrimePower(p, 0)), f, p)
    ensures PartsDivide([], p) && PartsAscend([], 1) && Canonical(X, p)
  {
    hide EqMod, Cong, Times;
    TimesOne(f);
    SameSelf(f, p);
    TimesOne(X);
    assert Power(X, 1) == Times(X, Power(X, 0));
    CongReflexive(X, f, p);
  }

  lemma CofactorDivides(f: Poly, q: Poly, g: Poly, p: int)
    requires EqMod(f, Times(q, g), p)
    ensures ModDividesPoly(q, f, p)
  {
    hide Cong, Times, EqMod;
    MultipleCong(g, q, p);
    EqModCong(f, Times(q, g), q, p);
    CongTransitive(f, Times(q, g), [], q, p);
  }

  lemma ReduceFurther(h: Poly, s: Poly, r: Poly, q: Poly, m: Poly, target: Poly, p: int)
    requires Balanced(h, s, q, r, p) && Cong(h, target, m, p) && ModDividesPoly(q, m, p)
    ensures Cong(r, target, q, p)
  {
    hide Cong, Balanced;
    RemainderCong(h, q, s, r, p);
    CongDivisor(h, target, m, q, p);
    CongTransitive(r, h, target, q, p);
  }

  lemma AddPart(parts: seq<Part>, g: Poly, p: nat, d: nat)
    requires PartsDivide(parts, p) && PartsAscend(parts, d) && d >= 1 && ModDividesPoly(g, Frobenius(p, d), p)
    ensures PartsDivide(parts + [Part(g, d)], p) && PartsAscend(parts + [Part(g, d)], d + 1)
  {
    hide ModDividesPoly, Frobenius;
  }

  lemma AscendFurther(parts: seq<Part>, d: nat)
    requires PartsAscend(parts, d)
    ensures PartsAscend(parts, d + 1)
  {
  }
}
