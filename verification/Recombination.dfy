/** Zassenhaus recombination: from factors modulo p back to factors over the integers
    (src/cas/Factorization.cpp:1157-1228). */
module Recombination {
  import opened IntegerGcd
  import opened IntPoly
  import opened PolyCongruence
  import opened ModularPoly
  import opened MonicPoly
  import opened Irreducibility
  import opened TrialDivision
  import opened SubsetSearch
  import Order = MonomialOrder

  // ----- Taking and leaving factors -----

  ghost function Chosen(fs: seq<Poly>, m: Mask): seq<Poly>
    requires |m| == |fs|
  {
    if fs == [] then [] else
      Chosen(fs[..|fs| - 1], m[..|fs| - 1]) + if m[|fs| - 1] == 1 then [fs[|fs| - 1]] else []
  }

  ghost function Left(fs: seq<Poly>, m: Mask): seq<Poly>
    requires |m| == |fs|
  {
    if fs == [] then [] else
      Left(fs[..|fs| - 1], m[..|fs| - 1]) + if m[|fs| - 1] == 1 then [] else [fs[|fs| - 1]]
  }

  lemma {:induction false} CountAppend(m: Mask, x: nat)
    ensures Count(m + [x]) == Count(m) + x
  {
    if m == [] {
      assert m + [x] == [x];
      assert [x][1..] == [];
    } else {
      assert (m + [x])[1..] == m[1..] + [x];
      CountAppend(m[1..], x);
    }
  }

  lemma {:induction false} ChosenSize(fs: seq<Poly>, m: Mask)
    requires |m| == |fs| && IsMask(m)
    ensures |Chosen(fs, m)| == Count(m) && |Left(fs, m)| == |fs| - Count(m)
  {
    if fs != [] {
      var n := |fs| - 1;
      ChosenSize(fs[..n], m[..n]);
      assert m == m[..n] + [m[n]];
      CountAppend(m[..n], m[n]);
    }
  }

  lemma {:induction false} LeftMembers(fs: seq<Poly>, m: Mask)
    requires |m| == |fs|
    ensures forall f :: f in Left(fs, m) || f in Chosen(fs, m) ==> f in fs
  {
    if fs != [] {
      var n := |fs| - 1;
      LeftMembers(fs[..n], m[..n]);
      assert fs == fs[..n] + [fs[n]];
      assert Left(fs, m) == Left(fs[..n], m[..n]) + if m[n] == 1 then [] else [fs[n]];
      assert Chosen(fs, m) == Chosen(fs[..n], m[..n]) + if m[n] == 1 then [fs[n]] else [];
    }
  }

  /** The product of all factors is that of the chosen ones times that of the others. */
  lemma {:induction false} ProductSplit(fs: seq<Poly>, m: Mask)
    requires |m| == |fs|
    ensures Product(fs) == Times(Product(Chosen(fs, m)), Product(Left(fs, m)))
  {
    hide Times;
    if fs == [] {
      TimesOne([1]);
    } else {
      var n := |fs| - 1;
      var f, c, l := fs[n], Chosen(fs[..n], m[..n]), Left(fs[..n], m[..n]);
      ProductSplit(fs[..n], m[..n]);
      if m[n] == 1 {
        ProductAppend(c, f);
        assert l + [] == l;
        TimesAssociative(Product(c), Product(l), f);
        TimesCommutes(Product(l), f);
        TimesAssociative(Product(c), f, Product(l));
      } else {
        ProductAppend(l, f);
        assert c + [] == c;
        TimesAssociative(Product(c), Product(l), f);
      }
    }
  }

  // ----- Candidates -----

  /** The centred lift of the product of the chosen factors. */
  ghost predicate Candidate(c: Poly, fs: seq<Poly>, m: Mask, p: int)
    requires |m| == |fs|
  {
    Centered(c, p) && EqMod(c, Product(Chosen(fs, m)), p)
  }

  /** The subset does not give a divisor of `g`. */
  ghost predicate Fails(fs: seq<Poly>, m: Mask, g: Poly, p: int)
    requires |m| == |fs|
  {
    forall c :: Candidate(c, fs, m, p) ==> !DividesOver(c, g)
  }

  lemma CandidateUnique(c: Poly, c': Poly, fs: seq<Poly>, m: Mask, p: int)
    requires |m| == |fs| && Candidate(c, fs, m, p) && Candidate(c', fs, m, p)
    ensures c == c'
  {
    hide Divides, Product, Chosen;
    EqModSymmetric(c', Product(Chosen(fs, m)), p);
    EqModTransitive(c, Product(Chosen(fs, m)), c', p);
    CenteredUnique(c, c', p);
  }

  lemma TimesMonic(a: Poly, b: Poly, r: Poly, p: int)
    requires p > 1 && Monic(a, p) && Monic(b, p) && Canonical(r, p) && EqMod(r, Times(a, b), p)
    ensures Monic(r, p)
  {
    hide Divides, Conv;
    var top := |a| + |b| - 2;
    TimesLead(a, b);
    assert Divides(p, At(r, top) - At(Times(a, b), top));
    ResidueUnique(At(r, top), 1, p);
    if |r| - 1 > top {
      assert Divides(p, At(r, |r| - 1) - At(Times(a, b), |r| - 1));
      ResidueUnique(At(r, |r| - 1), 0, p);
    }
  }

  method ChosenProduct(fs: seq<Poly>, mask: Mask, p: int) returns (r: Poly)
    requires p > 1 && AllMonic(fs, p) && |mask| == |fs|
    ensures Monic(r, p) && EqMod(r, Product(Chosen(fs, mask)), p)
  {
    assert Product([]) == [1];
    hide Divides, Product, Times, EqMod;
    r := [1];
    SameSelf([1], p);
    for i := 0 to |fs|
      invariant Monic(r, p) && EqMod(r, Product(Chosen(fs[..i], mask[..i])), p)
    {
      assert fs[..i + 1][..i] == fs[..i] && mask[..i + 1][..i] == mask[..i];
      ghost var so_far := Chosen(fs[..i], mask[..i]);
      if mask[i] == 1 {
        ghost var before := r;
        r := Multiply(r, fs[i], p);
        TimesMonic(before, fs[i], r, p);
        ProductAppend(so_far, fs[i]);
        ExtendProduct(before, Product(so_far), fs[i], fs[i], p);
        EqModTransitive(r, Times(before, fs[i]), Times(Product(so_far), fs[i]), p);
      } else {
        assert so_far + [] == so_far;
      }
    }
    assert fs[..|fs|] == fs && mask[..|fs|] == mask;
  }

  method BuildCandidate(fs: seq<Poly>, mask: Mask, p: int) returns (c: Poly, ghost modular: Poly)
    requires p > 1 && AllMonic(fs, p) && |mask| == |fs|
    ensures Candidate(c, fs, mask, p) && c != [] && c[|c| - 1] == 1
    ensures Monic(modular, p) && EqMod(c, modular, p) && EqMod(modular, Product(Chosen(fs, mask)), p)
  {
    hide Divides, Product, Chosen;
    var product := ChosenProduct(fs, mask, p);
    modular := product;
    c := product;
    for i := 0 to |product|
      invariant |c| == |product| && forall k :: i <= k < |c| ==> c[k] == product[k]
      invariant forall k :: 0 <= k < i ==> c[k] == Center(product[k], p)
    {
      c := c[i := Center(c[i], p)];
    }
    CenterOne(p);
    forall k ensures Divides(p, At(c, k) - At(modular, k)) {
      if 0 <= k < |c| {
        DividesFlip(p, product[k], c[k]);
      } else {
        DividesSelf(p);
      }
    }
    EqModTransitive(c, modular, Product(Chosen(fs, mask)), p);
  }

  lemma CenterOne(p: int)
    requires p > 1
    ensures Center(1, p) == 1
  {
    var r := Center(1, p);
    if r != 1 { DivisorBound(p, 1 - r); }
  }

  // ----- All subsets of one size -----

  ghost predicate OfSize(m: Mask, n: nat, d: nat) {
    |m| == n && IsMask(m) && Count(m) == d
  }

  /** Every subset of size `d` after `mask` has failed. */
  ghost predicate FailedAfter(fs: seq<Poly>, g: Poly, d: nat, p: int, mask: Mask)
    requires |mask| == |fs|
  {
    forall m: Mask :: OfSize(m, |fs|, d) && Order.Less(mask, m) ==> Fails(fs, m, g, p)
  }

  ghost predicate FailedAll(fs: seq<Poly>, g: Poly, d: nat, p: int) {
    forall m: Mask :: OfSize(m, |fs|, d) ==> Fails(fs, m, g, p)
  }

  lemma FirstMask(fs: seq<Poly>, g: Poly, d: nat, p: int)
    requires d <= |fs|
    ensures OfSize(First(d, |fs| - d), |fs|, d) && FailedAfter(fs, g, d, p, First(d, |fs| - d))
  {
    hide Fails, Order.Less, First;
    FirstCount(d, |fs| - d);
    forall m: Mask | OfSize(m, |fs|, d) ensures !Order.Less(First(d, |fs| - d), m) { FirstIsGreatest(m); }
  }

  lemma NextMask(fs: seq<Poly>, g: Poly, d: nat, p: int, mask: Mask)
    requires OfSize(mask, |fs|, d) && FailedAfter(fs, g, d, p, mask) && Fails(fs, mask, g, p)
    ensures match Previous(mask)
      case Some(next) => OfSize(next, |fs|, d) && FailedAfter(fs, g, d, p, next) && Order.Less(next, mask)
      case None => FailedAll(fs, g, d, p)
  {
    hide Fails, Order.Less, Previous;
    if Previous(mask).Some? {
      var next := Previous(mask).value;
      PreviousKeeps(mask);
      forall m: Mask | OfSize(m, |fs|, d) && Order.Less(next, m) ensures Fails(fs, m, g, p) {
        Order.LessTrichotomy(mask, m);
        if Order.Less(m, mask) { PreviousIsNext(mask, m); }
      }
    } else {
      forall m: Mask | OfSize(m, |fs|, d) ensures Fails(fs, m, g, p) {
        Order.LessTrichotomy(mask, m);
        NoneIsLast(mask, m);
      }
    }
  }

  /** Tries the subsets of size `d` until one divides; if none does, all of them have been tried. */
  method Search(fs: seq<Poly>, g: Poly, d: nat, p: int)
    returns (found: bool, mask: Mask, c: Poly, q: Poly, ghost modular: Poly)
    requires p > 1 && AllMonic(fs, p) && Trimmed(g) && g != [] && d <= |fs|
    ensures found ==> OfSize(mask, |fs|, d) && Candidate(c, fs, mask, p) && c != [] && c[|c| - 1] == 1
    ensures found ==> Trimmed(q) && g == Times(q, c)
    ensures found ==> Monic(modular, p) && EqMod(c, modular, p) && EqMod(modular, Product(Chosen(fs, mask)), p)
    ensures !found ==> FailedAll(fs, g, d, p)
  {
    hide Divides, Product, Chosen, Times, EqMod, FailedAfter, FailedAll, Fails, Previous, Order.Less, Order.Accessible;
    hide First;
    mask := First(d, |fs| - d);
    FirstMask(fs, g, d, p);
    ghost var o := SomeRank(mask);
    while true
      invariant OfSize(mask, |fs|, d) && FailedAfter(fs, g, d, p, mask) && Order.Accessible#[o](mask)
      decreases o
    {
      c, modular := BuildCandidate(fs, mask, p);
      found, q := TryDivide(g, c);
      if found {
        return;
      }
      OneFails(c, fs, mask, g, p);
      NextMask(fs, g, d, p, mask);
      match Previous(mask)
      case None => return;
      case Some(next) =>
        o := Order.StepDown(mask, o, next);
        mask := next;
    }
  }

  lemma SomeRank(m: Mask) returns (o: ORDINAL)
    ensures Order.Accessible#[o](m)
  {
    Order.AllAccessible(m);
    o :| Order.Accessible#[o](m);
  }

  lemma OneFails(c: Poly, fs: seq<Poly>, m: Mask, g: Poly, p: int)
    requires |m| == |fs| && Candidate(c, fs, m, p) && !DividesOver(c, g)
    ensures Fails(fs, m, g, p)
  {
    hide Candidate, DividesOver;
    forall c' | Candidate(c', fs, m, p) ensures !DividesOver(c', g) {
      CandidateUnique(c, c', fs, m, p);
    }
  }

  // ----- What a found factor leaves -----

  /** A mask on the factors that were left, as a mask on all of them. */
  ghost function Embed(m: Mask, inner: Mask): Mask
  {
    if m == [] then [] else
      if m[|m| - 1] == 1 || inner == [] then Embed(m[..|m| - 1], inner) + [0]
      else Embed(m[..|m| - 1], inner[..|inner| - 1]) + [inner[|inner| - 1]]
  }

  lemma {:induction false} EmbedChooses(fs: seq<Poly>, m: Mask, inner: Mask)
    requires |m| == |fs| && IsMask(m) && IsMask(inner) && |inner| == |Left(fs, m)|
    ensures |Embed(m, inner)| == |fs| && IsMask(Embed(m, inner)) && Count(Embed(m, inner)) == Count(inner)
    ensures Chosen(fs, Embed(m, inner)) == Chosen(Left(fs, m), inner)
  {
    if fs != [] {
      var n := |fs| - 1;
      var rest := Left(fs[..n], m[..n]);
      if m[n] == 1 {
        assert Left(fs, m) == rest + [] == rest;
        EmbedChooses(fs[..n], m[..n], inner);
        var e := Embed(m[..n], inner);
        CountAppend(e, 0);
        assert (e + [0])[..n] == e;
        assert Chosen(fs, Embed(m, inner)) == Chosen(fs[..n], e) + [];
      } else {
        var k := |inner| - 1;
        assert Left(fs, m) == rest + [fs[n]];
        assert Left(fs, m)[..k] == rest;
        EmbedChooses(fs[..n], m[..n], inner[..k]);
        var e := Embed(m[..n], inner[..k]);
        CountAppend(e, inner[k]);
        assert inner == inner[..k] + [inner[k]];
        CountAppend(inner[..k], inner[k]);
        assert (e + [inner[k]])[..n] == e;
      }
    }
  }

  /** A subset that failed before the division still fails after it. */
  lemma FailsStill(fs: seq<Poly>, m: Mask, g: Poly, c: Poly, q: Poly, p: int, d: nat)
    requires |m| == |fs| && IsMask(m) && Trimmed(c) && g == Times(q, c) && FailedAll(fs, g, d, p)
    ensures FailedAll(Left(fs, m), q, d, p)
  {
    hide Left, Chosen, Product, EqMod, Times, Embed, Count;
    forall inner: Mask | OfSize(inner, |Left(fs, m)|, d) ensures Fails(Left(fs, m), inner, q, p) {
      EmbedChooses(fs, m, inner);
      var outer := Embed(m, inner);
      assert Fails(fs, outer, g, p);
      forall e | Candidate(e, Left(fs, m), inner, p) ensures !DividesOver(e, q) {
        assert Candidate(e, fs, outer, p);
        if DividesOver(e, q) { DividesUp(e, q, c, g); }
      }
    }
  }

  lemma DividesUp(e: Poly, q: Poly, c: Poly, g: Poly)
    requires DividesOver(e, q) && Trimmed(c) && g == Times(q, c)
    ensures DividesOver(e, g)
  {
    hide Times;
    var s :| Trimmed(s) && q == Times(s, e);
    TimesAssociative(s, e, c);
    TimesCommutes(e, c);
    TimesAssociative(s, c, e);
    TimesTrimmed(s, c);
  }

  /** The factors left multiply to the quotient modulo p. */
  lemma LeftMultiply(fs: seq<Poly>, m: Mask, g: Poly, c: Poly, q: Poly, modular: Poly, p: int)
    requires Prime(p) && |m| == |fs| && EqMod(Product(fs), g, p) && g == Times(q, c)
    requires Monic(modular, p) && EqMod(c, modular, p) && EqMod(modular, Product(Chosen(fs, m)), p)
    ensures EqMod(Product(Left(fs, m)), q, p)
  {
    hide EqMod, Times, Product, Prime, Left, Chosen, Monic;
    var l, ch := Product(Left(fs, m)), Product(Chosen(fs, m));
    ProductSplit(fs, m);
    TimesCommutes(ch, l);
    ExtendProduct(l, l, modular, ch, p) by { SameSelf(l, p); }
    EqModTransitive(Times(l, modular), Times(l, ch), g, p);
    ExtendProduct(q, q, c, modular, p) by { SameSelf(q, p); }
    EqModTransitive(Times(l, modular), g, Times(q, modular), p);
    CancelMonic(l, q, modular, p);
  }

  method Remaining(fs: seq<Poly>, mask: Mask) returns (r: seq<Poly>)
    requires |mask| == |fs|
    ensures r == Left(fs, mask)
  {
    r := [];
    for i := 0 to |fs|
      invariant r == Left(fs[..i], mask[..i])
    {
      assert fs[..i + 1][..i] == fs[..i] && mask[..i + 1][..i] == mask[..i];
      if mask[i] != 1 { r := r + [fs[i]]; }
    }
    assert fs[..|fs|] == fs && mask[..|fs|] == mask;
  }

  // ----- Divisors are subsets -----

  ghost predicate MonicOver(a: Poly) {
    a != [] && a[|a| - 1] == 1
  }

  lemma CanonicalMonic(a: Poly, p: int) returns (r: Poly)
    requires p > 1 && MonicOver(a)
    ensures Monic(r, p) && EqMod(r, a, p) && |r| == |a|
  {
    hide Divides;
    r := CanonicalForm(a, p);
    var n := |a| - 1;
    assert Divides(p, At(r, n) - At(a, n));
    if |r| == |a| {
      ResidueUnique(At(r, n), 1, p);
    } else {
      ResidueUnique(0, 1, p);
    }
  }

  lemma OneSplits(a: Poly, b: Poly, p: int)
    requires p > 1 && Monic(a, p) && Monic(b, p) && EqMod([1], Times(a, b), p)
    ensures a == [1] && b == [1]
  {
    hide Divides, Conv;
    var top := |a| + |b| - 2;
    TimesLead(a, b);
    if top > 0 {
      assert Divides(p, At([1], top) - At(Times(a, b), top));
      ResidueUnique(0, 1, p) by { DividesTimes(p, 0 - 1, 1); }
    }
  }

  lemma AllIrreducibleFront(fs: seq<Poly>, p: int)
    requires AllIrreducible(fs, p) && fs != []
    ensures AllIrreducible(fs[..|fs| - 1], p) && Irreducible(fs[|fs| - 1], p)
  {
    hide Irreducible;
  }

  lemma LastDivides(fs: seq<Poly>, target: Poly, p: int)
    requires fs != [] && EqMod(Product(fs), target, p)
    ensures ModDividesPoly(fs[|fs| - 1], target, p)
  {
    hide EqMod, Times, Cong;
    var f := fs[|fs| - 1];
    MultipleCong(Product(fs[..|fs| - 1]), f, p);
    DividesEq(f, Product(fs), target, p);
  }

  /** The last factor is taken out of `a`. */
  lemma TakeLast(front: Poly, f: Poly, a: Poly, b: Poly, q: Poly, p: int)
    requires Prime(p) && Monic(f, p) && EqMod(Times(front, f), Times(a, b), p) && EqMod(a, Times(q, f), p)
    ensures EqMod(front, Times(q, b), p)
  {
    hide EqMod, Times, Prime, Monic;
    ExtendProduct(a, Times(q, f), b, b, p);
    TimesAssociative(q, f, b);
    TimesCommutes(f, b);
    TimesAssociative(q, b, f);
    EqModTransitive(Times(front, f), Times(a, b), Times(Times(q, b), f), p);
    CancelMonic(front, Times(q, b), f, p);
  }

  lemma ChosenNext(fs: seq<Poly>, m: Mask, x: nat)
    requires fs != [] && |m| == |fs| - 1 && IsMask(m) && x <= 1
    ensures var n := |fs| - 1;
      && IsMask(m + [x])
      && Chosen(fs, m + [x]) == Chosen(fs[..n], m) + (if x == 1 then [fs[n]] else [])
      && Left(fs, m + [x]) == Left(fs[..n], m) + (if x == 1 then [] else [fs[n]])
  {
    assert (m + [x])[..|fs| - 1] == m;
  }

  /** Unique factorisation modulo p: the two halves of a product of irreducible factors are the products of two
      complementary subsets of them. */
  lemma {:induction false} Partition(fs: seq<Poly>, a: Poly, b: Poly, p: int) returns (m: Mask)
    requires Prime(p) && AllIrreducible(fs, p) && Monic(a, p) && Monic(b, p) && EqMod(Product(fs), Times(a, b), p)
    ensures |m| == |fs| && IsMask(m)
    ensures EqMod(a, Product(Chosen(fs, m)), p) && EqMod(b, Product(Left(fs, m)), p)
    decreases |fs|
  {
    PrimeAboveOne(p);
    if fs == [] {
      m := [];
      OneSplits(a, b, p);
      SameSelf([1], p);
    } else {
      hide EqMod, Times, Prime, Cong, Irreducible, Monic, Chosen, Left;
      var n := |fs| - 1;
      var f, front := fs[n], Product(fs[..n]);
      AllIrreducibleFront(fs, p);
      IrreducibleMonic(f, p);
      LastDivides(fs, Times(a, b), p);
      EuclidsLemma(f, a, b, p);
      var inner;
      if ModDividesPoly(f, a, p) {
        var q := MonicCofactor(a, f, p);
        TakeLast(front, f, a, b, q, p);
        inner := Partition(fs[..n], q, b, p);
        m := inner + [1];
        ChosenNext(fs, inner, 1);
        AppendedProduct(a, q, Chosen(fs[..n], inner), f, p);
        assert Left(fs[..n], inner) + [] == Left(fs[..n], inner);
      } else {
        var q := MonicCofactor(b, f, p);
        TimesCommutes(a, b);
        TakeLast(front, f, b, a, q, p);
        TimesCommutes(q, a);
        inner := Partition(fs[..n], a, q, p);
        m := inner + [0];
        ChosenNext(fs, inner, 0);
        AppendedProduct(b, q, Left(fs[..n], inner), f, p);
        assert Chosen(fs[..n], inner) + [] == Chosen(fs[..n], inner);
      }
    }
  }

  lemma IrreducibleMonic(f: Poly, p: int)
    requires Irreducible(f, p)
    ensures Monic(f, p) && |f| > 1
  {
  }

  lemma AppendedProduct(a: Poly, q: Poly, fs: seq<Poly>, f: Poly, p: int)
    requires EqMod(a, Times(q, f), p) && EqMod(q, Product(fs), p)
    ensures EqMod(a, Product(fs + [f]), p)
  {
    hide EqMod, Times, Product;
    ProductAppend(fs, f);
    ExtendProduct(q, Product(fs), f, f, p);
    EqModTransitive(a, Times(q, f), Times(Product(fs), f), p);
  }

  /** A monic polynomial of positive degree is no empty product. */
  lemma NotEmptyProduct(a: Poly, fs: seq<Poly>, p: int)
    requires p > 1 && Monic(a, p) && |a| > 1 && EqMod(a, Product(fs), p)
    ensures fs != []
  {
    hide EqMod;
    if fs == [] { CanonicalUnique(a, [1], p); }
  }

  // ----- Irreducible factors over the integers -----

  ghost predicate SplitsOver(c: Poly, a: Poly, b: Poly) {
    MonicOver(a) && MonicOver(b) && c == Times(a, b)
  }

  /** No product of two monic integer polynomials of positive degree. */
  ghost predicate IrreducibleOver(c: Poly) {
    MonicOver(c) && |c| > 1 && forall a, b :: SplitsOver(c, a, b) ==> |a| == 1 || |b| == 1
  }

  ghost predicate AllIrreducibleOver(fs: seq<Poly>) {
    forall i :: 0 <= i < |fs| ==> IrreducibleOver(fs[i])
  }

  /** `p` is more than twice every coefficient of every monic factor. */
  ghost predicate AboveFactors(g: Poly, p: int) {
    forall a :: MonicOver(a) && DividesOver(a, g) ==> Below(a, p)
  }

  ghost predicate Below(a: Poly, p: int) {
    forall i :: 0 <= i < |a| ==> 2 * Abs(a[i]) < p
  }

  /** A factor that is a subset modulo p is what the subset gives. */
  lemma SubsetRefutes(fs: seq<Poly>, g: Poly, a: Poly, m: Mask, p: int, k: nat)
    requires p > 0 && MonicOver(a) && DividesOver(a, g) && AboveFactors(g, p)
    requires OfSize(m, |fs|, k) && EqMod(a, Product(Chosen(fs, m)), p)
    ensures !FailedAll(fs, g, k, p)
  {
    hide EqMod, Product, Chosen, DividesOver;
    assert Below(a, p);
    assert Candidate(a, fs, m, p);
    assert !Fails(fs, m, g, p);
  }

  function Complement(m: Mask): (r: Mask)
    requires IsMask(m)
    ensures |r| == |m| && IsMask(r) && forall i :: 0 <= i < |m| ==> r[i] == 1 - m[i]
  {
    seq(|m|, i requires 0 <= i < |m| => 1 - m[i])
  }

  lemma {:induction false} ComplementSwaps(fs: seq<Poly>, m: Mask)
    requires |m| == |fs| && IsMask(m)
    ensures Chosen(fs, Complement(m)) == Left(fs, m) && Left(fs, Complement(m)) == Chosen(fs, m)
  {
    if fs != [] {
      var n := |fs| - 1;
      ComplementSwaps(fs[..n], m[..n]);
      assert Complement(m)[..n] == Complement(m[..n]);
    }
  }

  /** The subset of the first half, and that of the second half, neither of them empty. */
  lemma HalvesAreSubsets(fs: seq<Poly>, g: Poly, a: Poly, b: Poly, p: int) returns (m: Mask)
    requires Prime(p) && AllIrreducible(fs, p) && EqMod(Product(fs), g, p)
    requires SplitsOver(g, a, b) && |a| > 1 && |b| > 1
    ensures |m| == |fs| && IsMask(m) && 0 < Count(m) < |fs|
    ensures EqMod(a, Product(Chosen(fs, m)), p) && EqMod(b, Product(Chosen(fs, Complement(m))), p)
    ensures Count(Complement(m)) == |fs| - Count(m)
  {
    hide EqMod, Product, Times, Prime, AllIrreducible, Monic;
    PrimeAboveOne(p);
    var x := CanonicalMonic(a, p);
    var y := CanonicalMonic(b, p);
    EqModSymmetric(x, a, p);
    EqModSymmetric(y, b, p);
    EqModTimes(a, x, b, y, p);
    EqModTransitive(Product(fs), g, Times(x, y), p);
    m := Partition(fs, x, y, p);
    NotEmptyProduct(x, Chosen(fs, m), p);
    NotEmptyProduct(y, Left(fs, m), p);
    ChosenSize(fs, m);
    ComplementSwaps(fs, m);
    ChosenSize(fs, Complement(m));
    EqModTransitive(a, x, Product(Chosen(fs, m)), p);
    EqModTransitive(b, y, Product(Left(fs, m)), p);
  }

  lemma HalvesDivide(g: Poly, a: Poly, b: Poly)
    requires SplitsOver(g, a, b)
    ensures DividesOver(a, g) && DividesOver(b, g)
  {
    hide Times;
    TimesCommutes(a, b);
  }

  /** What is left when half of the sizes have failed is irreducible. */
  lemma LastIrreducible(fs: seq<Poly>, g: Poly, p: int)
    requires Prime(p) && AllIrreducible(fs, p) && EqMod(Product(fs), g, p)
    requires MonicOver(g) && |g| > 1 && AboveFactors(g, p) && FailedBelow(fs, g, |fs| / 2 + 1, p)
    ensures IrreducibleOver(g)
  {
    hide EqMod, Product, Prime, AllIrreducible, FailedAll, AboveFactors, SplitsOver, Chosen;
    PrimeAboveOne(p);
    forall a, b | SplitsOver(g, a, b) ensures |a| == 1 || |b| == 1 {
      SplitsMonic(g, a, b);
      if |a| > 1 && |b| > 1 {
        var m := HalvesAreSubsets(fs, g, a, b, p);
        HalvesDivide(g, a, b);
        var k := Count(m);
        if k <= |fs| / 2 {
          SubsetRefutes(fs, g, a, m, p, k);
        } else {
          SubsetRefutes(fs, g, b, Complement(m), p, |fs| - k);
        }
      }
    }
  }

  lemma SplitsMonic(g: Poly, a: Poly, b: Poly)
    requires SplitsOver(g, a, b)
    ensures MonicOver(a) && MonicOver(b)
  {
  }

  /** A factor that is found when all smaller sizes have failed is irreducible. */
  lemma FoundIrreducible(fs: seq<Poly>, mask: Mask, g: Poly, c: Poly, q: Poly, p: int, d: nat)
    requires Prime(p) && AllIrreducible(fs, p) && OfSize(mask, |fs|, d) && d > 0
    requires Candidate(c, fs, mask, p) && MonicOver(c) && Trimmed(q) && g == Times(q, c)
    requires AboveFactors(g, p) && FailedBelow(fs, g, d, p)
    ensures IrreducibleOver(c)
  {
    hide EqMod, Product, Prime, AllIrreducible, FailedAll, AboveFactors, SplitsOver, Chosen, Left, Times, DividesOver;
    hide Embed;
    PrimeAboveOne(p);
    var ch := Chosen(fs, mask);
    ChosenSize(fs, mask);
    AllIrreducibleChosen(fs, mask, p);
    EqModSymmetric(c, Product(ch), p);
    PositiveDegree(ch, c, p);
    forall a, b | SplitsOver(c, a, b) ensures |a| == 1 || |b| == 1 {
      SplitsMonic(c, a, b);
      if |a| > 1 && |b| > 1 {
        var m := HalvesAreSubsets(ch, c, a, b, p);
        HalvesDivide(c, a, b);
        TimesCommutes(q, c);
        DividesUp(a, c, q, g);
        ComplementSwaps(fs, mask);
        EmbedChooses(fs, Complement(mask), m);
        SubsetRefutes(fs, g, a, Embed(Complement(mask), m), p, Count(m));
      }
    }
  }

  lemma AllIrreducibleChosen(fs: seq<Poly>, m: Mask, p: int)
    requires |m| == |fs| && AllIrreducible(fs, p)
    ensures AllIrreducible(Chosen(fs, m), p) && AllIrreducible(Left(fs, m), p)
  {
    hide Left, Chosen, Irreducible;
    LeftMembers(fs, m);
    forall i | 0 <= i < |Chosen(fs, m)| ensures Irreducible(Chosen(fs, m)[i], p) { assert Chosen(fs, m)[i] in fs; }
    forall i | 0 <= i < |Left(fs, m)| ensures Irreducible(Left(fs, m)[i], p) { assert Left(fs, m)[i] in fs; }
  }

  lemma PositiveDegree(fs: seq<Poly>, c: Poly, p: int)
    requires Prime(p) && AllIrreducible(fs, p) && fs != [] && EqMod(Product(fs), c, p) && MonicOver(c)
    ensures |c| > 1
  {
    hide EqMod, Prime, Irreducible, Times;
    PrimeAboveOne(p);
    AllIrreducibleFront(fs, p);
    var f := fs[|fs| - 1];
    IrreducibleMonic(f, p);
    if |c| == 1 {
      assert c == [1];
      LastDivides(fs, [1], p);
      var q := MonicCofactor([1], f, p);
    }
  }

  lemma AboveRest(g: Poly, q: Poly, c: Poly, p: int)
    requires AboveFactors(g, p) && Trimmed(c) && g == Times(q, c)
    ensures AboveFactors(q, p)
  {
    hide DividesOver, Times;
    forall a | MonicOver(a) && DividesOver(a, q) ensures Below(a, p) { DividesUp(a, q, c, g); }
  }

  // ----- The recombination loop -----

  /** No subset of fewer than `d` of the remaining factors gives a divisor. */
  ghost predicate FailedBelow(fs: seq<Poly>, g: Poly, d: nat, p: int) {
    forall k: nat :: 1 <= k < d ==> FailedAll(fs, g, k, p)
  }

  ghost predicate AllMonicOver(fs: seq<Poly>) {
    forall i :: 0 <= i < |fs| ==> MonicOver(fs[i])
  }

  /** The quotient of monic polynomials is monic, and the product of the factors stays the input. */
  lemma FoundKeeps(found: seq<Poly>, g: Poly, c: Poly, q: Poly, input: Poly)
    requires Times(Product(found), g) == input && g == Times(q, c) && MonicOver(g) && MonicOver(c)
    ensures Times(Product(found + [c]), q) == input && MonicOver(q)
  {
    ProductAppend(found, c);
    TimesAssociative(Product(found), c, q);
    TimesCommutes(c, q);
    assert q != [];
    TimesLead(q, c);
  }

  lemma FailedRest(fs: seq<Poly>, m: Mask, g: Poly, c: Poly, q: Poly, p: int, d: nat)
    requires |m| == |fs| && IsMask(m) && Trimmed(c) && g == Times(q, c) && FailedBelow(fs, g, d, p)
    ensures FailedBelow(Left(fs, m), q, d, p)
  {
    hide FailedAll, Times, Left;
    forall k: nat | 1 <= k < d ensures FailedAll(Left(fs, m), q, k, p) { FailsStill(fs, m, g, c, q, p, k); }
  }

  lemma AllMonicLeft(fs: seq<Poly>, m: Mask, p: int)
    requires |m| == |fs| && AllMonic(fs, p)
    ensures AllMonic(Left(fs, m), p)
  {
    hide Left, Chosen, Monic;
    LeftMembers(fs, m);
    forall i | 0 <= i < |Left(fs, m)| ensures Monic(Left(fs, m)[i], p) {
      assert Left(fs, m)[i] in fs;
    }
  }

  /** The true factors multiply to the input exactly, and are irreducible if the modular ones are and `p` is large
      enough; the search ends with every subset of at most half of the remaining modular factors tried and failed. */
  method Recombine(input: Poly, modFactors: seq<Poly>, p: int)
    returns (trueFactors: seq<Poly>, ghost remaining: seq<Poly>, ghost last: Poly)
    requires Prime(p) && Trimmed(input) && MonicOver(input)
    requires AllMonic(modFactors, p) && EqMod(Product(modFactors), input, p)
    ensures Product(trueFactors) == input && AllMonicOver(trueFactors)
    ensures AllIrreducible(modFactors, p) && AboveFactors(input, p) ==> AllIrreducibleOver(trueFactors)
    ensures EqMod(Product(remaining), last, p) && FailedBelow(remaining, last, |remaining| / 2 + 1, p)
    ensures |last| > 1 ==> trueFactors != [] && trueFactors[|trueFactors| - 1] == last
  {
    hide EqMod, Times, Product, Prime, Left, Chosen, FailedBelow, FailedAll, Count, Candidate, DividesOver, Monic;
    hide AllIrreducible, AboveFactors, IrreducibleOver;
    ghost var fine := AllIrreducible(modFactors, p) && AboveFactors(input, p);
    PrimeAboveOne(p);
    trueFactors := [];
    var current := modFactors;
    var g := input;
    var d := 1;
    StartRecombining(input, current, p);
    while d <= |current| / 2
      invariant d >= 1 && Trimmed(g) && MonicOver(g) && AllMonic(current, p) && AllMonicOver(trueFactors)
      invariant Times(Product(trueFactors), g) == input
      invariant EqMod(Product(current), g, p)
      invariant FailedBelow(current, g, d, p)
      invariant fine ==> AllIrreducible(current, p) && AboveFactors(g, p) && AllIrreducibleOver(trueFactors)
      decreases |current|, |current| - d
    {
      var found, mask, c, q; ghost var modular;
      found, mask, c, q, modular := Search(current, g, d, p);
      if found {
        FoundKeeps(trueFactors, g, c, q, input);
        if fine {
          FoundIrreducible(current, mask, g, c, q, p, d);
          AllIrreducibleChosen(current, mask, p);
          AboveRest(g, q, c, p);
        }
        LeftMultiply(current, mask, g, c, q, modular, p);
        FailedRest(current, mask, g, c, q, p, d);
        AllMonicLeft(current, mask, p);
        ChosenSize(current, mask);
        trueFactors := trueFactors + [c];
        g := q;
        current := Remaining(current, mask);
      } else {
        FailedMore(current, g, d, p);
        d := d + 1;
      }
    }
    remaining, last := current, g;
    FailedFewer(current, g, d, |current| / 2 + 1, p);
    if |g| > 1 {
      if fine { LastIrreducible(current, g, p); }
      ProductAppend(trueFactors, g);
      trueFactors := trueFactors + [g];
    } else {
      assert g == [1];
      TimesOne(Product(trueFactors));
    }
  }

  lemma StartRecombining(input: Poly, fs: seq<Poly>, p: int)
    ensures Times(Product([]), input) == input && FailedBelow(fs, input, 1, p)
  {
    TimesOne(input);
  }

  lemma FailedMore(fs: seq<Poly>, g: Poly, d: nat, p: int)
    requires FailedBelow(fs, g, d, p) && FailedAll(fs, g, d, p)
    ensures FailedBelow(fs, g, d + 1, p)
  {
    hide FailedAll;
  }

  lemma FailedFewer(fs: seq<Poly>, g: Poly, d: nat, e: nat, p: int)
    requires FailedBelow(fs, g, d, p) && e <= d
    ensures FailedBelow(fs, g, e, p)
  {
    hide FailedAll;
  }
}
