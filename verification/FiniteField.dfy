/** Fermat's theorem in the field of residues modulo an irreducible polynomial: the fact behind distinct-degree
    factorisation (src/cas/Factorization.cpp:781-803). */
module FiniteField {
  import opened IntegerGcd
  import opened IntPoly
  import opened PolyCongruence
  import opened ModularPoly
  import opened MonicPoly
  import opened Irreducibility

  function PrimePower(p: nat, d: nat): nat {
    if d == 0 then 1 else PrimePower(p, d - 1) * p
  }

  // ----- All residues -----

  ghost predicate Vector(v: Poly, p: int, e: nat) {
    |v| == e && Residues(v, p)
  }

  ghost predicate Zeros(v: Poly) {
    forall i :: 0 <= i < |v| ==> v[i] == 0
  }

  ghost predicate Distinct(vs: seq<Poly>) {
    forall i, j :: 0 <= i < j < |vs| ==> vs[i] != vs[j]
  }

  function WithLast(vs: seq<Poly>, c: int): (r: seq<Poly>)
    ensures |r| == |vs| && forall i :: 0 <= i < |vs| ==> r[i] == vs[i] + [c]
  {
    seq(|vs|, i requires 0 <= i < |vs| => vs[i] + [c])
  }

  /** The vectors with a last entry below `c`. */
  function UpToLast(vs: seq<Poly>, c: nat): seq<Poly> {
    if c == 0 then [] else UpToLast(vs, c - 1) + WithLast(vs, c - 1)
  }

  /** All vectors of `e` residues, the zero vector first. */
  function Vectors(p: nat, e: nat): seq<Poly> {
    if e == 0 then [[]] else UpToLast(Vectors(p, e - 1), p)
  }

  ghost predicate AllOfSize(vs: seq<Poly>, e: nat) {
    forall v :: v in vs ==> |v| == e
  }

  lemma WithLastMembers(vs: seq<Poly>, c: int, e: nat, v: Poly)
    requires AllOfSize(vs, e)
    ensures v in WithLast(vs, c) <==> |v| == e + 1 && v[e] == c && v[..e] in vs
  {
    var r := WithLast(vs, c);
    if v in r {
      var i :| 0 <= i < |r| && r[i] == v;
      assert vs[i] in vs && v == vs[i] + [c];
      assert v[..e] == vs[i];
    }
    if |v| == e + 1 && v[e] == c && v[..e] in vs {
      var i :| 0 <= i < |vs| && vs[i] == v[..e];
      assert r[i] == v;
    }
  }

  lemma {:induction false} UpToLastMembers(vs: seq<Poly>, c: nat, e: nat, v: Poly)
    requires AllOfSize(vs, e)
    ensures v in UpToLast(vs, c) <==> |v| == e + 1 && 0 <= v[e] < c && v[..e] in vs
  {
    if c > 0 {
      UpToLastMembers(vs, c - 1, e, v);
      WithLastMembers(vs, c - 1, e, v);
    }
  }

  lemma {:induction false} UpToLastSize(vs: seq<Poly>, c: nat)
    ensures |UpToLast(vs, c)| == |vs| * c
    ensures c > 0 && |vs| > 0 ==> |UpToLast(vs, c)| > 0 && UpToLast(vs, c)[0] == vs[0] + [0]
  {
    if c > 0 {
      UpToLastSize(vs, c - 1);
      Spread(|vs|, c);
      if c == 1 { assert UpToLast(vs, 0) == []; }
    }
  }

  lemma Spread(x: nat, c: nat)
    requires c > 0
    ensures x * c == x * (c - 1) + x
  {
  }

  lemma WithLastDistinct(vs: seq<Poly>, c: int, e: nat)
    requires Distinct(vs) && AllOfSize(vs, e)
    ensures Distinct(WithLast(vs, c))
  {
    var b := WithLast(vs, c);
    forall i, j | 0 <= i < j < |b| ensures b[i] != b[j] {
      assert vs[i] in vs && vs[j] in vs;
      assert b[i][..e] == vs[i] && b[j][..e] == vs[j];
    }
  }

  lemma {:induction false} UpToLastDistinct(vs: seq<Poly>, c: nat, e: nat)
    requires Distinct(vs) && AllOfSize(vs, e)
    ensures Distinct(UpToLast(vs, c))
  {
    assert Distinct([]);
    hide Distinct, WithLast, AllOfSize;
    if c > 0 {
      UpToLastDistinct(vs, c - 1, e);
      var a, b := UpToLast(vs, c - 1), WithLast(vs, c - 1);
      forall v | v in a ensures v !in b {
        UpToLastMembers(vs, c - 1, e, v);
        WithLastMembers(vs, c - 1, e, v);
      }
      WithLastDistinct(vs, c - 1, e);
      DistinctJoin(a, b);
    }
  }

  lemma DistinctJoin(a: seq<Poly>, b: seq<Poly>)
    requires Distinct(a) && Distinct(b) && forall v :: v in a ==> v !in b
    ensures Distinct(a + b)
  {
    forall i, j | 0 <= i < j < |a + b| ensures (a + b)[i] != (a + b)[j] {
      if i < |a| <= j { assert a[i] in a && b[j - |a|] in b; }
    }
  }

  lemma VectorNext(v: Poly, p: int, e: nat)
    requires |v| == e + 1
    ensures Vector(v, p, e + 1) <==> 0 <= v[e] < p && Vector(v[..e], p, e)
  {
    if 0 <= v[e] < p && Vector(v[..e], p, e) {
      forall i | 0 <= i < |v| ensures 0 <= v[i] < p { if i < e { assert v[..e][i] == v[i]; } }
    }
  }

  lemma {:induction false} VectorsMembers(p: nat, e: nat, v: Poly)
    requires AllOfSize(Vectors(p, e), e)
    ensures v in Vectors(p, e) <==> Vector(v, p, e)
  {
    hide UpToLast;
    if e > 0 {
      var vs := Vectors(p, e - 1);
      VectorsOfSize(p, e - 1);
      UpToLastMembers(vs, p, e - 1, v);
      if |v| == e {
        VectorsMembers(p, e - 1, v[..e - 1]);
        VectorNext(v, p, e - 1);
      }
    }
  }

  lemma {:induction false} VectorsOfSize(p: nat, e: nat)
    ensures AllOfSize(Vectors(p, e), e)
  {
    if e > 0 {
      VectorsOfSize(p, e - 1);
      forall v | v in Vectors(p, e) ensures |v| == e { UpToLastMembers(Vectors(p, e - 1), p, e - 1, v); }
    }
  }

  lemma {:induction false} VectorsFacts(p: nat, e: nat)
    requires p > 0
    ensures |Vectors(p, e)| == PrimePower(p, e) && Distinct(Vectors(p, e)) && PrimePower(p, e) > 0
    ensures Zeros(Vectors(p, e)[0])
  {
    hide UpToLast;
    if e > 0 {
      var vs := Vectors(p, e - 1);
      VectorsFacts(p, e - 1);
      VectorsOfSize(p, e - 1);
      UpToLastSize(vs, p);
      UpToLastDistinct(vs, p, e - 1);
      Positive(|vs|, p);
    }
  }

  lemma Positive(x: nat, c: nat)
    requires x > 0 && c > 0
    ensures x * c > 0
  {
  }

  // ----- Products do not depend on the order -----

  lemma {:induction false} ProductWithout(fs: seq<Poly>, i: nat)
    requires i < |fs|
    ensures Product(fs) == Times(Product(fs[..i] + fs[i + 1..]), fs[i])
  {
    hide Times;
    var n := |fs| - 1;
    if i == n {
      assert fs[..i] + fs[i + 1..] == fs[..n];
    } else {
      var front := fs[..n];
      ProductWithout(front, i);
      var a := Product(front[..i] + front[i + 1..]);
      assert front[..i] == fs[..i];
      assert fs[..i] + fs[i + 1..] == (front[..i] + front[i + 1..]) + [fs[n]];
      ProductAppend(front[..i] + front[i + 1..], fs[n]);
      TimesAssociative(a, fs[i], fs[n]);
      TimesCommutes(fs[i], fs[n]);
      TimesAssociative(a, fs[n], fs[i]);
    }
  }

  lemma {:induction false} ProductPermutes(a: seq<Poly>, b: seq<Poly>)
    requires multiset(a) == multiset(b)
    ensures Product(a) == Product(b)
    decreases |a|
  {
    hide Times;
    SameSize(a, b);
    if a != [] {
      var n := |a| - 1;
      assert a == a[..n] + [a[n]];
      assert a[n] in multiset(b);
      var i :| 0 <= i < |b| && b[i] == a[n];
      assert b == b[..i] + [b[i]] + b[i + 1..];
      WithoutOne(a[..n], b[..i], b[i + 1..], a[n]);
      ProductPermutes(a[..n], b[..i] + b[i + 1..]);
      ProductWithout(b, i);
    }
  }

  lemma WithoutOne(a: seq<Poly>, b: seq<Poly>, c: seq<Poly>, x: Poly)
    requires multiset(a + [x]) == multiset(b + [x] + c)
    ensures multiset(b + c) == multiset(a)
  {
    assert multiset(a + [x]) == multiset(a) + multiset{x};
    assert multiset(b + [x] + c) == multiset(b) + multiset{x} + multiset(c);
    assert multiset(b + c) == multiset(b) + multiset(c);
    assert multiset(a) == multiset(a + [x]) - multiset{x};
    assert multiset(b) + multiset(c) == multiset(b + [x] + c) - multiset{x};
  }

  lemma SameSize(a: seq<Poly>, b: seq<Poly>)
    requires multiset(a) == multiset(b)
    ensures |a| == |b|
  {
    assert |multiset(a)| == |a| && |multiset(b)| == |b|;
  }

  lemma {:induction false} SetOfDistinct(a: seq<Poly>)
    requires Distinct(a)
    ensures |set v | v in a| == |a|
    ensures forall v :: multiset(a)[v] == if v in a then 1 else 0
  {
    if a == [] {
      assert (set v | v in a) == {};
    } else {
      var n := |a| - 1;
      var front := a[..n];
      SetOfDistinct(front);
      assert a == front + [a[n]];
      assert a[n] !in front;
      assert (set v | v in a) == (set v | v in front) + {a[n]};
    }
  }

  /** Pairwise different members of a list, as many as it has, are the list in another order. */
  lemma DistinctMembers(a: seq<Poly>, b: seq<Poly>)
    requires Distinct(a) && Distinct(b) && |a| == |b| && forall v :: v in a ==> v in b
    ensures multiset(a) == multiset(b)
  {
    SetOfDistinct(a);
    SetOfDistinct(b);
    var x, y := set v | v in a, set v | v in b;
    assert x <= y by { forall v | v in x ensures v in y { assert v in a; } }
    SubsetOfSameSize(x, y);
    forall v ensures multiset(a)[v] == multiset(b)[v] { assert v in a <==> v in x; assert v in b <==> v in y; }
  }

  lemma SubsetOfSameSize(x: set<Poly>, y: set<Poly>)
    requires x <= y && |x| == |y|
    ensures x == y
  {
    assert |y - x| == |y| - |x|;
    assert y - x == {};
    assert y == x + (y - x);
  }

  // ----- The field -----

  /** A short multiple of `f` is zero. */
  lemma ShortMultiple(f: Poly, d: Poly, p: int)
    requires Prime(p) && Monic(f, p) && |d| < |f| && ModDividesPoly(f, d, p)
    ensures ZeroMod(d, p)
  {
    hide Divides, Conv, Prime, Cong, Add, EqMod;
    PrimeAboveOne(p);
    var r := CanonicalForm(d, p);
    if r != [] {
      EqModSymmetric(r, d, p);
      DividesEq(f, d, r, p);
      var g, c := MakeMonic(r, p);
      DividesMultiple(f, r, [c], p);
      EqModSymmetric(g, Times([c], r), p);
      DividesEq(f, Times([c], r), g, p);
      var q := MonicCofactor(g, f, p);
    } else {
      ZeroFromEqMod(d, p);
    }
  }

  lemma ZeroFromEqMod(d: Poly, p: int)
    requires EqMod([], d, p)
    ensures ZeroMod(d, p)
  {
    hide Divides;
    forall k ensures Divides(p, At(d, k)) {
      assert Divides(p, At([], k) - At(d, k));
      DividesTimes(p, At([], k) - At(d, k), -1);
    }
  }

  /** A product of nonzero residues is not zero. */
  lemma ProductNotDivided(f: Poly, a: Poly, b: Poly, p: int)
    requires Prime(p) && Irreducible(f, p) && !ModDividesPoly(f, a, p) && !ModDividesPoly(f, b, p)
    ensures !ModDividesPoly(f, Times(a, b), p)
  {
    hide Cong, Prime, Times, Irreducible;
    if ModDividesPoly(f, Times(a, b), p) { EuclidsLemma(f, a, b, p); }
  }

  lemma OneNotDivided(f: Poly, p: int)
    requires Prime(p) && Irreducible(f, p)
    ensures !ModDividesPoly(f, [1], p)
  {
    hide Cong, Prime;
    PrimeAboveOne(p);
    if ModDividesPoly(f, [1], p) {
      var q := MonicCofactor([1], f, p);
    }
  }

  lemma {:induction false} AllNotDivided(f: Poly, fs: seq<Poly>, p: int)
    requires Prime(p) && Irreducible(f, p) && forall i :: 0 <= i < |fs| ==> !ModDividesPoly(f, fs[i], p)
    ensures !ModDividesPoly(f, Product(fs), p)
  {
    hide ModDividesPoly, Prime, Times, Irreducible;
    if fs == [] {
      OneNotDivided(f, p);
    } else {
      AllNotDivided(f, fs[..|fs| - 1], p);
      ProductNotDivided(f, Product(fs[..|fs| - 1]), fs[|fs| - 1], p);
    }
  }

  /** The residue of x * v as a vector. */
  ghost predicate Image(f: Poly, x: Poly, v: Poly, w: Poly, p: int) {
    |f| > 0 && Vector(w, p, |f| - 1) && Cong(w, Times(x, v), f, p)
  }

  lemma SomeImage(f: Poly, x: Poly, v: Poly, p: int) returns (w: Poly)
    requires Prime(p) && Monic(f, p)
    ensures Image(f, x, v, w, p)
  {
    hide Cong, Prime, Times;
    PrimeAboveOne(p);
    var q, r := MonicRemainder(Times(x, v), f, p);
    RemainderCong(Times(x, v), f, q, r, p);
    w := r + seq(|f| - 1 - |r|, _ => 0);
    PaddedSame(r, w, p);
    EqModCong(w, r, f, p);
    CongTransitive(w, r, Times(x, v), f, p);
    PaddedResidues(r, w, p);
  }

  lemma PaddedSame(r: Poly, w: Poly, p: int)
    requires r <= w && forall i :: |r| <= i < |w| ==> w[i] == 0
    ensures EqMod(w, r, p)
  {
    hide Divides;
    forall k ensures At(w, k) == At(r, k) { }
    SameEqMod(w, r, p);
  }

  lemma PaddedResidues(r: Poly, w: Poly, p: int)
    requires p > 0 && Residues(r, p) && r <= w && forall i :: |r| <= i < |w| ==> w[i] == 0
    ensures Residues(w, p)
  {
  }

  ghost predicate Images(f: Poly, x: Poly, vs: seq<Poly>, ws: seq<Poly>, p: int) {
    |ws| == |vs| && forall i :: 0 <= i < |vs| ==> Image(f, x, vs[i], ws[i], p)
  }

  lemma {:induction false} AllImages(f: Poly, x: Poly, vs: seq<Poly>, p: int) returns (ws: seq<Poly>)
    requires Prime(p) && Monic(f, p)
    ensures Images(f, x, vs, ws, p)
  {
    hide Image, Prime, Monic;
    if vs == [] {
      ws := [];
    } else {
      var n := |vs| - 1;
      ws := AllImages(f, x, vs[..n], p);
      var w := SomeImage(f, x, vs[n], p);
      ws := ws + [w];
    }
  }

  /** Vectors that agree modulo `f` are the same. */
  lemma SameVector(f: Poly, v: Poly, w: Poly, p: int)
    requires Prime(p) && Monic(f, p) && Vector(v, p, |f| - 1) && Vector(w, p, |f| - 1)
    requires ModDividesPoly(f, Add(v, -1, w), p)
    ensures v == w
  {
    hide Divides, Cong, Prime;
    PrimeAboveOne(p);
    var d := Add(v, -1, w);
    assert |d| < |f|;
    ShortMultiple(f, d, p);
    forall i | 0 <= i < |v| ensures v[i] == w[i] {
      assert Divides(p, At(d, i));
      assert At(d, i) == At(v, i) + -1 * At(w, i - 0);
      ResidueUnique(v[i], w[i], p);
    }
  }

  /** x * v and x * w with the same image. */
  lemma ImageInjective(f: Poly, x: Poly, v: Poly, w: Poly, image: Poly, p: int)
    requires Prime(p) && Irreducible(f, p) && !ModDividesPoly(f, x, p)
    requires Vector(v, p, |f| - 1) && Vector(w, p, |f| - 1) && Image(f, x, v, image, p) && Image(f, x, w, image, p)
    ensures v == w
  {
    hide Cong, Prime, Times, EqMod, Add, Combines;
    CongSymmetric(image, Times(x, v), f, p);
    CongSymmetric(image, Times(x, w), f, p);
    CongTransitive(Times(x, v), image, Times(x, w), f, p);
    CongReflexive(Times(x, w), f, p);
    CongAdd(Times(x, v), Times(x, w), -1, Times(x, w), Times(x, w), f, p);
    SelfDifference(Times(x, w), f, p);
    CongTransitive(Add(Times(x, v), -1, Times(x, w)), Add(Times(x, w), -1, Times(x, w)), [], f, p);
    TimesCommutes(x, v);
    TimesCommutes(x, w);
    AddTimes(v, -1, w, x, p);
    DividesEq(f, Add(Times(x, v), -1, Times(x, w)), Times(Add(v, -1, w), x), p);
    EuclidsLemma(f, Add(v, -1, w), x, p);
    SameVector(f, v, w, p);
  }

  lemma SelfDifference(a: Poly, f: Poly, p: int)
    ensures Cong(Add(a, -1, a), [], f, p)
  {
    hide Divides, Cong;
    var d := Add(a, -1, a);
    forall k ensures Divides(p, At(d, k) - At([], k)) {
      assert At(d, k) == At(a, k) + -1 * At(a, k - 0);
      DividesSelf(p);
    }
    EqModIntro(d, [], p);
    EqModCong(d, [], f, p);
  }

  lemma ZerosDivided(f: Poly, v: Poly, p: int)
    requires Zeros(v)
    ensures ModDividesPoly(f, v, p)
  {
    hide Divides, Cong;
    forall k ensures Divides(p, At(v, k) - At([], k)) { DividesSelf(p); }
    EqModIntro(v, [], p);
    EqModCong(v, [], f, p);
  }

  lemma NonZeroVector(f: Poly, v: Poly, p: int)
    requires Prime(p) && Monic(f, p) && Vector(v, p, |f| - 1) && ModDividesPoly(f, v, p)
    ensures Zeros(v)
  {
    hide Divides, Cong, Prime;
    PrimeAboveOne(p);
    ShortMultiple(f, v, p);
    forall i | 0 <= i < |v| ensures v[i] == 0 {
      assert Divides(p, At(v, i));
      ResidueUnique(v[i], 0, p);
    }
  }

  /** The nonzero residues. */
  ghost function Units(p: nat, e: nat): seq<Poly>
    requires p > 0
  {
    VectorsFacts(p, e);
    Vectors(p, e)[1..]
  }

  lemma UnitsFacts(f: Poly, p: nat)
    requires Prime(p) && Irreducible(f, p)
    ensures var vs := Units(p, |f| - 1);
      && Distinct(vs) && |vs| == PrimePower(p, |f| - 1) - 1
      && forall v :: v in vs <==> Vector(v, p, |f| - 1) && !ModDividesPoly(f, v, p)
  {
    hide ModDividesPoly, Prime, Vectors, Vector;
    PrimeAboveOne(p);
    var e := |f| - 1;
    VectorsFacts(p, e);
    VectorsOfSize(p, e);
    var all := Vectors(p, e);
    var vs := Units(p, e);
    ZerosDivided(f, all[0], p);
    VectorsMembers(p, e, all[0]);
    forall v ensures v in vs <==> Vector(v, p, e) && !ModDividesPoly(f, v, p) {
      VectorsMembers(p, e, v);
      if v in vs {
        var i :| 0 <= i < |vs| && vs[i] == v;
        assert all[i + 1] == v && v in all;
        if ModDividesPoly(f, v, p) {
          NonZeroVector(f, v, p);
          assert all[0] in all;
          ZerosSame(v, all[0], p, e);
        }
      }
      if Vector(v, p, e) && !ModDividesPoly(f, v, p) {
        var i :| 0 <= i < |all| && all[i] == v;
        assert i > 0 && vs[i - 1] == v;
      }
    }
  }

  lemma ZerosSame(v: Poly, w: Poly, p: int, e: nat)
    requires Vector(v, p, e) && Vector(w, p, e) && Zeros(v) && Zeros(w)
    ensures v == w
  {
  }

  /** Multiplying all nonzero residues by `x` permutes them. */
  lemma ImagesPermute(f: Poly, x: Poly, p: nat) returns (ws: seq<Poly>)
    requires Prime(p) && Irreducible(f, p) && !ModDividesPoly(f, x, p)
    ensures Images(f, x, Units(p, |f| - 1), ws, p) && multiset(ws) == multiset(Units(p, |f| - 1))
  {
    hide ModDividesPoly, Prime, Vector, Units;
    PrimeAboveOne(p);
    var vs := Units(p, |f| - 1);
    UnitsFacts(f, p);
    ws := AllImages(f, x, vs, p);
    forall i, j | 0 <= i < j < |ws| ensures ws[i] != ws[j] {
      assert Image(f, x, vs[i], ws[i], p) && Image(f, x, vs[j], ws[j], p) && vs[i] in vs && vs[j] in vs;
      if ws[i] == ws[j] { ImageInjective(f, x, vs[i], vs[j], ws[i], p); }
    }
    forall w | w in ws ensures w in vs {
      var i :| 0 <= i < |ws| && ws[i] == w;
      assert vs[i] in vs && Image(f, x, vs[i], w, p);
      ImageNonZero(f, x, vs[i], w, p);
    }
    DistinctMembers(ws, vs);
  }

  lemma ImageNonZero(f: Poly, x: Poly, v: Poly, w: Poly, p: int)
    requires Prime(p) && Irreducible(f, p) && !ModDividesPoly(f, x, p) && !ModDividesPoly(f, v, p)
    requires Image(f, x, v, w, p)
    ensures Vector(w, p, |f| - 1) && !ModDividesPoly(f, w, p)
  {
    hide Cong, Prime, Times;
    ProductNotDivided(f, x, v, p);
    CongSymmetric(w, Times(x, v), f, p);
    if ModDividesPoly(f, w, p) { CongTransitive(Times(x, v), w, [], f, p); }
  }

  /** The product of the images is the power of `x` times the product. */
  lemma {:induction false} ImagesMultiply(f: Poly, x: Poly, vs: seq<Poly>, ws: seq<Poly>, p: int)
    requires Images(f, x, vs, ws, p)
    ensures Cong(Product(ws), Times(Power(x, |vs|), Product(vs)), f, p)
  {
    hide Cong, Times;
    if vs == [] {
      TimesOne([1]);
      CongReflexive([1], f, p);
    } else {
      var n := |vs| - 1;
      ImagesMultiply(f, x, vs[..n], ws[..n], p);
      assert Image(f, x, vs[n], ws[n], p);
      var a, b := Power(x, n), Product(vs[..n]);
      CongTimesBoth(Product(ws[..n]), Times(a, b), ws[n], Times(x, vs[n]), f, p);
      Interchange(a, b, x, vs[n]);
      PowerAgain(x, n);
    }
  }

  lemma PowerAgain(x: Poly, n: nat)
    ensures Power(x, n + 1) == Times(Power(x, n), x)
  {
    hide Times;
    TimesCommutes(Power(x, n), x);
  }

  lemma Interchange(a: Poly, b: Poly, c: Poly, d: Poly)
    ensures Times(Times(a, b), Times(c, d)) == Times(Times(a, c), Times(b, d))
  {
    hide Times;
    TimesAssociative(a, b, Times(c, d));
    TimesAssociative(b, c, d);
    TimesCommutes(b, c);
    TimesAssociative(c, b, d);
    TimesAssociative(a, c, Times(b, d));
  }

  /** A nonzero residue can be cancelled. */
  lemma CancelUnit(f: Poly, a: Poly, b: Poly, p: int)
    requires Prime(p) && Irreducible(f, p) && !ModDividesPoly(f, b, p) && Cong(b, Times(a, b), f, p)
    ensures Cong(a, [1], f, p)
  {
    hide Cong, Prime, Times, EqMod, Add, Combines;
    CongSymmetric(b, Times(a, b), f, p);
    CongReflexive(b, f, p);
    CongAdd(Times(a, b), b, -1, b, b, f, p);
    SelfDifference(b, f, p);
    CongTransitive(Add(Times(a, b), -1, b), Add(b, -1, b), [], f, p);
    TimesOne(b);
    AddTimes(a, -1, [1], b, p);
    DividesEq(f, Add(Times(a, b), -1, Times([1], b)), Times(Add(a, -1, [1]), b), p);
    EuclidsLemma(f, Add(a, -1, [1]), b, p);
    DifferenceCong(f, a, [1], p);
  }

  lemma DifferenceCong(f: Poly, a: Poly, b: Poly, p: int)
    requires ModDividesPoly(f, Add(a, -1, b), p)
    ensures Cong(a, b, f, p)
  {
    hide Cong, Divides, Add;
    CongReflexive(b, f, p);
    CongAdd(Add(a, -1, b), [], 1, b, b, f, p);
    var l, r := Add(Add(a, -1, b), 1, b), Add([], 1, b);
    forall k ensures At(l, k) == At(a, k) && At(r, k) == At(b, k) {
      assert At(l, k) == At(Add(a, -1, b), k) + 1 * At(b, k - 0);
      assert At(Add(a, -1, b), k) == At(a, k) + -1 * At(b, k - 0);
      assert At(r, k) == At([], k) + 1 * At(b, k - 0);
    }
    SameEqMod(a, l, p);
    SameEqMod(r, b, p);
    EqModCong(a, l, f, p);
    EqModCong(r, b, f, p);
    CongTransitive(a, l, r, f, p);
    CongTransitive(a, r, b, f, p);
  }

  /** Fermat's theorem: modulo an irreducible polynomial of degree e, the power p^e changes nothing. */
  lemma Fermat(f: Poly, x: Poly, p: nat)
    requires Prime(p) && Irreducible(f, p)
    ensures Cong(Power(x, PrimePower(p, |f| - 1)), x, f, p)
  {
    hide Cong, Prime, Times, Irreducible, Units, Power, PrimePower;
    PrimeAboveOne(p);
    IrreducibleDegree(f, p);
    var e := |f| - 1;
    var n := PrimePower(p, e);
    PowerPositive(p, e);
    if ModDividesPoly(f, x, p) {
      ZeroPower(f, x, n, p);
      CongSymmetric(x, [], f, p);
      CongTransitive(Power(x, n), [], x, f, p);
    } else {
      var vs := Units(p, e);
      UnitsFacts(f, p);
      var ws := ImagesPermute(f, x, p);
      ProductPermutes(ws, vs);
      ImagesMultiply(f, x, vs, ws, p);
      forall i | 0 <= i < |vs| ensures !ModDividesPoly(f, vs[i], p) { assert vs[i] in vs; }
      AllNotDivided(f, vs, p);
      CancelUnit(f, Power(x, n - 1), Product(vs), p);
      CongTimes(Power(x, n - 1), [1], x, f, p);
      PowerAgain(x, n - 1);
      TimesOne(x);
    }
  }

  lemma IrreducibleDegree(f: Poly, p: int)
    requires Irreducible(f, p)
    ensures |f| > 1 && Monic(f, p)
  {
  }

  lemma PowerPositive(p: nat, e: nat)
    requires p > 0
    ensures PrimePower(p, e) > 0
  {
    VectorsFacts(p, e);
  }

  lemma ZeroPower(f: Poly, x: Poly, n: nat, p: int)
    requires n > 0 && ModDividesPoly(f, x, p)
    ensures Cong(Power(x, n), [], f, p)
  {
    hide Cong, Times;
    PowerAgain(x, n - 1);
    DividesMultiple(f, x, Power(x, n - 1), p);
  }
}
