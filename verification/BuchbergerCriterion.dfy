/** Buchberger's criterion with both tests that skip pairs: when every pair of generators cancels below its least common
    multiple, the generators are a Groebner basis (src/cas/Groebner.cpp:406-418, 530-586). */
module BuchbergerCriterion {
  import opened RealProducts
  import opened MonomialOrder
  import opened MultiPoly
  import opened PolyIdeal
  import opened StandardRepresentation
  import opened PolyDivision

  ghost predicate AllNonZero(gens: seq<Poly>) {
    forall i :: 0 <= i < |gens| ==> gens[i] != []
  }

  ghost predicate Generators(gens: seq<Poly>, n: nat) {
    AllCanonical(gens, n) && AllNonZero(gens)
  }

  /** Every nonzero element of the ideal has a leading monomial that some generator's divides. */
  ghost predicate GroebnerBasis(gens: seq<Poly>, n: nat) {
    forall p: Poly :: Canonical(p, n) && p != [] && InIdeal(Of(p), gens, n) ==> !Irreducible(p[0].mono, gens)
  }

  // ----- Cross differences -----

  function Lead(gens: seq<Poly>, i: nat): Mono
    requires i < |gens| && gens[i] != []
  {
    gens[i][0].mono
  }

  function LeadCoeff(gens: seq<Poly>, i: nat): real
    requires i < |gens| && gens[i] != []
  {
    gens[i][0].coeff
  }

  /** Generator `i` raised to the monomial `l`. */
  ghost function Raised(gens: seq<Poly>, i: nat, l: Mono, k: Mono): real
    requires i < |gens| && gens[i] != [] && |l| == |Lead(gens, i)|
  {
    Shift(1.0, Over(l, Lead(gens, i)), gens[i], k)
  }

  /** The difference of two generators, raised to `l` and scaled so that their leading terms cancel. */
  ghost function Cross(gens: seq<Poly>, i: nat, j: nat, l: Mono): Mono -> real
    requires i < |gens| && j < |gens| && gens[i] != [] && gens[j] != [] && |l| == |Lead(gens, i)| == |Lead(gens, j)|
  {
    k => By(LeadCoeff(gens, j), Raised(gens, i, l, k)) - By(LeadCoeff(gens, i), Raised(gens, j, l, k))
  }

  function PairLcm(gens: seq<Poly>, i: nat, j: nat): Mono
    requires i < |gens| && j < |gens| && gens[i] != [] && gens[j] != [] && |Lead(gens, i)| == |Lead(gens, j)|
  {
    Lcm(Lead(gens, i), Lead(gens, j))
  }

  ghost predicate PairOf(gens: seq<Poly>, n: nat, i: nat, j: nat) {
    Generators(gens, n) && i < |gens| && j < |gens|
  }

  lemma LeadLength(gens: seq<Poly>, n: nat, i: nat)
    requires Generators(gens, n) && i < |gens|
    ensures gens[i] != [] && |Lead(gens, i)| == n && LeadCoeff(gens, i) != 0.0 && Canonical(gens[i], n)
  {
  }

  /** The S-polynomial of the pair is a sum of multiples below the common multiple. */
  ghost predicate Resolved(gens: seq<Poly>, n: nat, i: nat, j: nat) {
    && PairOf(gens, n, i, j) && gens[i] != [] && gens[j] != [] && |Lead(gens, i)| == |Lead(gens, j)| == n
    && Below(Cross(gens, i, j, PairLcm(gens, i, j)), gens, n, PairLcm(gens, i, j))
  }

  ghost predicate AllResolved(gens: seq<Poly>, n: nat) {
    forall i: nat, j: nat :: i < j < |gens| ==> Resolved(gens, n, i, j)
  }

  // ----- Raising a pair -----

  lemma LcmDividesCommon(a: Mono, b: Mono, l: Mono)
    requires |a| == |b| == |l| && Divides(a, l) && Divides(b, l)
    ensures Divides(Lcm(a, b), l)
  {
    forall v | 0 <= v < |l| ensures Lcm(a, b)[v] <= l[v] { assert a[v] <= l[v] && b[v] <= l[v]; }
  }

  lemma OverSplits(a: Mono, m: Mono, l: Mono)
    requires |a| == |m| == |l| && Divides(a, m) && Divides(m, l)
    ensures Over(l, a) == Times(Over(l, m), Over(m, a))
  {
    forall v | 0 <= v < |l| ensures Over(l, a)[v] == Times(Over(l, m), Over(m, a))[v] { assert a[v] <= m[v] <= l[v]; }
  }

  lemma RaisedTwice(gens: seq<Poly>, n: nat, i: nat, m: Mono, l: Mono, k: Mono)
    requires Generators(gens, n) && i < |gens| && |m| == |l| == |k| == n && Divides(Lead(gens, i), m) && Divides(m, l)
    ensures Raised(gens, i, l, k) == if Divides(Over(l, m), k) then Raised(gens, i, m, Over(k, Over(l, m))) else 0.0
  {
    hide Divides, Over, Shift, Times;
    OverSplits(Lead(gens, i), m, l);
    ShiftTwice(1.0, Over(l, m), 1.0, Over(m, Lead(gens, i)), gens[i], k);
  }

  lemma CrossRaised(gens: seq<Poly>, n: nat, i: nat, j: nat, m: Mono, l: Mono, k: Mono)
    requires PairOf(gens, n, i, j) && |m| == |l| == |k| == n
    requires Divides(Lead(gens, i), m) && Divides(Lead(gens, j), m) && Divides(m, l)
    ensures Cross(gens, i, j, l)(k) == TimesMono(1.0, Over(l, m), Cross(gens, i, j, m))(k)
  {
    hide Divides, Over, Raised, By;
    RaisedTwice(gens, n, i, m, l, k);
    RaisedTwice(gens, n, j, m, l, k);
    ByConstant(LeadCoeff(gens, i));
    ByConstant(LeadCoeff(gens, j));
  }

  /** A resolved pair cancels below every common multiple. */
  lemma Lift(gens: seq<Poly>, n: nat, i: nat, j: nat, l: Mono)
    requires Resolved(gens, n, i, j) && |l| == n && Divides(Lead(gens, i), l) && Divides(Lead(gens, j), l)
    ensures Below(Cross(gens, i, j, l), gens, n, l)
  {
    hide Divides, Over, Below, Cross, TimesMono, Lcm, Times;
    var m := PairLcm(gens, i, j);
    LcmDivided(Lead(gens, i), Lead(gens, j));
    LcmDividesCommon(Lead(gens, i), Lead(gens, j), l);
    BelowTimes(Cross(gens, i, j, m), gens, n, m, 1.0, Over(l, m));
    TimesOver(m, l);
    forall k: Mono | |k| == n ensures Cross(gens, i, j, l)(k) == TimesMono(1.0, Over(l, m), Cross(gens, i, j, m))(k) {
      CrossRaised(gens, n, i, j, m, l, k);
    }
    BelowEqual(TimesMono(1.0, Over(l, m), Cross(gens, i, j, m)), Cross(gens, i, j, l), gens, n, l);
  }

  lemma LcmCommutes(a: Mono, b: Mono)
    requires |a| == |b|
    ensures Lcm(a, b) == Lcm(b, a)
  {
  }

  lemma Flip(gens: seq<Poly>, n: nat, i: nat, j: nat)
    requires Resolved(gens, n, i, j)
    ensures Resolved(gens, n, j, i)
  {
    hide Below, Raised, By, Lcm;
    LcmCommutes(Lead(gens, i), Lead(gens, j));
    var l := PairLcm(gens, i, j);
    forall k: Mono | |k| == n ensures Cross(gens, j, i, l)(k) == -1.0 * Cross(gens, i, j, l)(k) { }
    LcmLength(Lead(gens, i), Lead(gens, j));
    BelowScale(Cross(gens, i, j, l), Cross(gens, j, i, l), gens, n, l, -1.0);
  }

  lemma LcmLength(a: Mono, b: Mono)
    requires |a| == |b|
    ensures |Lcm(a, b)| == |a|
  {
  }

  // ----- The second criterion -----

  lemma Triangle(a: real, b: real, c: real, x: real, y: real, z: real)
    requires c != 0.0
    ensures By(b, x) - By(a, y) == By(b / c, By(c, x) - By(a, z)) - By(a / c, By(c, y) - By(b, z))
  {
    var q := 1.0 / c;
    assert b / c == b * q && a / c == a * q && q * c == 1.0;
    assert (b * q) * (c * x - a * z) == b * x - (b * q) * (a * z) by {
      assert (b * q) * (c * x) == b * ((q * c) * x);
    }
    assert (a * q) * (c * y - b * z) == a * y - (a * q) * (b * z) by {
      assert (a * q) * (c * y) == a * ((q * c) * y);
    }
    assert (b * q) * (a * z) == (a * q) * (b * z);
  }

  /** The pair follows from the pairs with a third generator whose leading monomial divides the common multiple. */
  lemma Chain(gens: seq<Poly>, n: nat, i: nat, j: nat, t: nat)
    requires Resolved(gens, n, i, t) && Resolved(gens, n, j, t)
    requires Divides(Lead(gens, t), PairLcm(gens, i, j))
    ensures Resolved(gens, n, i, j)
  {
    hide Below, Raised, By, Lcm, Divides;
    var l := PairLcm(gens, i, j);
    LcmDivided(Lead(gens, i), Lead(gens, j));
    LcmLength(Lead(gens, i), Lead(gens, j));
    LeadLength(gens, n, t);
    Lift(gens, n, i, t, l);
    Lift(gens, n, j, t, l);
    var a, b, c := LeadCoeff(gens, i), LeadCoeff(gens, j), LeadCoeff(gens, t);
    var first := (k: Mono) => By(b / c, Cross(gens, i, t, l)(k));
    var second := (k: Mono) => By(-(a / c), Cross(gens, j, t, l)(k));
    BelowBy(Cross(gens, i, t, l), first, gens, n, l, b / c);
    BelowBy(Cross(gens, j, t, l), second, gens, n, l, -(a / c));
    forall k: Mono | |k| == n ensures Cross(gens, i, j, l)(k) == first(k) + second(k) {
      Triangle(a, b, c, Raised(gens, i, l, k), Raised(gens, j, l, k), Raised(gens, t, l, k));
      ByNegated(a / c, Cross(gens, j, t, l)(k));
    }
    BelowAdd(first, second, Cross(gens, i, j, l), gens, n, l);
  }

  lemma ByNegated(a: real, x: real)
    ensures By(-a, x) == -By(a, x)
  {
  }

  lemma BelowBy(f: Mono -> real, h: Mono -> real, gens: seq<Poly>, n: nat, bound: Mono, c: real)
    requires Below(f, gens, n, bound) && |bound| == n && forall k: Mono :: |k| == n ==> h(k) == By(c, f(k))
    ensures Below(h, gens, n, bound)
  {
    hide Below;
    BelowScale(f, h, gens, n, bound, c);
  }

  // ----- The first criterion -----

  ghost predicate Coprime(a: Mono, b: Mono) {
    |a| == |b| && forall v :: 0 <= v < |a| ==> a[v] == 0 || b[v] == 0
  }

  /** What a pair of terms contributes to a product at `k`. */
  function Pair(u: Term, v: Term, k: Mono): real {
    if |u.mono| == |v.mono| && Times(u.mono, v.mono) == k then By(u.coeff, v.coeff) else 0.0
  }

  function Row(u: Term, g: Poly, k: Mono): real {
    if g == [] then 0.0 else Row(u, g[..|g| - 1], k) + Pair(u, g[|g| - 1], k)
  }

  function Total(f: Poly, g: Poly, k: Mono): real {
    if f == [] then 0.0 else Total(f[..|f| - 1], g, k) + Row(f[|f| - 1], g, k)
  }

  lemma PairSwaps(u: Term, v: Term, k: Mono)
    ensures Pair(u, v, k) == Pair(v, u, k)
  {
    if |u.mono| == |v.mono| { TimesOver(u.mono, v.mono); }
    BySwap(u.coeff, v.coeff);
  }

  lemma {:induction false} TotalNothing(f: Poly, k: Mono)
    ensures Total(f, [], k) == 0.0
  {
    if f != [] { TotalNothing(f[..|f| - 1], k); }
  }

  lemma {:induction false} TotalNext(f: Poly, g: Poly, k: Mono)
    requires g != []
    ensures Total(f, g, k) == Total(f, g[..|g| - 1], k) + Row(g[|g| - 1], f, k)
  {
    if f != [] {
      TotalNext(f[..|f| - 1], g, k);
      PairSwaps(f[|f| - 1], g[|g| - 1], k);
    }
  }

  /** The product does not depend on the order of the factors. */
  lemma {:induction false} TotalSwaps(f: Poly, g: Poly, k: Mono)
    ensures Total(f, g, k) == Total(g, f, k)
  {
    if g == [] {
      TotalNothing(f, k);
    } else {
      TotalSwaps(f, g[..|g| - 1], k);
      TotalNext(f, g, k);
    }
  }

  /** A term times a polynomial. */
  lemma {:induction false} RowIsShift(u: Term, g: Poly, n: nat, k: Mono)
    requires InVars(g, n) && |u.mono| == |k| == n
    ensures Row(u, g, k) == Shift(u.coeff, u.mono, g, k)
  {
    hide Coeff, Times, Over, Divides;
    if g == [] {
      ShiftNothing(u.coeff, u.mono, k);
    } else {
      var m := |g| - 1;
      RowIsShift(u, g[..m], n, k);
      CoeffNext(g, m, Over(k, u.mono));
      assert g[..m + 1] == g;
      TimesOver(u.mono, k);
      TimesOver(u.mono, g[m].mono);
      if Divides(u.mono, k) {
        PairAt(u, g[m], k);
        MultiPoly.Distribute(u.coeff, Coeff(g[..m], Over(k, u.mono)),
          if g[m].mono == Over(k, u.mono) then g[m].coeff else 0.0);
      } else {
        assert Times(u.mono, g[m].mono) != k;
      }
    }
  }

  lemma ShiftNothing(c: real, m: Mono, k: Mono)
    ensures Shift(c, m, [], k) == 0.0
  {
  }

  lemma PairAt(u: Term, v: Term, k: Mono)
    requires |u.mono| == |v.mono| == |k| && Divides(u.mono, k)
    ensures Pair(u, v, k) == u.coeff * (if v.mono == Over(k, u.mono) then v.coeff else 0.0)
  {
    hide Divides, Over, Times;
    TimesOver(u.mono, k);
    TimesOver(u.mono, v.mono);
  }

  /** The multiples of generator `at` by the terms of `f`, scaled. */
  ghost function ByTerms(f: Poly, s: real, at: nat): (r: seq<Multiple>)
    ensures |r| == |f| && forall i :: 0 <= i < |f| ==> r[i] == Multiple(By(s, f[i].coeff), f[i].mono, at)
  {
    seq(|f|, i requires 0 <= i < |f| => Multiple(By(s, f[i].coeff), f[i].mono, at))
  }

  lemma {:induction false} SumByTerms(gens: seq<Poly>, f: Poly, s: real, at: nat, n: nat, k: Mono)
    requires at < |gens| && InVars(gens[at], n) && InVars(f, n) && |k| == n
    ensures SumAt(gens, ByTerms(f, s, at), k) == By(s, Total(f, gens[at], k))
  {
    hide Shift, By, Row;
    ByConstant(s);
    if f != [] {
      var m := |f| - 1;
      SumByTerms(gens, f[..m], s, at, n, k);
      assert ByTerms(f, s, at)[..m] == ByTerms(f[..m], s, at);
      RowIsShift(f[m], gens[at], n, k);
      ScaledShiftBy(s, f[m].coeff, f[m].mono, gens[at], k);
      BySum(s, Total(f[..m], gens[at], k), Row(f[m], gens[at], k));
    }
  }

  lemma ScaledShiftBy(s: real, c: real, m: Mono, g: Poly, k: Mono)
    ensures Shift(By(s, c), m, g, k) == By(s, Shift(c, m, g, k))
  {
    if |k| == |m| && Divides(m, k) { assert (s * c) * Coeff(g, Over(k, m)) == s * (c * Coeff(g, Over(k, m))); }
  }

  lemma {:induction false} TotalHead(f: Poly, g: Poly, k: Mono)
    requires f != []
    ensures Total(f, g, k) == Row(f[0], g, k) + Total(f[1..], g, k)
  {
    var m := |f| - 1;
    if m == 0 {
      assert f[..0] == [] && f[1..] == [];
    } else {
      TotalHead(f[..m], g, k);
      assert f[..m][1..] == f[1..][..m - 1] && f[1..][m - 1] == f[m];
    }
  }

  lemma CoprimeOver(a: Mono, b: Mono)
    requires Coprime(a, b)
    ensures Lcm(a, b) == Times(a, b) && Over(Lcm(a, b), a) == b && Over(Lcm(a, b), b) == a
  {
  }

  /** The multiples of one generator by the other one's lower terms stay below the product of the leading monomials. */
  lemma TailBelow(gens: seq<Poly>, n: nat, i: nat, j: nat, s: real)
    requires PairOf(gens, n, i, j)
    ensures HeadsBelow(gens, ByTerms(gens[i][1..], s, j), n, Times(Lead(gens, i), Lead(gens, j)))
  {
    hide Less;
    var f, lead := gens[i], Lead(gens, j);
    var ms := ByTerms(f[1..], s, j);
    forall t | 0 <= t < |ms| ensures HeadBelow(gens, ms[t], n, Times(Lead(gens, i), lead)) {
      assert Less(f[t + 1].mono, f[0].mono) && f[1..][t] == f[t + 1];
      LessTimes(f[t + 1].mono, f[0].mono, lead);
      TimesOver(f[t + 1].mono, lead);
      TimesOver(f[0].mono, lead);
    }
  }

  lemma CrossOfCoprime(gens: seq<Poly>, n: nat, i: nat, j: nat, k: Mono)
    requires PairOf(gens, n, i, j) && Coprime(Lead(gens, i), Lead(gens, j)) && |k| == n
    ensures Cross(gens, i, j, PairLcm(gens, i, j))(k)
      == By(1.0, Total(gens[i][1..], gens[j], k)) + By(-1.0, Total(gens[j][1..], gens[i], k))
  {
    hide Total, Row, Shift, Times, Over, Lcm;
    var f, g := gens[i], gens[j];
    CoprimeOver(f[0].mono, g[0].mono);
    TotalSwaps(f, g, k);
    TotalHead(f, g, k);
    TotalHead(g, f, k);
    RowIsShift(g[0], f, n, k);
    RowIsShift(f[0], g, n, k);
    ScaledShiftBy(g[0].coeff, 1.0, g[0].mono, f, k);
    ScaledShiftBy(f[0].coeff, 1.0, f[0].mono, g, k);
  }

  /** Generators whose leading monomials share no variable. */
  lemma CoprimeResolved(gens: seq<Poly>, n: nat, i: nat, j: nat)
    requires PairOf(gens, n, i, j) && Coprime(Lead(gens, i), Lead(gens, j))
    ensures Resolved(gens, n, i, j)
  {
    hide Less, Total, SumAt, Cross, Lcm, Times, By;
    var l := PairLcm(gens, i, j);
    CoprimeOver(Lead(gens, i), Lead(gens, j));
    TimesOver(Lead(gens, i), Lead(gens, j));
    TailBelow(gens, n, i, j, 1.0);
    TailBelow(gens, n, j, i, -1.0);
    var xs, ys := ByTerms(gens[i][1..], 1.0, j), ByTerms(gens[j][1..], -1.0, i);
    forall k: Mono | |k| == n ensures Cross(gens, i, j, l)(k) == SumAt(gens, xs + ys, k) {
      SumAtConcat(gens, xs, ys, k);
      SumByTerms(gens, gens[i][1..], 1.0, j, n, k);
      SumByTerms(gens, gens[j][1..], -1.0, i, n, k);
      CrossOfCoprime(gens, n, i, j, k);
    }
    BelowIntro(Cross(gens, i, j, l), gens, n, l, xs + ys);
  }

  // ----- The criterion -----

  ghost predicate HeadAt(gens: seq<Poly>, t: Multiple, n: nat, l: Mono) {
    && t.index < |gens| && gens[t.index] != [] && |t.mono| == |gens[t.index][0].mono| == |l| == n
    && Times(t.mono, gens[t.index][0].mono) == l
  }

  ghost predicate HeadsAt(gens: seq<Poly>, ms: seq<Multiple>, n: nat, l: Mono) {
    forall i :: 0 <= i < |ms| ==> HeadAt(gens, ms[i], n, l)
  }

  /** A multiple whose leading monomial is `l` is a generator raised to `l`. */
  lemma MultipleIsRaised(gens: seq<Poly>, t: Multiple, n: nat, l: Mono, k: Mono)
    requires HeadAt(gens, t, n, l)
    ensures Divides(Lead(gens, t.index), l) && MultipleAt(gens, t, k) == By(t.coeff, Raised(gens, t.index, l, k))
  {
    hide Times, Over, Divides, Less;
    TimesOver(t.mono, gens[t.index][0].mono);
    TimesOver(gens[t.index][0].mono, t.mono);
    ScaledShiftBy(t.coeff, 1.0, t.mono, gens[t.index], k);
    ByConstant(t.coeff);
  }

  /** At `l` the raised generator has its leading coefficient. */
  lemma RaisedAt(gens: seq<Poly>, n: nat, i: nat, l: Mono)
    requires Generators(gens, n) && i < |gens| && |l| == n && Divides(Lead(gens, i), l)
    ensures Raised(gens, i, l, l) == LeadCoeff(gens, i)
  {
    hide Times, Over, Divides, Shift, Coeff;
    TimesOver(Lead(gens, i), l);
    ShiftAtLead(1.0, Over(l, Lead(gens, i)), gens[i], n);
  }

  /** c * x - (c * a / b) * y is c / b times the cross difference. */
  lemma CrossQuotient(c: real, a: real, b: real, x: real, y: real)
    requires b != 0.0
    ensures By(c / b, By(b, x) - By(a, y)) == By(c, x) - By(By(c, a) / b, y)
  {
    var q := 1.0 / b;
    assert c / b == c * q && (c * a) / b == (c * a) * q && q * b == 1.0;
    assert (c * q) * (b * x) == c * ((q * b) * x);
    assert (c * q) * (a * y) == ((c * a) * q) * y;
  }

  /** Two multiples with the same leading monomial: one of them goes over to the other's generator, up to something
      below. */
  lemma MergeTwo(gens: seq<Poly>, n: nat, t: Multiple, u: Multiple, l: Mono) returns (v: Multiple, rest: seq<Multiple>)
    requires Generators(gens, n) && AllResolved(gens, n) && HeadAt(gens, t, n, l) && HeadAt(gens, u, n, l)
    ensures HeadAt(gens, v, n, l) && HeadsBelow(gens, rest, n, l)
    ensures forall k: Mono :: |k| == n ==>
      MultipleAt(gens, t, k) + MultipleAt(gens, u, k) == MultipleAt(gens, v, k) + SumAt(gens, rest, k)
  {
    hide Times, Over, Divides, Less, Below, Cross, SumAt, MultipleAt, By, Raised;
    var i, j := t.index, u.index;
    LeadLength(gens, n, i);
    LeadLength(gens, n, j);
    var a, b := LeadCoeff(gens, i), LeadCoeff(gens, j);
    MultipleIsRaised(gens, t, n, l, l);
    MultipleIsRaised(gens, u, n, l, l);
    var moved := By(t.coeff, a) / b;
    v := Multiple(u.coeff + moved, u.mono, j);
    var h := (k: Mono) => By(t.coeff, Raised(gens, i, l, k)) - By(moved, Raised(gens, j, l, k));
    MergeRest(gens, n, i, j, l, t.coeff, moved, h);
    rest := BelowWitness(h, gens, n, l);
    forall k: Mono | |k| == n
      ensures MultipleAt(gens, t, k) + MultipleAt(gens, u, k) == MultipleAt(gens, v, k) + SumAt(gens, rest, k)
    {
      MultipleIsRaised(gens, t, n, l, k);
      MultipleIsRaised(gens, u, n, l, k);
      MultipleIsRaised(gens, v, n, l, k);
      BySum(Raised(gens, j, l, k), u.coeff, moved);
      assert h(k) == SumAt(gens, rest, k);
    }
  }

  lemma MergeRest(gens: seq<Poly>, n: nat, i: nat, j: nat, l: Mono, c: real, moved: real, h: Mono -> real)
    requires PairOf(gens, n, i, j) && AllResolved(gens, n) && |l| == n
    requires Divides(Lead(gens, i), l) && Divides(Lead(gens, j), l)
    requires moved == By(c, LeadCoeff(gens, i)) / LeadCoeff(gens, j)
    requires forall k: Mono :: |k| == n ==> h(k) == By(c, Raised(gens, i, l, k)) - By(moved, Raised(gens, j, l, k))
    ensures Below(h, gens, n, l)
  {
    hide Times, Over, Divides, Less, Below, By, Raised;
    LeadLength(gens, n, i);
    LeadLength(gens, n, j);
    var a, b := LeadCoeff(gens, i), LeadCoeff(gens, j);
    if i == j {
      SameQuotient(c, a);
      BelowZero(h, gens, n, l);
    } else {
      if j < i { Flip(gens, n, j, i); }
      Lift(gens, n, i, j, l);
      forall k: Mono | |k| == n ensures h(k) == By(c / b, Cross(gens, i, j, l)(k)) {
        CrossQuotient(c, a, b, Raised(gens, i, l, k), Raised(gens, j, l, k));
      }
      BelowBy(Cross(gens, i, j, l), h, gens, n, l, c / b);
    }
  }

  lemma SameQuotient(c: real, a: real)
    requires a != 0.0
    ensures By(c, a) / a == c
  {
  }

  /** If the multiples with leading monomial `l` cancel there, everything can be rewritten below `l`. */
  lemma {:induction false} Descend(gens: seq<Poly>, n: nat, top: seq<Multiple>, low: seq<Multiple>, l: Mono)
    returns (ms: seq<Multiple>)
    requires Generators(gens, n) && AllResolved(gens, n) && |l| == n
    requires HeadsAt(gens, top, n, l) && HeadsBelow(gens, low, n, l) && SumAt(gens, top, l) + SumAt(gens, low, l) == 0.0
    ensures HeadsBelow(gens, ms, n, l)
    ensures forall k: Mono :: |k| == n ==> SumAt(gens, ms, k) == SumAt(gens, top, k) + SumAt(gens, low, k)
    decreases |top|
  {
    hide HeadAt, HeadBelow, MultipleAt, AllResolved, Less;
    if top == [] {
      ms := low;
    } else if |top| == 1 {
      OneVanishes(gens, n, top[0], low, l);
      assert top == [top[0]] && top[..0] == [];
      ms := low;
    } else {
      var m := |top| - 2;
      var v, rest := MergeTwo(gens, n, top[m], top[m + 1], l);
      forall k: Mono | |k| == n
        ensures SumAt(gens, top[..m] + [v], k) + SumAt(gens, low + rest, k) == SumAt(gens, top, k) + SumAt(gens, low, k)
      {
        MergedSum(gens, top, v, rest, low, k);
      }
      ms := Descend(gens, n, top[..m] + [v], low + rest, l);
    }
  }

  lemma MergedSum(gens: seq<Poly>, top: seq<Multiple>, v: Multiple, rest: seq<Multiple>, low: seq<Multiple>, k: Mono)
    requires |top| >= 2
    requires var m := |top| - 2;
      MultipleAt(gens, top[m], k) + MultipleAt(gens, top[m + 1], k) == MultipleAt(gens, v, k) + SumAt(gens, rest, k)
    ensures SumAt(gens, top[..|top| - 2] + [v], k) + SumAt(gens, low + rest, k) ==
      SumAt(gens, top, k) + SumAt(gens, low, k)
  {
    hide MultipleAt;
    var m := |top| - 2;
    SumAtConcat(gens, low, rest, k);
    assert (top[..m] + [v])[..m] == top[..m];
    assert top[..m + 1][..m] == top[..m];
    assert SumAt(gens, top[..m + 1], k) == SumAt(gens, top[..m], k) + MultipleAt(gens, top[m], k);
    assert SumAt(gens, top, k) == SumAt(gens, top[..m + 1], k) + MultipleAt(gens, top[m + 1], k);
  }

  /** A single multiple at `l` with nothing to cancel against is zero. */
  lemma OneVanishes(gens: seq<Poly>, n: nat, t: Multiple, low: seq<Multiple>, l: Mono)
    requires Generators(gens, n) && HeadAt(gens, t, n, l) && HeadsBelow(gens, low, n, l)
    requires SumAt(gens, [t], l) + SumAt(gens, low, l) == 0.0
    ensures forall k: Mono :: MultipleAt(gens, t, k) == 0.0
  {
    hide MultipleAt, Raised, By, Less;
    assert [t][..0] == [];
    assert SumAt(gens, [t], l) == MultipleAt(gens, t, l);
    SumVanishes(gens, low, n, l, l);
    MultipleIsRaised(gens, t, n, l, l);
    RaisedAt(gens, n, t.index, l);
    LeadLength(gens, n, t.index);
    if t.coeff != 0.0 { ByNonZero(t.coeff, LeadCoeff(gens, t.index)); }
    forall k: Mono ensures MultipleAt(gens, t, k) == 0.0 {
      MultipleIsRaised(gens, t, n, l, k);
      ByConstant(Raised(gens, t.index, l, k));
    }
  }

  /** Multiples up to `l`, split into those at `l` and those below. */
  lemma {:induction false} SplitAt(gens: seq<Poly>, n: nat, ms: seq<Multiple>, l: Mono)
    returns (top: seq<Multiple>, low: seq<Multiple>)
    requires |l| == n && forall i :: 0 <= i < |ms| ==> HeadAt(gens, ms[i], n, l) || HeadBelow(gens, ms[i], n, l)
    ensures HeadsAt(gens, top, n, l) && HeadsBelow(gens, low, n, l)
    ensures forall k: Mono :: SumAt(gens, ms, k) == SumAt(gens, top, k) + SumAt(gens, low, k)
  {
    hide HeadAt, HeadBelow, MultipleAt;
    if ms == [] {
      top, low := [], [];
    } else {
      var t := ms[|ms| - 1];
      top, low := SplitAt(gens, n, ms[..|ms| - 1], l);
      if HeadAt(gens, t, n, l) {
        assert (top + [t])[..|top|] == top;
        top := top + [t];
      } else {
        assert (low + [t])[..|low|] == low;
        low := low + [t];
      }
    }
  }

  /** The greatest leading monomial of some multiples. */
  lemma {:induction false} GreatestHead(gens: seq<Poly>, n: nat, ms: seq<Multiple>) returns (l: Mono)
    requires Generators(gens, n) && ValidMultiples(ms, |gens|, n) && ms != []
    ensures |l| == n && (forall i :: 0 <= i < |ms| ==> HeadAt(gens, ms[i], n, l) || HeadBelow(gens, ms[i], n, l))
    ensures exists i :: 0 <= i < |ms| && HeadAt(gens, ms[i], n, l)
  {
    hide Less, Times;
    var m := |ms| - 1;
    var t := ms[m];
    LeadLength(gens, n, t.index);
    TimesLength(t.mono, gens[t.index][0].mono);
    var head := Times(t.mono, gens[t.index][0].mono);
    if m == 0 {
      l := head;
      assert HeadAt(gens, ms[0], n, l);
    } else {
      var l0 := GreatestHead(gens, n, ms[..m]);
      LessTrichotomy(head, l0);
      if Less(l0, head) {
        l := head;
        forall i | 0 <= i < m ensures HeadBelow(gens, ms[i], n, l) {
          assert HeadAt(gens, ms[..m][i], n, l0) || HeadBelow(gens, ms[..m][i], n, l0);
          if !HeadAt(gens, ms[..m][i], n, l0) { LessTransitive(Times(ms[i].mono, gens[ms[i].index][0].mono), l0, l); }
        }
        assert HeadAt(gens, ms[m], n, l);
      } else {
        l := l0;
        var i :| 0 <= i < m && HeadAt(gens, ms[..m][i], n, l0);
        assert HeadAt(gens, ms[i], n, l);
        forall i | 0 <= i < m ensures HeadAt(gens, ms[i], n, l) || HeadBelow(gens, ms[i], n, l) {
          assert HeadAt(gens, ms[..m][i], n, l0) || HeadBelow(gens, ms[..m][i], n, l0);
        }
      }
    }
  }

  lemma TimesLength(a: Mono, b: Mono)
    requires |a| == |b|
    ensures |Times(a, b)| == |a|
  {
  }

  /** An element with a representation up to `l` has a leading monomial that some generator's divides. */
  lemma {:induction false} LeadReached(gens: seq<Poly>, n: nat, p: Poly, ms: seq<Multiple>, l: Mono, o: ORDINAL)
    requires Generators(gens, n) && AllResolved(gens, n) && Canonical(p, n) && p != [] && |l| == n
    requires Represents(Of(p), gens, ms, n)
    requires (forall i :: 0 <= i < |ms| ==> HeadAt(gens, ms[i], n, l) || HeadBelow(gens, ms[i], n, l))
    requires Accessible#[o](l)
    ensures !Irreducible(p[0].mono, gens)
    decreases o
  {
    hide HeadAt, HeadBelow, AllResolved, Less, Coeff, SumAt, Canonical, Irreducible, Accessible;
    var top, low := SplitAt(gens, n, ms, l);
    LeadOf(p, n);
    var lead := p[0].mono;
    if lead == l && top != [] {
      HeadDivides(gens, top[0], n, l);
    } else {
      ZeroAt(gens, n, p, ms, top, low, l);
      var below := Descend(gens, n, top, low, l);
      NotNothing(gens, n, p, below);
      HeadsValid(gens, below, n, l);
      var l' := GreatestHead(gens, n, below);
      SmallerHead(gens, below, n, l, l');
      var o' := StepDown(l, o, l');
      LeadReached(gens, n, p, below, l', o');
    }
  }

  lemma LeadOf(p: Poly, n: nat)
    requires Canonical(p, n) && p != []
    ensures |p[0].mono| == n && Coeff(p, p[0].mono) != 0.0
  {
    CoeffAt(p, n, 0);
  }

  lemma HeadDivides(gens: seq<Poly>, t: Multiple, n: nat, l: Mono)
    requires HeadAt(gens, t, n, l)
    ensures !Irreducible(l, gens)
  {
    hide Times, Divides;
    TimesOver(t.mono, gens[t.index][0].mono);
    TimesOver(gens[t.index][0].mono, t.mono);
    DividesRefutes(gens, t.index, l);
  }

  /** Unless the element's leading monomial is at `l`, the multiples cancel there. */
  lemma ZeroAt(gens: seq<Poly>, n: nat, p: Poly, ms: seq<Multiple>, top: seq<Multiple>, low: seq<Multiple>, l: Mono)
    requires Generators(gens, n) && Canonical(p, n) && p != [] && |l| == n && Represents(Of(p), gens, ms, n)
    requires HeadsAt(gens, top, n, l) && HeadsBelow(gens, low, n, l) && (p[0].mono != l || top == [])
    requires forall k: Mono :: SumAt(gens, ms, k) == SumAt(gens, top, k) + SumAt(gens, low, k)
    ensures SumAt(gens, top, l) + SumAt(gens, low, l) == 0.0
  {
    hide Coeff, Less;
    assert Of(p)(l) == SumAt(gens, ms, l);
    var lead := p[0].mono;
    LeadOf(p, n);
    assert Of(p)(lead) == SumAt(gens, ms, lead);
    SumVanishes(gens, low, n, l, l);
    if top != [] {
      LessTrichotomy(lead, l);
      if Less(l, lead) {
        SumVanishes(gens, low, n, l, lead);
        TopVanishes(gens, n, top, l, lead);
      } else {
        Above(p, n, l);
      }
    }
  }

  /** Above `l` multiples with leading monomial `l` have nothing. */
  lemma {:induction false} TopVanishes(gens: seq<Poly>, n: nat, top: seq<Multiple>, l: Mono, k: Mono)
    requires Generators(gens, n) && HeadsAt(gens, top, n, l) && |k| == |l| == n && Less(l, k)
    ensures SumAt(gens, top, k) == 0.0
  {
    hide Coeff, Less, Shift;
    if top != [] {
      var t := top[|top| - 1];
      TopVanishes(gens, n, top[..|top| - 1], l, k);
      assert HeadAt(gens, t, n, l);
      ShiftAbove(t.coeff, t.mono, gens[t.index], n, k);
    }
  }

  lemma NotNothing(gens: seq<Poly>, n: nat, p: Poly, ms: seq<Multiple>)
    requires Canonical(p, n) && p != [] && Represents(Of(p), gens, ms, n)
    ensures ms != []
  {
    hide Coeff;
    LeadOf(p, n);
    assert Of(p)(p[0].mono) == SumAt(gens, ms, p[0].mono);
  }

  lemma HeadsValid(gens: seq<Poly>, ms: seq<Multiple>, n: nat, l: Mono)
    requires HeadsBelow(gens, ms, n, l)
    ensures ValidMultiples(ms, |gens|, n)
  {
    hide Less;
    forall i | 0 <= i < |ms| ensures ms[i].index < |gens| && |ms[i].mono| == n { assert HeadBelow(gens, ms[i], n, l); }
  }

  lemma SmallerHead(gens: seq<Poly>, ms: seq<Multiple>, n: nat, l: Mono, l': Mono)
    requires HeadsBelow(gens, ms, n, l) && |l'| == n && exists i :: 0 <= i < |ms| && HeadAt(gens, ms[i], n, l')
    ensures |l| == n && Less(l', l)
  {
    hide Less, Times;
    var i :| 0 <= i < |ms| && HeadAt(gens, ms[i], n, l');
    assert HeadBelow(gens, ms[i], n, l);
  }

  /** Buchberger's criterion. */
  lemma Criterion(gens: seq<Poly>, n: nat)
    requires Generators(gens, n) && AllResolved(gens, n)
    ensures GroebnerBasis(gens, n)
  {
    hide Generators, AllResolved, HeadAt, HeadBelow, Represents, Irreducible, Canonical, Accessible, Less, Coeff;
    forall p: Poly | Canonical(p, n) && p != [] && InIdeal(Of(p), gens, n) ensures !Irreducible(p[0].mono, gens) {
      var ms: seq<Multiple> :| ValidMultiples(ms, |gens|, n) && Represents(Of(p), gens, ms, n);
      NotNothing(gens, n, p, ms);
      var l := GreatestHead(gens, n, ms);
      var o := SomeRank(l);
      LeadReached(gens, n, p, ms, l, o);
    }
  }
}
