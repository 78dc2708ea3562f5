/** Exact division of multivariate polynomials (src/cas/Groebner.cpp:350-383). */
module PolyExactDivision {
  import opened MonomialOrder
  import opened MultiPoly
  import opened PolyDivision

  /** `Fallback` is the hand-over to the symbolic division routine. */
  datatype Outcome = DivisionByZero | Exact(quotient: Poly) | Fallback

  const MAX_TERMS := 10000

  /** The coefficient at `k` of the product of two polynomials. */
  ghost function ProductAt(q: Poly, d: Poly, k: Mono): real {
    if q == [] then 0.0 else
      var t := q[|q| - 1];
      ProductAt(q[..|q| - 1], d, k) + Shift(t.coeff, t.mono, d, k)
  }

  /** p = q * d */
  ghost predicate IsProduct(p: Poly, q: Poly, d: Poly, n: nat) {
    forall k: Mono :: |k| == n ==> Coeff(p, k) == ProductAt(q, d, k)
  }

  /** r = p - q * d */
  ghost predicate LeftOver(p: Poly, q: Poly, d: Poly, r: Poly, n: nat) {
    forall k: Mono :: |k| == n ==> Coeff(r, k) == Coeff(p, k) - ProductAt(q, d, k)
  }

  lemma ProductAppend(q: Poly, t: Term, d: Poly, k: Mono)
    ensures ProductAt(q + [t], d, k) == ProductAt(q, d, k) + Shift(t.coeff, t.mono, d, k)
  {
    assert (q + [t])[..|q|] == q;
  }

  lemma {:induction false} ProductConcat(q: Poly, s: Poly, d: Poly, k: Mono)
    ensures ProductAt(q + s, d, k) == ProductAt(q, d, k) + ProductAt(s, d, k)
  {
    hide Shift;
    if s == [] {
      assert q + s == q;
    } else {
      assert (q + s)[..|q + s| - 1] == q + s[..|s| - 1];
      ProductConcat(q, s[..|s| - 1], d, k);
    }
  }

  /** A product has nothing above the product of the leading monomials. */
  lemma {:induction false} ProductAbove(q: Poly, d: Poly, n: nat, m: Mono, k: Mono)
    requires InVars(q, n) && Canonical(d, n) && d != [] && |m| == |k| == n
    requires forall i :: 0 <= i < |q| ==> !Less(m, q[i].mono)
    requires Less(Times(m, d[0].mono), k)
    ensures ProductAt(q, d, k) == 0.0
  {
    hide Coeff, Less, Shift, Times;
    if q != [] {
      var t := q[|q| - 1];
      ProductAbove(q[..|q| - 1], d, n, m, k);
      LessTimes(t.mono, m, d[0].mono);
      TimesOver(m, d[0].mono);
      TimesOver(t.mono, d[0].mono);
      LessTrichotomy(t.mono, m);
      if t.mono != m {
        LessTransitive(Times(t.mono, d[0].mono), Times(m, d[0].mono), k);
      }
      ShiftAbove(t.coeff, t.mono, d, n, k);
    }
  }

  /** The terms of the quotient after the first contribute nothing to the leading coefficient. */
  lemma TailContribution(q: Poly, d: Poly, n: nat)
    requires Canonical(q, n) && q != [] && Canonical(d, n) && d != []
    ensures ProductAt(q[1..], d, Times(q[0].mono, d[0].mono)) == 0.0
  {
    hide Coeff, Shift, Times, ProductAt;
    if |q| == 1 {
      NoProduct(q[1..], d, Times(q[0].mono, d[0].mono));
    } else {
      var m := q[1].mono;
      LessTimes(m, q[0].mono, d[0].mono);
      TimesOver(m, d[0].mono);
      TimesOver(q[0].mono, d[0].mono);
      TailBelowSecond(q, n);
      ProductAbove(q[1..], d, n, m, Times(q[0].mono, d[0].mono));
    }
  }

  lemma NoProduct(q: Poly, d: Poly, k: Mono)
    requires q == []
    ensures ProductAt(q, d, k) == 0.0
  {
  }

  lemma TailBelowSecond(q: Poly, n: nat)
    requires Canonical(q, n) && |q| > 1
    ensures InVars(q[1..], n) && forall i :: 0 <= i < |q[1..]| ==> !Less(q[1].mono, q[1..][i].mono)
  {
    hide Less;
    forall i | 0 <= i < |q[1..]| ensures !Less(q[1].mono, q[1..][i].mono) {
      assert q[1..][i] == q[i + 1];
      LessTrichotomy(q[1].mono, q[i + 1].mono);
    }
  }

  /** The leading coefficient of a product. */
  lemma ProductAtLead(q: Poly, d: Poly, n: nat)
    requires Canonical(q, n) && q != [] && Canonical(d, n) && d != []
    ensures ProductAt(q, d, Times(q[0].mono, d[0].mono)) == q[0].coeff * d[0].coeff
    ensures q[0].coeff * d[0].coeff != 0.0
  {
    hide Coeff, Shift, Times, ProductAt, Less;
    var lead := Times(q[0].mono, d[0].mono);
    NonZeroProduct(q[0].coeff, d[0].coeff);
    ShiftAtLead(q[0].coeff, q[0].mono, d, n);
    assert q == [q[0]] + q[1..];
    ProductConcat([q[0]], q[1..], d, lead);
    assert [q[0]] == [] + [q[0]];
    ProductAppend([], q[0], d, lead);
    NoProduct([], d, lead);
    TailContribution(q, d, n);
  }

  /** If `p` is a multiple of `d`, so is its leading term; the quotient's first term is determined. */
  lemma FirstTerm(r: Poly, s: Poly, d: Poly, n: nat)
    requires Canonical(r, n) && Canonical(s, n) && s != [] && Canonical(d, n) && d != [] && IsProduct(r, s, d, n)
    ensures r != [] && Divides(d[0].mono, r[0].mono)
    ensures s[0].mono == Over(r[0].mono, d[0].mono) && s[0].coeff == r[0].coeff / d[0].coeff
  {
    hide Coeff, Less, ProductAt;
    var lead := Times(s[0].mono, d[0].mono);
    ProductAtLead(s, d, n);
    forall k: Mono | |k| == n && Less(lead, k) ensures Coeff(r, k) == 0.0 {
      forall i | 0 <= i < |s| ensures !Less(s[0].mono, s[i].mono) { LessTrichotomy(s[0].mono, s[i].mono); }
      ProductAbove(s, d, n, s[0].mono, k);
    }
    LeadIs(r, n, lead);
    TimesOver(s[0].mono, d[0].mono);
    TimesOver(d[0].mono, s[0].mono);
    Quotient(s[0].coeff, d[0].coeff);
  }

  lemma Quotient(x: real, y: real)
    requires y != 0.0
    ensures (x * y) / y == x
  {
  }

  ghost predicate IsQuotient(p: Poly, s: Poly, d: Poly, n: nat) {
    Canonical(s, n) && |s| <= MAX_TERMS && IsProduct(p, s, d, n)
  }

  /** Every quotient starts with what has been found so far. */
  ghost predicate Prefix(p: Poly, q: Poly, d: Poly, n: nat) {
    forall s: Poly :: IsQuotient(p, s, d, n) ==> q <= s
  }

  lemma RestIsProduct(p: Poly, q: Poly, s: Poly, d: Poly, r: Poly, n: nat)
    requires LeftOver(p, q, d, r, n) && IsQuotient(p, s, d, n) && q <= s
    ensures IsProduct(r, s[|q|..], d, n) && Canonical(s[|q|..], n)
  {
    hide Coeff, ProductAt, Less;
    assert s == q + s[|q|..];
    forall k: Mono | |k| == n ensures Coeff(r, k) == ProductAt(s[|q|..], d, k) {
      ProductConcat(q, s[|q|..], d, k);
    }
  }

  /** With something left over, the next term of every quotient is the one the loop computes. */
  lemma NextTerm(p: Poly, q: Poly, d: Poly, r: Poly, n: nat, s: Poly)
    requires Canonical(r, n) && r != [] && Canonical(d, n) && d != [] && LeftOver(p, q, d, r, n)
    requires IsQuotient(p, s, d, n) && q <= s
    ensures Divides(d[0].mono, r[0].mono) && |q| < |s|
    ensures s[|q|] == Term(r[0].coeff / d[0].coeff, Over(r[0].mono, d[0].mono))
  {
    hide Coeff, ProductAt, Less, Divides, Over, LeftOver, IsProduct;
    RestIsProduct(p, q, s, d, r, n);
    if |q| == |s| {
      ProductOfNothing(r, s[|q|..], d, n);
      assert false;
    } else {
      FirstTerm(r, s[|q|..], d, n);
    }
  }

  lemma ProductOfNothing(r: Poly, s: Poly, d: Poly, n: nat)
    requires Canonical(r, n) && IsProduct(r, s, d, n) && s == []
    ensures r == []
  {
    hide Coeff, Less;
    if r != [] {
      CoeffAt(r, n, 0);
    }
  }

  /** With nothing left over, the quotient found is the only one. */
  lemma OnlyQuotient(p: Poly, q: Poly, d: Poly, n: nat, s: Poly)
    requires Canonical(d, n) && d != [] && LeftOver(p, q, d, [], n) && IsQuotient(p, s, d, n) && q <= s
    ensures s == q
  {
    hide Coeff, ProductAt, Less, LeftOver, IsProduct;
    RestIsProduct(p, q, s, d, [], n);
    if |q| < |s| {
      FirstTerm([], s[|q|..], d, n);
    }
  }

  /** The step of the loop. */
  lemma StepLeft(p: Poly, q: Poly, d: Poly, r: Poly, n: nat, t: Term, multiple: Poly, r': Poly)
    requires Canonical(r, n) && r != [] && Canonical(d, n) && d != [] && Divides(d[0].mono, r[0].mono)
    requires LeftOver(p, q, d, r, n) && t == Term(r[0].coeff / d[0].coeff, Over(r[0].mono, d[0].mono))
    requires forall k: Mono :: |k| == n ==> Coeff(multiple, k) == Shift(t.coeff, t.mono, d, k)
    requires Canonical(r', n) && forall k :: Coeff(r', k) == Coeff(r, k) - Coeff(multiple, k)
    ensures LeftOver(p, q + [t], d, r', n) && t.coeff != 0.0 && Times(t.mono, d[0].mono) == r[0].mono
    ensures r' != [] ==> Less(r'[0].mono, r[0].mono)
  {
    hide Coeff, ProductAt, Less, Divides, Over, Times, Shift;
    forall k: Mono | |k| == n ensures Coeff(r', k) == Coeff(p, k) - ProductAt(q + [t], d, k) {
      ProductAppend(q, t, d, k);
    }
    TimesOver(d[0].mono, r[0].mono);
    QuotientNonZero(r[0].coeff, d[0].coeff);
    if r' != [] {
      CoeffAt(r', n, 0);
      var k := r'[0].mono;
      LessTrichotomy(k, r[0].mono);
      if k == r[0].mono {
        CoeffAt(r, n, 0);
        ShiftAtLead(t.coeff, t.mono, d, n);
        assert false;
      } else if Less(r[0].mono, k) {
        Above(r, n, k);
        ShiftAbove(t.coeff, t.mono, d, n, k);
        assert false;
      }
    }
  }

  lemma QuotientNonZero(x: real, y: real)
    requires x != 0.0 && y != 0.0
    ensures x / y != 0.0 && (x / y) * y == x
  {
  }

  /** The quotient so far descends, and its last term stays above the next one. */
  ghost predicate Descending(q: Poly, d: Poly, r: Poly, n: nat) {
    && Canonical(q, n) && Canonical(r, n) && Canonical(d, n)
    && (q != [] && r != [] && d != [] ==> Less(r[0].mono, Times(q[|q| - 1].mono, d[0].mono)))
  }

  lemma StepDescends(q: Poly, d: Poly, r: Poly, n: nat, t: Term, r': Poly)
    requires Descending(q, d, r, n) && r != [] && d != [] && |t.mono| == n && t.coeff != 0.0
    requires Times(t.mono, d[0].mono) == r[0].mono && Canonical(r', n) && (r' != [] ==> Less(r'[0].mono, r[0].mono))
    ensures Descending(q + [t], d, r', n)
  {
    hide Coeff, Less, Times;
    if q != [] {
      var last := q[|q| - 1].mono;
      TimesOver(t.mono, d[0].mono);
      TimesOver(last, d[0].mono);
      LessTimes(t.mono, last, d[0].mono);
      LessTrichotomy(t.mono, last);
    }
    AppendSmaller(q, t, n);
  }

  /** Division by a constant. */
  lemma {:induction false} TimesConstant(q: Poly, d: Poly, n: nat, k: Mono)
    requires InVars(q, n) && |d| == 1 && d[0].mono == One(n) && |k| == n
    ensures ProductAt(q, d, k) == d[0].coeff * Coeff(q, k)
  {
    hide Over, Divides;
    if q != [] {
      var t := q[|q| - 1];
      TimesConstant(q[..|q| - 1], d, n, k);
      ConstantShift(t, d, n, k);
      Distribute(d[0].coeff, Coeff(q[..|q| - 1], k), if t.mono == k then t.coeff else 0.0);
    }
  }

  lemma ConstantShift(t: Term, d: Poly, n: nat, k: Mono)
    requires |t.mono| == |k| == n && |d| == 1 && d[0].mono == One(n)
    ensures Shift(t.coeff, t.mono, d, k) == d[0].coeff * if t.mono == k then t.coeff else 0.0
  {
    hide Coeff;
    TimesOne(t.mono);
    assert d == [] + [d[0]];
    if Divides(t.mono, k) {
      TimesOver(t.mono, k);
      CoeffAppend([], d[0], Over(k, t.mono));
      CoeffAbsent([], Over(k, t.mono));
      if Over(k, t.mono) == One(n) { assert k == t.mono; }
      if k == t.mono { assert Over(k, t.mono) == One(n); }
    } else {
      assert t.mono != k;
    }
  }

  method ExactDivide(p: Poly, d: Poly, n: nat) returns (res: Outcome)
    requires Canonical(p, n) && Canonical(d, n)
    ensures res.DivisionByZero? <==> d == []
    ensures res.Exact? ==> Canonical(res.quotient, n) && IsProduct(p, res.quotient, d, n)
    ensures d != [] ==> forall s: Poly :: IsQuotient(p, s, d, n) ==> res == Exact(s)
  {
    hide Coeff, Less, ProductAt, LeftOver, IsProduct, Descending, Divides, Over, Times, Shift, IsQuotient, Prefix;
    if d == [] {
      return DivisionByZero;
    }
    if p == [] {
      ZeroDividend(d, n);
      return Exact([]);
    }
    if |d| == 1 && d[0].mono == One(n) {
      var scaled := ScaleInPlace(p, 1.0 / d[0].coeff, n);
      var q := CleanAndSort(scaled, n);
      ConstantQuotient(p, d, n, q);
      return Exact(q);
    }
    var q, r := [], p;
    StartLeft(p, d, n);
    var iter := 0;
    while r != []
      invariant Canonical(q, n) && Canonical(r, n) && |q| == iter <= MAX_TERMS
      invariant LeftOver(p, q, d, r, n) && Descending(q, d, r, n) && Prefix(p, q, d, n)
      decreases MAX_TERMS - iter
    {
      iter := iter + 1;
      if iter > MAX_TERMS || !Divides(d[0].mono, r[0].mono) {
        NoQuotient(p, q, d, r, n);
        return Fallback;
      }
      var t := Term(r[0].coeff / d[0].coeff, Over(r[0].mono, d[0].mono));
      var multiple := TimesTerm(d, t.coeff, t.mono, n);
      var next := Subtract(r, multiple, n);
      StepLeft(p, q, d, r, n, t, multiple, next);
      StepDescends(q, d, r, n, t, next);
      PrefixNext(p, q, d, r, n, t);
      DescendingCanonical(q + [t], d, next, n);
      q := q + [t];
      r := next;
    }
    LeftNothing(p, q, d, n);
    return Exact(q);
  }

  lemma DescendingCanonical(q: Poly, d: Poly, r: Poly, n: nat)
    requires Descending(q, d, r, n)
    ensures Canonical(q, n)
  {
  }

  lemma ZeroDividend(d: Poly, n: nat)
    requires Canonical(d, n) && d != []
    ensures IsProduct([], [], d, n)
    ensures forall s: Poly :: IsQuotient([], s, d, n) ==> s == []
  {
    hide Less;
    forall s: Poly | IsQuotient([], s, d, n) ensures s == [] {
      if s != [] {
        FirstTerm([], s, d, n);
      }
    }
  }

  lemma StartLeft(p: Poly, d: Poly, n: nat)
    requires Canonical(p, n) && Canonical(d, n)
    ensures LeftOver(p, [], d, p, n) && Descending([], d, p, n) && Prefix(p, [], d, n)
  {
    hide Less, Coeff;
  }

  lemma NoQuotient(p: Poly, q: Poly, d: Poly, r: Poly, n: nat)
    requires Canonical(r, n) && r != [] && Canonical(d, n) && d != [] && LeftOver(p, q, d, r, n) && Prefix(p, q, d, n)
    requires |q| >= MAX_TERMS || !Divides(d[0].mono, r[0].mono)
    ensures forall s: Poly :: !IsQuotient(p, s, d, n)
  {
    hide Less, Coeff, IsProduct, LeftOver, Divides, Over;
    forall s: Poly ensures !IsQuotient(p, s, d, n) {
      if IsQuotient(p, s, d, n) {
        NextTerm(p, q, d, r, n, s);
      }
    }
  }

  lemma PrefixNext(p: Poly, q: Poly, d: Poly, r: Poly, n: nat, t: Term)
    requires Canonical(r, n) && r != [] && Canonical(d, n) && d != [] && LeftOver(p, q, d, r, n) && Prefix(p, q, d, n)
    requires t == Term(r[0].coeff / d[0].coeff, Over(r[0].mono, d[0].mono))
    ensures Prefix(p, q + [t], d, n)
  {
    hide Less, Coeff, IsProduct, LeftOver, Divides, Over;
    forall s: Poly | IsQuotient(p, s, d, n) ensures q + [t] <= s {
      NextTerm(p, q, d, r, n, s);
    }
  }

  lemma LeftNothing(p: Poly, q: Poly, d: Poly, n: nat)
    requires Canonical(d, n) && d != [] && LeftOver(p, q, d, [], n) && Prefix(p, q, d, n)
    ensures IsProduct(p, q, d, n) && forall s: Poly :: IsQuotient(p, s, d, n) ==> s == q
  {
    hide Less, Coeff, ProductAt;
    forall k: Mono | |k| == n ensures Coeff(p, k) == ProductAt(q, d, k) {
      CoeffAbsent([], k);
    }
    forall s: Poly | IsQuotient(p, s, d, n) ensures s == q {
      OnlyQuotient(p, q, d, n, s);
    }
  }

  lemma ConstantQuotient(p: Poly, d: Poly, n: nat, q: Poly)
    requires Canonical(p, n) && Canonical(d, n) && |d| == 1 && d[0].mono == One(n) && Canonical(q, n)
    requires forall k :: Coeff(q, k) == (1.0 / d[0].coeff) * Coeff(p, k)
    ensures IsProduct(p, q, d, n) && forall s: Poly :: IsQuotient(p, s, d, n) ==> s == q
  {
    hide Less, Coeff, ProductAt;
    var c := d[0].coeff;
    forall k: Mono | |k| == n ensures Coeff(p, k) == ProductAt(q, d, k) {
      TimesConstant(q, d, n, k);
      Undone(c, Coeff(p, k), 1.0 / c);
    }
    forall s: Poly | IsQuotient(p, s, d, n) ensures s == q {
      forall k: Mono | |k| == n ensures Coeff(s, k) == Coeff(q, k) {
        TimesConstant(s, d, n, k);
        Undone(c, Coeff(s, k), 1.0 / c);
      }
      CanonicalUnique(s, q, n);
    }
  }

  lemma Undone(c: real, x: real, y: real)
    requires c != 0.0 && y == 1.0 / c
    ensures c * (y * x) == x && y * (c * x) == x
  {
    assert c * y == 1.0;
    assert c * (y * x) == (c * y) * x;
  }
}
