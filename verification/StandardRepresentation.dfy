/** Elements of an ideal as sums of multiples that stay below a monomial: what multivariateDivide leaves
    (src/cas/Groebner.cpp:421-476). */
module StandardRepresentation {
  import opened MonomialOrder
  import opened MultiPoly
  import opened PolyIdeal

  // ----- Multiples below a bound -----

  /** The leading monomial of a multiple lies below `bound`. */
  ghost predicate HeadBelow(gens: seq<Poly>, t: Multiple, n: nat, bound: Mono) {
    && t.index < |gens| && gens[t.index] != [] && |t.mono| == |gens[t.index][0].mono| == |bound| == n
    && Less(Times(t.mono, gens[t.index][0].mono), bound)
  }

  ghost predicate HeadsBelow(gens: seq<Poly>, ms: seq<Multiple>, n: nat, bound: Mono) {
    forall i :: 0 <= i < |ms| ==> HeadBelow(gens, ms[i], n, bound)
  }

  /** `h` is a sum of multiples whose leading monomials all lie below `bound`. */
  ghost predicate Below(h: Mono -> real, gens: seq<Poly>, n: nat, bound: Mono) {
    exists ms: seq<Multiple> :: HeadsBelow(gens, ms, n, bound) && Represents(h, gens, ms, n)
  }

  lemma BelowWitness(h: Mono -> real, gens: seq<Poly>, n: nat, bound: Mono) returns (ms: seq<Multiple>)
    requires Below(h, gens, n, bound)
    ensures HeadsBelow(gens, ms, n, bound) && Represents(h, gens, ms, n)
  {
    ms :| HeadsBelow(gens, ms, n, bound) && Represents(h, gens, ms, n);
  }

  lemma BelowIntro(h: Mono -> real, gens: seq<Poly>, n: nat, bound: Mono, ms: seq<Multiple>)
    requires HeadsBelow(gens, ms, n, bound) && Represents(h, gens, ms, n)
    ensures Below(h, gens, n, bound)
  {
  }

  lemma BelowZero(h: Mono -> real, gens: seq<Poly>, n: nat, bound: Mono)
    requires forall k: Mono :: |k| == n ==> h(k) == 0.0
    ensures Below(h, gens, n, bound)
  {
    BelowIntro(h, gens, n, bound, []);
  }

  lemma BelowEqual(f: Mono -> real, h: Mono -> real, gens: seq<Poly>, n: nat, bound: Mono)
    requires Below(f, gens, n, bound) && forall k: Mono :: |k| == n ==> h(k) == f(k)
    ensures Below(h, gens, n, bound)
  {
    hide HeadsBelow, Below;
    var ms := BelowWitness(f, gens, n, bound);
    BelowIntro(h, gens, n, bound, ms);
  }

  lemma BelowAdd(f: Mono -> real, g: Mono -> real, h: Mono -> real, gens: seq<Poly>, n: nat, bound: Mono)
    requires Below(f, gens, n, bound) && Below(g, gens, n, bound)
    requires forall k: Mono :: |k| == n ==> h(k) == f(k) + g(k)
    ensures Below(h, gens, n, bound)
  {
    hide HeadBelow, Below;
    var xs := BelowWitness(f, gens, n, bound);
    var ys := BelowWitness(g, gens, n, bound);
    forall k: Mono | |k| == n ensures h(k) == SumAt(gens, xs + ys, k) { SumAtConcat(gens, xs, ys, k); }
    BelowIntro(h, gens, n, bound, xs + ys);
  }

  /** A multiple of what lies below a bound lies below the multiple of the bound. */
  lemma BelowTimes(h: Mono -> real, gens: seq<Poly>, n: nat, bound: Mono, c: real, m: Mono)
    requires Below(h, gens, n, bound) && |m| == |bound| == n
    ensures Below(TimesMono(c, m, h), gens, n, Times(m, bound))
  {
    hide Below, SumAt, Less, Divides, Over;
    var ms := BelowWitness(h, gens, n, bound);
    forall i | 0 <= i < |ms| ensures |ms[i].mono| == n { assert HeadBelow(gens, ms[i], n, bound); }
    var r := Multiplied(ms, c, m);
    forall i | 0 <= i < |r| ensures HeadBelow(gens, r[i], n, Times(m, bound)) {
      assert HeadBelow(gens, ms[i], n, bound);
      var lead := gens[ms[i].index][0].mono;
      TimesAssociative(m, ms[i].mono, lead);
      LessTimes(Times(ms[i].mono, lead), bound, m);
    }
    forall k: Mono | |k| == n ensures TimesMono(c, m, h)(k) == SumAt(gens, r, k) { SumAtMultiplied(gens, ms, c, m, k); }
    BelowIntro(TimesMono(c, m, h), gens, n, Times(m, bound), r);
  }

  lemma BelowScale(f: Mono -> real, h: Mono -> real, gens: seq<Poly>, n: nat, bound: Mono, c: real)
    requires Below(f, gens, n, bound) && |bound| == n && forall k: Mono :: |k| == n ==> h(k) == c * f(k)
    ensures Below(h, gens, n, bound)
  {
    hide Below;
    BelowTimes(f, gens, n, bound, c, One(n));
    TimesOne(bound);
    forall k: Mono | |k| == n ensures h(k) == TimesMono(c, One(n), f)(k) { TimesOne(k); }
    BelowEqual(TimesMono(c, One(n), f), h, gens, n, bound);
  }

  /** A single multiple. */
  lemma BelowOne(h: Mono -> real, gens: seq<Poly>, n: nat, bound: Mono, t: Multiple)
    requires HeadBelow(gens, t, n, bound)
    requires forall k: Mono :: |k| == n ==> h(k) == Shift(t.coeff, t.mono, gens[t.index], k)
    ensures Below(h, gens, n, bound)
  {
    hide Shift, Less;
    forall k: Mono | |k| == n ensures h(k) == SumAt(gens, [t], k) {
      assert [t][..0] == [];
      assert SumAt(gens, [], k) == 0.0;
    }
    BelowIntro(h, gens, n, bound, [t]);
  }

  /** h = a * f + b * x^m * g */
  ghost predicate IsLinear(h: Mono -> real, f: Mono -> real, g: Poly, n: nat, a: real, b: real, m: Mono) {
    forall k: Mono :: |k| == n ==> h(k) == a * f(k) + TimesMono(b, m, Of(g))(k)
  }

  lemma BelowLinear(f: Mono -> real, h: Mono -> real, gens: seq<Poly>, n: nat, bound: Mono, a: real, b: real, m: Mono,
                    i: nat)
    requires Below(f, gens, n, bound) && HeadBelow(gens, Multiple(b, m, i), n, bound)
    requires IsLinear(h, f, gens[i], n, a, b, m)
    ensures Below(h, gens, n, bound)
  {
    hide Below, Less, Coeff, Divides, Over;
    var scaled := (k: Mono) => a * f(k);
    var multiple := TimesMono(b, m, Of(gens[i]));
    BelowScale(f, scaled, gens, n, bound, a);
    BelowOne(multiple, gens, n, bound, Multiple(b, m, i));
    BelowAdd(scaled, multiple, h, gens, n, bound);
  }

  lemma {:induction false} SumLonger(gens: seq<Poly>, r: Poly, ms: seq<Multiple>, k: Mono)
    requires forall i :: 0 <= i < |ms| ==> ms[i].index < |gens|
    ensures SumAt(gens + [r], ms, k) == SumAt(gens, ms, k)
  {
    if ms != [] { SumLonger(gens, r, ms[..|ms| - 1], k); }
  }

  /** More generators keep what lies below a bound. */
  lemma BelowLonger(h: Mono -> real, gens: seq<Poly>, n: nat, bound: Mono, r: Poly)
    requires Below(h, gens, n, bound)
    ensures Below(h, gens + [r], n, bound)
  {
    hide Below, SumAt, Less;
    var ms := BelowWitness(h, gens, n, bound);
    forall i | 0 <= i < |ms| ensures HeadBelow(gens + [r], ms[i], n, bound) { assert HeadBelow(gens, ms[i], n, bound); }
    forall k: Mono | |k| == n ensures h(k) == SumAt(gens + [r], ms, k) { SumLonger(gens, r, ms, k); }
    BelowIntro(h, gens + [r], n, bound, ms);
  }

  /** Nothing at the bound or above it. */
  lemma {:induction false} SumVanishes(gens: seq<Poly>, ms: seq<Multiple>, n: nat, bound: Mono, k: Mono)
    requires HeadsBelow(gens, ms, n, bound) && (forall i :: 0 <= i < |gens| ==> Canonical(gens[i], n))
    requires |k| == |bound| == n && (k == bound || Less(bound, k))
    ensures SumAt(gens, ms, k) == 0.0
  {
    hide Coeff, Less, Canonical, Shift;
    if ms != [] {
      var t := ms[|ms| - 1];
      SumVanishes(gens, ms[..|ms| - 1], n, bound, k);
      assert HeadBelow(gens, t, n, bound);
      var head := Times(t.mono, gens[t.index][0].mono);
      if k != bound { LessTransitive(head, bound, k); }
      ShiftAbove(t.coeff, t.mono, gens[t.index], n, k);
    }
  }
}
