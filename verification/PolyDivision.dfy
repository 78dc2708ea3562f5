/** S-polynomials and multivariate pseudo-division (src/cas/Groebner.cpp:406-476). */
module PolyDivision {
  import opened MonomialOrder
  import opened MultiPoly
  import opened PolyIdeal
  import opened StandardRepresentation

  /** How coefficients are kept small: the common content divided out of a remainder pair, and the factor that
      makes a polynomial primitive. Nothing below depends on more than that they are not zero. */
  datatype Scaling = Scaling(content: (Poly, Poly) -> real, primitive: Poly -> real)

  ghost predicate NonZeroScaling(s: Scaling) {
    (forall p, r :: s.content(p, r) != 0.0) && (forall p :: s.primitive(p) != 0.0)
  }

  ghost predicate AllCanonical(gens: seq<Poly>, n: nat) {
    forall i :: 0 <= i < |gens| ==> Canonical(gens[i], n)
  }

  /** No leading monomial of `gens` divides `m`. */
  ghost predicate Irreducible(m: Mono, gens: seq<Poly>) {
    forall i :: 0 <= i < |gens| && gens[i] != [] && |gens[i][0].mono| == |m| ==> !Divides(gens[i][0].mono, m)
  }

  /** No term of `r` is divisible by a leading monomial of `gens`. */
  ghost predicate Reduced(r: Poly, gens: seq<Poly>, n: nat) {
    forall m: Mono :: |m| == n && Coeff(r, m) != 0.0 ==> Irreducible(m, gens)
  }

  /** c * f - p - r */
  ghost function Residue(c: real, f: Poly, p: Poly, r: Poly): Mono -> real {
    k => c * Coeff(f, k) - Coeff(p, k) - Coeff(r, k)
  }

  method MakePrimitive(p: Poly, s: Scaling, n: nat) returns (res: Poly)
    requires Canonical(p, n) && NonZeroScaling(s)
    ensures Canonical(res, n) && forall k :: Coeff(res, k) == s.primitive(p) * Coeff(p, k)
    ensures |res| == |p| && forall i :: 0 <= i < |p| ==> res[i].mono == p[i].mono
  {
    res := ScaleInPlace(p, s.primitive(p), n);
  }

  /** The first generator whose leading monomial divides `m`. */
  method FindDivisor(m: Mono, gens: seq<Poly>, n: nat) returns (i: nat)
    requires AllCanonical(gens, n) && |m| == n
    ensures i <= |gens| && (i < |gens| ==> gens[i] != [] && Divides(gens[i][0].mono, m))
    ensures i == |gens| ==> Irreducible(m, gens)
  {
    i := 0;
    while i < |gens| && (gens[i] == [] || !Divides(gens[i][0].mono, m))
      invariant 0 <= i <= |gens|
      invariant forall j :: 0 <= j < i && gens[j] != [] ==> !Divides(gens[j][0].mono, m)
    {
      i := i + 1;
    }
  }

  // ----- One division step -----

  /** What one step leaves: a * p - b * x^m * g, all times q. */
  ghost predicate Stepped(p: Poly, g: Poly, a: real, b: real, m: Mono, q: real, next: Poly, n: nat)
    requires q != 0.0
  {
    forall k: Mono :: |k| == n ==> Coeff(next, k) == q * (a * Coeff(p, k) - Shift(b, m, g, k))
  }

  /** The remainder is scaled along, by the same `a` and `q`. */
  ghost predicate Rescaled(r: Poly, a: real, q: real, next: Poly, n: nat) {
    forall k: Mono :: |k| == n ==> Coeff(next, k) == q * (a * Coeff(r, k))
  }

  /** The multiple of `g` has the same leading term as the scaled `p`, so everything left is smaller. */
  lemma StepFalls(p: Poly, g: Poly, m: Mono, q: real, next: Poly, n: nat, k: Mono)
    requires Canonical(p, n) && Canonical(g, n) && p != [] && g != [] && q != 0.0
    requires Divides(g[0].mono, p[0].mono) && m == Over(p[0].mono, g[0].mono)
    requires Stepped(p, g, g[0].coeff, p[0].coeff, m, q, next, n)
    requires |k| == n && Coeff(next, k) != 0.0
    ensures Less(k, p[0].mono)
  {
    hide Coeff, Less, Shift, Times, Over, Divides;
    var a, b := g[0].coeff, p[0].coeff;
    TimesOver(g[0].mono, p[0].mono);
    LessTrichotomy(k, p[0].mono);
    var value := q * (a * Coeff(p, k) - Shift(b, m, g, k));
    assert Coeff(next, k) == value;
    if k == p[0].mono {
      CoeffAt(p, n, 0);
      ShiftAtLead(b, m, g, n);
      ZeroStep(q, a, b, Coeff(p, k), Shift(b, m, g, k));
    } else if Less(p[0].mono, k) {
      Above(p, n, k);
      ShiftAbove(b, m, g, n, k);
      ZeroStep(q, a, b, Coeff(p, k), Shift(b, m, g, k));
    }
  }

  lemma ZeroStep(q: real, a: real, b: real, x: real, y: real)
    requires q != 0.0 && ((x == b && y == b * a) || (x == 0.0 && y == 0.0))
    ensures q * (a * x - y) == 0.0
  {
    assert a * x - y == 0.0;
  }

  /** c f - p - r stays in the ideal. */
  lemma StepKeepsResidue(c: real, f: Poly, p: Poly, r: Poly, gens: seq<Poly>, i: nat, a: real, b: real, m: Mono,
                         q: real, p': Poly, r': Poly, n: nat, c': real)
    requires c' == c * a * q && i < |gens| && |m| == n && q != 0.0 && InIdeal(Residue(c, f, p, r), gens, n)
    requires Stepped(p, gens[i], a, b, m, q, p', n)
    requires Rescaled(r, a, q, r', n)
    ensures InIdeal(Residue(c', f, p', r'), gens, n)
  {
    hide *;
    GeneratorInIdeal(gens, i, n);
    var next := Residue(c', f, p', r');
    forall k: Mono | |k| == n
      ensures next(k) == (a * q) * Residue(c, f, p, r)(k) + TimesMono(b * q, m, Of(gens[i]))(k)
    {
      StepAt(c, f, p, r, gens[i], a, b, m, q, p', r', n, k, c');
    }
    IdealLinear(Residue(c, f, p, r), Of(gens[i]), next, gens, n, a * q, b * q, m);
  }

  lemma StepAt(c: real, f: Poly, p: Poly, r: Poly, g: Poly, a: real, b: real, m: Mono, q: real, p': Poly, r': Poly,
               n: nat, k: Mono, c': real)
    requires c' == c * a * q && |m| == |k| == n && q != 0.0 && Stepped(p, g, a, b, m, q, p', n)
    requires Rescaled(r, a, q, r', n)
    ensures Residue(c', f, p', r')(k) == (a * q) * Residue(c, f, p, r)(k) + TimesMono(b * q, m, Of(g))(k)
  {
    hide Coeff, Over, Divides, Shift;
    assert Shift(b, m, g, k) * q == TimesMono(b * q, m, Of(g))(k) by { ShiftIsTimes(b, q, m, g, k); }
    Rearranged(c, a, q, Coeff(f, k), Coeff(p, k), Coeff(r, k), Shift(b, m, g, k));
  }

  lemma ShiftIsTimes(b: real, q: real, m: Mono, g: Poly, k: Mono)
    requires |m| == |k|
    ensures Shift(b, m, g, k) * q == TimesMono(b * q, m, Of(g))(k)
  {
    hide Coeff, Over, Divides;
    if Divides(m, k) { Commute3(b, Coeff(g, Over(k, m)), q); }
  }

  lemma Commute3(x: real, y: real, z: real)
    ensures (x * y) * z == (x * z) * y
  {
  }

  lemma Rearranged(c: real, a: real, q: real, f: real, p: real, r: real, s: real)
    ensures (c * a * q) * f - q * (a * p - s) - q * (a * r) == (a * q) * (c * f - p - r) + s * q
  {
    assert (c * a * q) * f == (a * q) * (c * f);
    assert q * (a * p - s) == (a * q) * p - s * q;
    assert q * (a * r) == (a * q) * r;
    assert (a * q) * (c * f - p - r) == (a * q) * (c * f) - (a * q) * p - (a * q) * r;
  }

  // ----- The division loop -----

  /** Everything in `r` lies above the leading monomial of `p`. */
  ghost predicate AllAbove(r: Poly, p: Poly, n: nat) {
    p != [] ==> forall m: Mono :: |m| == n && Coeff(r, m) != 0.0 ==> |p[0].mono| == n && Less(p[0].mono, m)
  }

  /** What the loop keeps: with the nonzero factor `c`, c * f - p - r lies in the ideal, and `r` is reduced. */
  ghost predicate Dividing(c: real, f: Poly, gens: seq<Poly>, p: Poly, r: Poly, n: nat) {
    && c != 0.0 && Canonical(p, n) && Canonical(r, n)
    && InIdeal(Residue(c, f, p, r), gens, n) && Reduced(r, gens, n) && AllAbove(r, p, n)
  }

  ghost predicate Under(p: Poly, n: nat, bound: Mono) {
    p != [] ==> |p[0].mono| == |bound| == n && Less(p[0].mono, bound)
  }

  /** Nothing above the dividend: below every bound of `f` lie what is left, the remainder and the multiples used. */
  ghost predicate Bounded(c: real, f: Poly, gens: seq<Poly>, p: Poly, r: Poly, n: nat) {
    forall bound: Mono :: |bound| == n && f != [] && Under(f, n, bound) ==>
      Under(p, n, bound) && Under(r, n, bound) && Below(Residue(c, f, p, r), gens, n, bound)
  }

  /** The remainder and the multiples that lead to it stay below every bound of the dividend. */
  ghost predicate StandardRemainder(c: real, f: Poly, gens: seq<Poly>, r: Poly, n: nat) {
    forall bound: Mono :: |bound| == n && f != [] && Under(f, n, bound) ==>
      Under(r, n, bound) && Below(Difference(c, f, r), gens, n, bound)
  }

  /** f is scaled by `c` and reduced to `r` modulo the ideal. */
  ghost predicate Remainder(c: real, f: Poly, gens: seq<Poly>, r: Poly, n: nat) {
    c != 0.0 && InIdeal(Difference(c, f, r), gens, n)
  }

  /** c * f - r */
  ghost function Difference(c: real, f: Poly, r: Poly): Mono -> real {
    k => c * Coeff(f, k) - Coeff(r, k)
  }

  lemma StartDividing(f: Poly, gens: seq<Poly>, n: nat)
    requires Canonical(f, n)
    ensures Dividing(1.0, f, gens, f, [], n) && Bounded(1.0, f, gens, f, [], n)
  {
    IdealZero(Residue(1.0, f, f, []), gens, n);
    forall bound: Mono | |bound| == n && f != [] && Under(f, n, bound)
      ensures Below(Residue(1.0, f, f, []), gens, n, bound)
    {
      BelowZero(Residue(1.0, f, f, []), gens, n, bound);
    }
  }

  lemma DivideStep(c: real, f: Poly, gens: seq<Poly>, p: Poly, r: Poly, n: nat, i: nat, q: real, p': Poly, r': Poly)
    returns (c': real)
    requires Dividing(c, f, gens, p, r, n) && AllCanonical(gens, n) && p != [] && q != 0.0
    requires i < |gens| && gens[i] != [] && Divides(gens[i][0].mono, p[0].mono)
    requires Canonical(p', n) && Canonical(r', n)
    requires Stepped(p, gens[i], gens[i][0].coeff, p[0].coeff, Over(p[0].mono, gens[i][0].mono), q, p', n)
    requires Rescaled(r, gens[i][0].coeff, q, r', n)
    ensures Dividing(c', f, gens, p', r', n) && c' == c * gens[i][0].coeff * q
    ensures p' != [] ==> Less(p'[0].mono, p[0].mono)
  {
    hide Coeff, Less, InIdeal, Divides, Over, Irreducible;
    var g := gens[i];
    var m := Over(p[0].mono, g[0].mono);
    c' := c * g[0].coeff * q;
    StepKeepsResidue(c, f, p, r, gens, i, g[0].coeff, p[0].coeff, m, q, p', r', n, c');
    NonZeroProduct(c, g[0].coeff);
    NonZeroProduct(c * g[0].coeff, q);
    forall k: Mono | |k| == n && Coeff(r', k) != 0.0 ensures Coeff(r, k) != 0.0 {
      NonZeroFactor(q, g[0].coeff, Coeff(r, k));
    }
    if p' != [] {
      CoeffAt(p', n, 0);
      StepFalls(p, g, m, q, p', n, p'[0].mono);
      forall k: Mono | |k| == n && Coeff(r', k) != 0.0 ensures Less(p'[0].mono, k) {
        LessTransitive(p'[0].mono, p[0].mono, k);
      }
    }
    assert AllAbove(r', p', n);
    assert Reduced(r', gens, n);
  }

  lemma NonZeroFactor(q: real, a: real, x: real)
    requires q * (a * x) != 0.0
    ensures x != 0.0
  {
  }

  /** Moving the leading term to the remainder. */
  lemma MoveLead(c: real, f: Poly, gens: seq<Poly>, p: Poly, r: Poly, n: nat, p': Poly)
    requires Dividing(c, f, gens, p, r, n) && p != [] && Irreducible(p[0].mono, gens)
    requires Canonical(p', n) && forall m :: Coeff(p', m) == Coeff(p, m) - Coeff([p[0]], m)
    ensures Dividing(c, f, gens, p', r + [p[0]], n)
    ensures p' != [] ==> Less(p'[0].mono, p[0].mono)
  {
    hide Coeff, Less, InIdeal, Irreducible;
    var r' := r + [p[0]];
    assert [p[0]] == [] + [p[0]];
    forall m ensures Coeff([p[0]], m) == if p[0].mono == m then p[0].coeff else 0.0 {
      CoeffAppend([], p[0], m);
      CoeffAbsent([], m);
    }
    forall m ensures Coeff(r', m) == Coeff(r, m) + (if p[0].mono == m then p[0].coeff else 0.0) {
      CoeffAppend(r, p[0], m);
    }
    forall i | 0 <= i < |r| ensures Less(p[0].mono, r[i].mono) { CoeffAt(r, n, i); }
    IdealEqual(Residue(c, f, p, r), Residue(c, f, p', r'), gens, n);
    if p' != [] {
      var k := p'[0].mono;
      CoeffAt(p', n, 0);
      CoeffAt(p, n, 0);
      LeadIsGreatest(p, n, k);
      assert Less(k, p[0].mono);
      forall m: Mono | |m| == n && Coeff(r', m) != 0.0 ensures Less(k, m) {
        if m != p[0].mono { LessTransitive(k, p[0].mono, m); }
      }
    }
  }

  lemma FinishDividing(c: real, f: Poly, gens: seq<Poly>, r: Poly, n: nat, r': Poly, s: real) returns (c': real)
    requires Dividing(c, f, gens, [], r, n) && s != 0.0 && Canonical(r', n)
    requires forall k: Mono :: |k| == n ==> Coeff(r', k) == s * Coeff(r, k)
    ensures Remainder(c', f, gens, r', n) && Reduced(r', gens, n) && c' == s * c
  {
    hide InIdeal, Irreducible, Coeff;
    c' := s * c;
    NonZeroProduct(s, c);
    var h := Difference(s * c, f, r');
    forall k: Mono | |k| == n ensures h(k) == s * Residue(c, f, [], r)(k) {
      CoeffAbsent([], k);
      FinalScale(s, c, Coeff(f, k), Coeff(r, k));
    }
    IdealScale(Residue(c, f, [], r), h, gens, n, s);
    forall k: Mono | |k| == n && Coeff(r', k) != 0.0 ensures Coeff(r, k) != 0.0 { }
  }

  lemma FinalScale(s: real, c: real, f: real, r: real)
    ensures s * c * f - s * r == s * (c * f - 0.0 - r)
  {
  }

  // ----- Bounds -----

  /** c f - p - r stays below the bound. */
  lemma StepKeepsBelow(c: real, f: Poly, p: Poly, r: Poly, gens: seq<Poly>, i: nat, a: real, b: real, m: Mono, q: real,
                       p': Poly, r': Poly, n: nat, c': real, bound: Mono)
    requires c' == c * a * q && HeadBelow(gens, Multiple(b * q, m, i), n, bound) && q != 0.0
    requires Below(Residue(c, f, p, r), gens, n, bound)
    requires Stepped(p, gens[i], a, b, m, q, p', n)
    requires Rescaled(r, a, q, r', n)
    ensures Below(Residue(c', f, p', r'), gens, n, bound)
  {
    StepIsLinear(c, f, p, r, gens, i, a, b, m, q, p', r', n, c');
    hide *;
    BelowLinear(Residue(c, f, p, r), Residue(c', f, p', r'), gens, n, bound, a * q, b * q, m, i);
  }

  lemma StepIsLinear(c: real, f: Poly, p: Poly, r: Poly, gens: seq<Poly>, i: nat, a: real, b: real, m: Mono, q: real,
                     p': Poly, r': Poly, n: nat, c': real)
    requires c' == c * a * q && i < |gens| && |m| == n && q != 0.0
    requires Stepped(p, gens[i], a, b, m, q, p', n) && Rescaled(r, a, q, r', n)
    ensures IsLinear(Residue(c', f, p', r'), Residue(c, f, p, r), gens[i], n, a * q, b * q, m)
  {
    hide Stepped, Rescaled, Coeff, Over, Divides, Residue, TimesMono;
    var next := Residue(c', f, p', r');
    forall k: Mono | |k| == n
      ensures next(k) == (a * q) * Residue(c, f, p, r)(k) + TimesMono(b * q, m, Of(gens[i]))(k)
    {
      StepAt(c, f, p, r, gens[i], a, b, m, q, p', r', n, k, c');
    }
  }

  lemma RescaledUnder(r: Poly, a: real, q: real, r': Poly, n: nat, bound: Mono)
    requires Canonical(r, n) && Canonical(r', n) && a != 0.0 && q != 0.0 && Rescaled(r, a, q, r', n)
    requires Under(r, n, bound)
    ensures Under(r', n, bound)
  {
    hide Coeff, Less;
    assert q * (a * 0.0) == 0.0;
    if r != [] {
      SameLead(r, a, q, r', n);
    } else if r' != [] {
      CoeffAt(r', n, 0);
      CoeffAbsent([], r'[0].mono);
    }
  }

  lemma StepBounded(c: real, f: Poly, gens: seq<Poly>, p: Poly, r: Poly, n: nat, i: nat, q: real, p': Poly, r': Poly,
                    c': real)
    requires Bounded(c, f, gens, p, r, n) && AllCanonical(gens, n) && Canonical(p, n) && Canonical(r, n) && p != []
    requires q != 0.0
    requires i < |gens| && gens[i] != [] && Divides(gens[i][0].mono, p[0].mono)
    requires Canonical(p', n) && Canonical(r', n) && (p' != [] ==> Less(p'[0].mono, p[0].mono))
    requires Stepped(p, gens[i], gens[i][0].coeff, p[0].coeff, Over(p[0].mono, gens[i][0].mono), q, p', n)
    requires Rescaled(r, gens[i][0].coeff, q, r', n) && c' == c * gens[i][0].coeff * q
    ensures Bounded(c', f, gens, p', r', n)
  {
    hide Coeff, Less, Divides, Over, Below, Stepped, Rescaled;
    var g := gens[i];
    var m := Over(p[0].mono, g[0].mono);
    TimesOver(g[0].mono, p[0].mono);
    forall bound: Mono | |bound| == n && f != [] && Under(f, n, bound)
      ensures Under(p', n, bound) && Under(r', n, bound) && Below(Residue(c', f, p', r'), gens, n, bound)
    {
      assert Under(p, n, bound) && Under(r, n, bound) && Below(Residue(c, f, p, r), gens, n, bound);
      if p' != [] { LessTransitive(p'[0].mono, p[0].mono, bound); }
      RescaledUnder(r, g[0].coeff, q, r', n, bound);
      assert HeadBelow(gens, Multiple(p[0].coeff * q, m, i), n, bound);
      StepKeepsBelow(c, f, p, r, gens, i, g[0].coeff, p[0].coeff, m, q, p', r', n, c', bound);
    }
  }

  lemma MoveBounded(c: real, f: Poly, gens: seq<Poly>, p: Poly, r: Poly, n: nat, p': Poly)
    requires Bounded(c, f, gens, p, r, n) && Canonical(p, n) && p != [] && Canonical(p', n)
    requires (p' != [] ==> Less(p'[0].mono, p[0].mono)) && forall m :: Coeff(p', m) == Coeff(p, m) - Coeff([p[0]], m)
    ensures Bounded(c, f, gens, p', r + [p[0]], n)
  {
    hide Coeff, Less, Below;
    var r' := r + [p[0]];
    assert [p[0]] == [] + [p[0]];
    forall k: Mono | |k| == n ensures Residue(c, f, p', r')(k) == Residue(c, f, p, r)(k) {
      CoeffAppend([], p[0], k);
      CoeffAbsent([], k);
      CoeffAppend(r, p[0], k);
    }
    forall bound: Mono | |bound| == n && f != [] && Under(f, n, bound)
      ensures Under(p', n, bound) && Under(r', n, bound) && Below(Residue(c, f, p', r'), gens, n, bound)
    {
      assert Under(p, n, bound) && Under(r, n, bound) && Below(Residue(c, f, p, r), gens, n, bound);
      if p' != [] { LessTransitive(p'[0].mono, p[0].mono, bound); }
      BelowEqual(Residue(c, f, p, r), Residue(c, f, p', r'), gens, n, bound);
    }
  }

  lemma FinishBounded(c: real, f: Poly, gens: seq<Poly>, r: Poly, n: nat, r': Poly, s: real)
    requires Bounded(c, f, gens, [], r, n) && s != 0.0 && Canonical(r, n) && Canonical(r', n)
    requires forall k: Mono :: |k| == n ==> Coeff(r', k) == s * Coeff(r, k)
    ensures StandardRemainder(s * c, f, gens, r', n)
  {
    hide Coeff, Less, Below;
    var h := Difference(s * c, f, r');
    forall k: Mono | |k| == n ensures h(k) == s * Residue(c, f, [], r)(k) {
      CoeffAbsent([], k);
      FinalScale(s, c, Coeff(f, k), Coeff(r, k));
    }
    forall bound: Mono | |bound| == n && f != [] && Under(f, n, bound)
      ensures Under(r', n, bound) && Below(h, gens, n, bound)
    {
      assert Under(r, n, bound) && Below(Residue(c, f, [], r), gens, n, bound);
      RescaledUnder(r, 1.0, s, r', n, bound);
      BelowScale(Residue(c, f, [], r), h, gens, n, bound, s);
    }
  }

  /** Cancels the leading term of `p` with a multiple of `g`, scales `r` along, and divides both by their content. */
  method Cancel(p: Poly, r: Poly, g: Poly, s: Scaling, n: nat) returns (p': Poly, r': Poly, ghost q: real)
    requires Canonical(p, n) && Canonical(r, n) && Canonical(g, n) && NonZeroScaling(s)
    requires p != [] && g != [] && Divides(g[0].mono, p[0].mono)
    ensures Canonical(p', n) && Canonical(r', n) && q != 0.0
    ensures Stepped(p, g, g[0].coeff, p[0].coeff, Over(p[0].mono, g[0].mono), q, p', n)
    ensures Rescaled(r, g[0].coeff, q, r', n)
  {
    hide Coeff, Less, Divides, Stepped, Rescaled, Shift;
    var m := Over(p[0].mono, g[0].mono);
    var scaled := TimesTerm(p, g[0].coeff, One(n), n);
    var multiple := TimesTerm(g, p[0].coeff, m, n);
    var next := Subtract(scaled, multiple, n);
    var rest := TimesTerm(r, g[0].coeff, One(n), n);
    var factor := 1.0 / s.content(next, rest);
    ReciprocalNonZero(s.content(next, rest));
    p' := ScaleInPlace(next, factor, n);
    r' := ScaleInPlace(rest, factor, n);
    q := factor;
    ScaledStep(p, g, p[0].coeff, m, q, scaled, multiple, next, p', n);
    ScaledRemainder(r, g[0].coeff, q, rest, r', n);
  }

  /** multivariateDivide: terminates for every input, because the leading monomial of `p` falls. */
  method Divide(f: Poly, gens: seq<Poly>, s: Scaling, n: nat) returns (r: Poly, ghost c: real)
    requires Canonical(f, n) && AllCanonical(gens, n) && NonZeroScaling(s)
    ensures Canonical(r, n) && Remainder(c, f, gens, r, n) && Reduced(r, gens, n) && StandardRemainder(c, f, gens, r, n)
    ensures f != [] && Irreducible(f[0].mono, gens) ==> r != [] && r[0].mono == f[0].mono
  {
    hide Coeff, Less, InIdeal, Divides, Over, Irreducible, Dividing, Reduced, Remainder, Accessible, Stepped, Rescaled;
    hide Bounded, StandardRemainder;
    var p := f;
    r, c := [], 1.0;
    StartDividing(f, gens, n);
    ghost var o: ORDINAL := 0;
    if p != [] {
      o := SomeRank(p[0].mono);
    }
    while p != []
      invariant Dividing(c, f, gens, p, r, n) && Bounded(c, f, gens, p, r, n) && Canonical(p, n) && Canonical(r, n)
      invariant p != [] ==> Accessible#[o](p[0].mono)
      invariant f != [] && Irreducible(f[0].mono, gens) ==> (p == f && r == []) || (r != [] && r[0].mono == f[0].mono)
      decreases p != [], o
    {
      var lead := p[0];
      var i := FindDivisor(lead.mono, gens, n);
      ghost var before := p;
      if i < |gens| {
        var g := gens[i];
        var p', r', q := Cancel(p, r, g, s, n);
        ghost var c' := DivideStep(c, f, gens, p, r, n, i, q, p', r');
        StepBounded(c, f, gens, p, r, n, i, q, p', r', c');
        c := c';
        DividesRefutes(gens, i, lead.mono);
        if r != [] {
          SameLead(r, g[0].coeff, q, r', n);
        }
        p, r := p', r';
        DividingCanonical(c, f, gens, p, r, n);
      } else {
        var leadPoly := [lead];
        SingleCanonical(lead, n, p);
        var p' := Subtract(p, leadPoly, n);
        MoveLead(c, f, gens, p, r, n, p');
        MoveBounded(c, f, gens, p, r, n, p');
        r := r + [lead];
        p := p';
        DividingCanonical(c, f, gens, p, r, n);
      }
      if p != [] {
        o := StepDown(before[0].mono, o, p[0].mono);
      }
    }
    var cleaned := CleanAndSort(r, n);
    ghost var factor := s.primitive(cleaned);
    var final := MakePrimitive(cleaned, s, n);
    CanonicalUnique(cleaned, r, n);
    FinishBounded(c, f, gens, r, n, final, factor);
    c := FinishDividing(c, f, gens, r, n, final, factor);
    r := final;
  }

  lemma DividesRefutes(gens: seq<Poly>, i: nat, m: Mono)
    requires i < |gens| && gens[i] != [] && |gens[i][0].mono| == |m| && Divides(gens[i][0].mono, m)
    ensures !Irreducible(m, gens)
  {
  }

  /** Scaling keeps the leading monomial. */
  lemma SameLead(r: Poly, a: real, q: real, r': Poly, n: nat)
    requires Canonical(r, n) && Canonical(r', n) && r != [] && a != 0.0 && q != 0.0 && Rescaled(r, a, q, r', n)
    ensures r' != [] && r'[0].mono == r[0].mono
  {
    hide Coeff, Less;
    CoeffAt(r, n, 0);
    NonZeroProduct(a, r[0].coeff);
    NonZeroProduct(q, a * r[0].coeff);
    forall k: Mono | |k| == n && Less(r[0].mono, k) ensures Coeff(r', k) == 0.0 {
      Above(r, n, k);
      assert q * (a * 0.0) == 0.0;
    }
    LeadIs(r', n, r[0].mono);
  }

  lemma SomeRank(m: Mono) returns (o: ORDINAL)
    ensures Accessible#[o](m)
  {
    AllAccessible(m);
    o :| Accessible#[o](m);
  }

  lemma ReciprocalNonZero(h: real)
    requires h != 0.0
    ensures 1.0 / h != 0.0
  {
    assert h * (1.0 / h) == 1.0;
  }

  lemma DividingCanonical(c: real, f: Poly, gens: seq<Poly>, p: Poly, r: Poly, n: nat)
    requires Dividing(c, f, gens, p, r, n)
    ensures Canonical(p, n) && Canonical(r, n)
  {
  }

  lemma SingleCanonical(t: Term, n: nat, p: Poly)
    requires Canonical(p, n) && p != [] && t == p[0]
    ensures Canonical([t], n)
  {
  }

  lemma ShiftOne(c: real, p: Poly, n: nat, k: Mono)
    requires |k| == n
    ensures Shift(c, One(n), p, k) == c * Coeff(p, k)
  {
    TimesOne(k);
  }

  lemma ScaledStep(p: Poly, g: Poly, b: real, m: Mono, q: real, scaled: Poly, multiple: Poly, next: Poly, p': Poly,
                   n: nat)
    requires g != [] && |m| == n && q != 0.0
    requires forall k: Mono :: |k| == n ==> Coeff(scaled, k) == Shift(g[0].coeff, One(n), p, k)
    requires forall k: Mono :: |k| == n ==> Coeff(multiple, k) == Shift(b, m, g, k)
    requires forall k :: Coeff(next, k) == Coeff(scaled, k) - Coeff(multiple, k)
    requires forall k :: Coeff(p', k) == q * Coeff(next, k)
    ensures Stepped(p, g, g[0].coeff, b, m, q, p', n)
  {
    hide Coeff, Shift;
    forall k: Mono | |k| == n ensures Coeff(p', k) == q * (g[0].coeff * Coeff(p, k) - Shift(b, m, g, k)) {
      ShiftOne(g[0].coeff, p, n, k);
    }
  }

  lemma ScaledRemainder(r: Poly, a: real, q: real, rest: Poly, r': Poly, n: nat)
    requires forall k: Mono :: |k| == n ==> Coeff(rest, k) == Shift(a, One(n), r, k)
    requires forall k :: Coeff(r', k) == q * Coeff(rest, k)
    ensures Rescaled(r, a, q, r', n)
  {
    hide Coeff, Shift;
    forall k: Mono | |k| == n ensures Coeff(r', k) == q * (a * Coeff(r, k)) {
      ShiftOne(a, r, n, k);
    }
  }
}
