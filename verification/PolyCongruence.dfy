/** Integer polynomials modulo a number and a polynomial: the setting of Z_p[x] / (m). */
module PolyCongruence {
  import opened IntegerGcd
  import opened IntPoly

  /** a + x * b */
  ghost function Add(a: Poly, x: int, b: Poly): (r: Poly)
    ensures Combines(r, a, x, 0, b)
  {
    var n := if |a| > |b| then |a| else |b|;
    seq(n, k => At(a, k) + x * At(b, k))
  }

  /** Every coefficient is a multiple of `p`. */
  ghost predicate ZeroMod(a: Poly, p: int) {
    forall k :: Divides(p, At(a, k))
  }

  lemma ZeroFromEntries(d: Poly, p: int)
    requires forall k :: 0 <= k < |d| ==> Divides(p, d[k])
    ensures ZeroMod(d, p)
  {
    hide Divides;
    DividesSelf(p);
  }

  ghost function Rest(a: Poly, b: Poly, q: Poly, m: Poly): Poly {
    Add(Add(a, -1, b), -1, Times(q, m))
  }

  lemma RestAt(a: Poly, b: Poly, q: Poly, m: Poly, k: int)
    ensures At(Rest(a, b, q, m), k) == At(a, k) - At(b, k) - Conv(q, m, k)
  {
    hide Conv, At;
    TimesAt(q, m);
    assert At(Rest(a, b, q, m), k) == At(Add(a, -1, b), k) + -1 * At(Times(q, m), k - 0);
    assert At(Add(a, -1, b), k) == At(a, k) + -1 * At(b, k - 0);
  }

  /** a and b agree modulo `p` and modulo a multiple of `m`. */
  ghost predicate Cong(a: Poly, b: Poly, m: Poly, p: int) {
    exists q :: ZeroMod(Rest(a, b, q, m), p)
  }

  /** a and b agree modulo `p`, coefficient by coefficient. */
  ghost predicate EqMod(a: Poly, b: Poly, p: int) {
    forall k :: Divides(p, At(a, k) - At(b, k))
  }

  /** `g` divides `a` modulo `p`. */
  ghost predicate ModDividesPoly(g: Poly, a: Poly, p: int) {
    Cong(a, [], g, p)
  }

  lemma CongIntro(a: Poly, b: Poly, q: Poly, m: Poly, p: int)
    requires forall k :: Divides(p, At(a, k) - At(b, k) - Conv(q, m, k))
    ensures Cong(a, b, m, p)
  {
    hide Conv, At, Rest, Divides;
    forall k ensures Divides(p, At(Rest(a, b, q, m), k)) { RestAt(a, b, q, m, k); }
    assert ZeroMod(Rest(a, b, q, m), p);
  }

  lemma CongElim(a: Poly, b: Poly, m: Poly, p: int) returns (q: Poly)
    requires Cong(a, b, m, p)
    ensures forall k :: Divides(p, At(a, k) - At(b, k) - Conv(q, m, k))
  {
    hide Conv, At, Rest, Divides;
    q :| ZeroMod(Rest(a, b, q, m), p);
    forall k ensures Divides(p, At(a, k) - At(b, k) - Conv(q, m, k)) { RestAt(a, b, q, m, k); }
  }

  lemma NoConv(m: Poly, k: int)
    ensures Conv([], m, k) == 0
  {
  }

  lemma EqModCong(a: Poly, b: Poly, m: Poly, p: int)
    requires EqMod(a, b, p)
    ensures Cong(a, b, m, p)
  {
    hide Conv, At, Divides;
    forall k ensures Divides(p, At(a, k) - At(b, k) - Conv([], m, k)) { NoConv(m, k); }
    CongIntro(a, b, [], m, p);
  }

  lemma SameEqMod(a: Poly, b: Poly, p: int)
    requires Same(a, b)
    ensures EqMod(a, b, p)
  {
    hide At;
    forall k ensures Divides(p, At(a, k) - At(b, k)) { DividesSelf(p); }
  }

  lemma CongReflexive(a: Poly, m: Poly, p: int)
    ensures Cong(a, a, m, p)
  {
    hide Cong;
    SameEqMod(a, a, p);
    EqModCong(a, a, m, p);
  }

  lemma CongSymmetric(a: Poly, b: Poly, m: Poly, p: int)
    requires Cong(a, b, m, p)
    ensures Cong(b, a, m, p)
  {
    hide Conv, At, Divides, Cong;
    var q := CongElim(a, b, m, p);
    var r := Add([], -1, q);
    forall k ensures Divides(p, At(b, k) - At(a, k) - Conv(r, m, k)) {
      CombinesConv(r, [], -1, 0, q, m, k);
      NoConv(m, k);
      DividesTimes(p, At(a, k) - At(b, k) - Conv(q, m, k), -1);
    }
    CongIntro(b, a, r, m, p);
  }

  lemma CongTransitive(a: Poly, b: Poly, c: Poly, m: Poly, p: int)
    requires Cong(a, b, m, p) && Cong(b, c, m, p)
    ensures Cong(a, c, m, p)
  {
    hide Conv, At, Divides, Cong;
    var q := CongElim(a, b, m, p);
    var r := CongElim(b, c, m, p);
    var s := Add(q, 1, r);
    forall k ensures Divides(p, At(a, k) - At(c, k) - Conv(s, m, k)) {
      CombinesConv(s, q, 1, 0, r, m, k);
      DividesSum(p, At(a, k) - At(b, k) - Conv(q, m, k), At(b, k) - At(c, k) - Conv(r, m, k), 1, 1);
    }
    CongIntro(a, c, s, m, p);
  }

  /** A polynomial that vanishes modulo `p` makes every product vanish. */
  lemma {:induction false} ZeroModConv(d: Poly, c: Poly, p: int, k: int)
    requires ZeroMod(d, p)
    ensures Divides(p, Conv(d, c, k))
  {
    hide Divides;
    if d == [] {
      DividesSelf(p);
    } else {
      var front, x := d[..|d| - 1], d[|d| - 1];
      forall j ensures Divides(p, At(front, j)) {
        if 0 <= j < |front| { assert At(d, j) == At(front, j); } else { DividesSelf(p); }
      }
      ZeroModConv(front, c, p, k);
      assert At(d, |d| - 1) == x;
      var y := At(c, k - (|d| - 1));
      DividesTimes(p, x, y);
      DividesSum(p, Conv(front, c, k), x * y, 1, 1);
    }
  }

  lemma RestTimes(a: Poly, b: Poly, q: Poly, m: Poly, c: Poly, k: int)
    ensures Conv(Rest(a, b, q, m), c, k) == Conv(a, c, k) - Conv(b, c, k) - Conv(Times(q, c), m, k)
  {
    hide Conv, At;
    var d := Add(a, -1, b);
    CombinesConv(Rest(a, b, q, m), d, -1, 0, Times(q, m), c, k);
    CombinesConv(d, a, -1, 0, b, c, k);
    assert Conv(Times(q, m), c, k) == Conv(Times(q, c), m, k) by {
      ConvAssociative(q, m, c, k);
      ConvAssociative(q, c, m, k);
      TimesCommutes(m, c);
    }
  }

  lemma CongTimes(a: Poly, b: Poly, c: Poly, m: Poly, p: int)
    requires Cong(a, b, m, p)
    ensures Cong(Times(a, c), Times(b, c), m, p) && Cong(Times(c, a), Times(c, b), m, p)
  {
    hide Conv, At, Divides, Rest, ZeroMod, Cong;
    var q := CongWitness(a, b, m, p);
    TimesAt(a, c);
    TimesAt(b, c);
    forall k ensures Divides(p, At(Times(a, c), k) - At(Times(b, c), k) - Conv(Times(q, c), m, k)) {
      ZeroModConv(Rest(a, b, q, m), c, p, k);
      RestTimes(a, b, q, m, c, k);
    }
    CongIntro(Times(a, c), Times(b, c), Times(q, c), m, p);
    TimesCommutes(a, c);
    TimesCommutes(b, c);
  }

  lemma CongWitness(a: Poly, b: Poly, m: Poly, p: int) returns (q: Poly)
    requires Cong(a, b, m, p)
    ensures ZeroMod(Rest(a, b, q, m), p)
  {
    q :| ZeroMod(Rest(a, b, q, m), p);
  }

  lemma CongTimesBoth(a: Poly, b: Poly, c: Poly, d: Poly, m: Poly, p: int)
    requires Cong(a, b, m, p) && Cong(c, d, m, p)
    ensures Cong(Times(a, c), Times(b, d), m, p)
  {
    hide Times, Cong;
    CongTimes(a, b, c, m, p);
    CongTimes(c, d, b, m, p);
    CongTransitive(Times(a, c), Times(b, c), Times(b, d), m, p);
  }

  lemma CongAdd(a: Poly, b: Poly, x: int, c: Poly, d: Poly, m: Poly, p: int)
    requires Cong(a, b, m, p) && Cong(c, d, m, p)
    ensures Cong(Add(a, x, c), Add(b, x, d), m, p)
  {
    hide Conv, At, Divides, Cong;
    var q := CongElim(a, b, m, p);
    var r := CongElim(c, d, m, p);
    var s := Add(q, x, r);
    forall k ensures Divides(p, At(Add(a, x, c), k) - At(Add(b, x, d), k) - Conv(s, m, k)) {
      CombinesConv(s, q, x, 0, r, m, k);
      var u, v := At(a, k) - At(b, k) - Conv(q, m, k), At(c, k) - At(d, k) - Conv(r, m, k);
      DividesSum(p, u, v, 1, x);
      assert At(Add(a, x, c), k) == At(a, k) + x * At(c, k - 0);
      assert At(Add(b, x, d), k) == At(b, k) + x * At(d, k - 0);
      Regroup(x, At(c, k), At(d, k), Conv(r, m, k));
    }
    CongIntro(Add(a, x, c), Add(b, x, d), s, m, p);
  }

  lemma Regroup(x: int, c: int, d: int, r: int)
    ensures x * (c - d - r) == x * c - x * d - x * r
  {
  }

  /** A congruence modulo `m` holds modulo every divisor of `m`. */
  lemma CongDivisor(a: Poly, b: Poly, m: Poly, g: Poly, p: int)
    requires Cong(a, b, m, p) && ModDividesPoly(g, m, p)
    ensures Cong(a, b, g, p)
  {
    hide Conv, At, Divides, Cong;
    var q := CongElim(a, b, m, p);
    var r := CongElim(m, [], g, p);
    CongTimes(m, [], q, g, p);
    var e := CongElim(Times(q, m), Times(q, []), g, p);
    TimesAt(q, m);
    TimesAt(q, []);
    forall k ensures Divides(p, At(a, k) - At(b, k) - Conv(e, g, k)) {
      ConvEmpty(q, k);
      DividesSum(p, At(a, k) - At(b, k) - Conv(q, m, k), At(Times(q, m), k) - At(Times(q, []), k) - Conv(e, g, k), 1,
        1);
    }
    CongIntro(a, b, e, g, p);
  }

  /** Multiples of `m` vanish. */
  lemma MultipleCong(q: Poly, m: Poly, p: int)
    ensures Cong(Times(q, m), [], m, p) && Cong(Times(m, q), [], m, p)
  {
    hide Conv, At, Divides, Cong;
    TimesAt(q, m);
    forall k ensures Divides(p, At(Times(q, m), k) - At([], k) - Conv(q, m, k)) {
      DividesSelf(p);
      AtNothing(k);
    }
    CongIntro(Times(q, m), [], q, m, p);
    TimesCommutes(q, m);
  }

  /** Congruence modulo the empty polynomial is coefficient-wise. */
  lemma CongEmpty(a: Poly, b: Poly, p: int)
    ensures Cong(a, b, [], p) <==> EqMod(a, b, p)
  {
    hide Conv, At, Divides, Cong;
    if EqMod(a, b, p) { EqModCong(a, b, [], p); }
    if Cong(a, b, [], p) {
      var q := CongElim(a, b, [], p);
      forall k ensures Divides(p, At(a, k) - At(b, k)) { ConvEmpty(q, k); }
    }
  }

  lemma EqModTimes(a: Poly, b: Poly, c: Poly, d: Poly, p: int)
    requires EqMod(a, b, p) && EqMod(c, d, p)
    ensures EqMod(Times(a, c), Times(b, d), p)
  {
    hide EqMod, Cong, Times;
    CongEmpty(a, b, p);
    CongEmpty(c, d, p);
    CongTimesBoth(a, b, c, d, [], p);
    CongEmpty(Times(a, c), Times(b, d), p);
  }

  lemma EqModTransitive(a: Poly, b: Poly, c: Poly, p: int)
    requires EqMod(a, b, p) && EqMod(b, c, p)
    ensures EqMod(a, c, p)
  {
    hide EqMod, Cong;
    CongEmpty(a, b, p);
    CongEmpty(b, c, p);
    CongTransitive(a, b, c, [], p);
    CongEmpty(a, c, p);
  }

  lemma EqModSymmetric(a: Poly, b: Poly, p: int)
    requires EqMod(a, b, p)
    ensures EqMod(b, a, p)
  {
    hide EqMod, Cong;
    CongEmpty(a, b, p);
    CongSymmetric(a, b, [], p);
    CongEmpty(b, a, p);
  }
}
