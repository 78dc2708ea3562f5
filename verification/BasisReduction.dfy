/** Minimal and reduced bases, and the whole of computeGroebnerBasis (src/cas/Groebner.cpp:478-610). */
module BasisReduction {
  import opened MonomialOrder
  import opened MultiPoly
  import opened PolyIdeal
  import opened PolyDivision
  import opened BuchbergerCriterion
  import opened Buchberger

  ghost predicate Redundant(gens: seq<Poly>, i: nat, n: nat)
    requires AllCanonical(gens, n) && AllNonZero(gens) && i < |gens|
  {
    exists j :: 0 <= j < |gens| && j != i && Divides(gens[j][0].mono, gens[i][0].mono)
  }

  /** `at` lists, in order, the generators that are not redundant. */
  ghost predicate Survivors(gens: seq<Poly>, at: seq<nat>, n: nat)
    requires AllCanonical(gens, n) && AllNonZero(gens)
  {
    && (forall x :: 0 <= x < |at| ==> at[x] < |gens| && !Redundant(gens, at[x], n))
    && (forall x, y :: 0 <= x < y < |at| ==> at[x] < at[y])
    && (forall i: nat :: i < |gens| && !Redundant(gens, i, n) ==> i in at)
  }

  /** No term of an element is divisible by another element's leading monomial. */
  ghost predicate InterReduced(gens: seq<Poly>, n: nat)
    requires AllCanonical(gens, n) && AllNonZero(gens)
  {
    forall i, j, m: Mono :: 0 <= i < |gens| && 0 <= j < |gens| && i != j && |m| == n && Coeff(gens[i], m) != 0.0
      ==> !Divides(gens[j][0].mono, m)
  }

  /** A leading monomial that two generators share is properly divided by a third one's. */
  ghost predicate NoRepeatedMinimum(gens: seq<Poly>, n: nat)
    requires AllCanonical(gens, n) && AllNonZero(gens)
  {
    forall i, j :: 0 <= i < j < |gens| && gens[i][0].mono == gens[j][0].mono ==> ProperlyDivided(gens, i, n)
  }

  ghost predicate ProperlyDivided(gens: seq<Poly>, i: nat, n: nat)
    requires AllCanonical(gens, n) && AllNonZero(gens) && i < |gens|
  {
    exists k :: 0 <= k < |gens| && gens[k][0].mono != gens[i][0].mono && Divides(gens[k][0].mono, gens[i][0].mono)
  }

  // ----- Which generators survive -----

  method Minimal(gens: seq<Poly>, n: nat) returns (minimal: seq<Poly>, ghost at: seq<nat>)
    requires AllCanonical(gens, n) && AllNonZero(gens)
    ensures Survivors(gens, at, n) && |minimal| == |at|
    ensures forall x :: 0 <= x < |at| ==> minimal[x] == gens[at[x]]
  {
    hide Coeff, Less, Divides;
    minimal, at := [], [];
    for i := 0 to |gens|
      invariant |minimal| == |at|
      invariant forall x :: 0 <= x < |at| ==> at[x] < i && minimal[x] == gens[at[x]] && !Redundant(gens, at[x], n)
      invariant forall x, y :: 0 <= x < y < |at| ==> at[x] < at[y]
      invariant forall k: nat :: k < i && !Redundant(gens, k, n) ==> k in at
    {
      var redundant := false;
      var j := 0;
      while j < |gens| && !redundant
        invariant 0 <= j <= |gens|
        invariant redundant ==> Redundant(gens, i, n)
        invariant !redundant ==> forall k :: 0 <= k < j && k != i ==> !Divides(gens[k][0].mono, gens[i][0].mono)
      {
        if i != j && Divides(gens[j][0].mono, gens[i][0].mono) {
          redundant := true;
        }
        j := j + 1;
      }
      if !redundant {
        minimal := minimal + [gens[i]];
        at := at + [i];
      }
    }
  }

  lemma {:induction false} ProperDivisorDegree(a: Mono, b: Mono)
    requires |a| == |b| && Divides(a, b)
    ensures Degree(a) <= Degree(b) && (a != b ==> Degree(a) < Degree(b))
  {
    if |a| > 0 {
      forall v | 0 <= v < |a[1..]| ensures a[1..][v] <= b[1..][v] { assert a[v + 1] <= b[v + 1]; }
      ProperDivisorDegree(a[1..], b[1..]);
      if a[0] == b[0] && a[1..] == b[1..] { assert a == [a[0]] + a[1..] && b == [b[0]] + b[1..]; }
    }
  }

  /** Descending along divisors from any generator ends at a survivor. */
  lemma {:induction false} SurvivorBelow(gens: seq<Poly>, n: nat, i: nat) returns (k: nat)
    requires AllCanonical(gens, n) && AllNonZero(gens) && NoRepeatedMinimum(gens, n) && i < |gens|
    ensures k < |gens| && !Redundant(gens, k, n) && Divides(gens[k][0].mono, gens[i][0].mono)
    decreases Degree(gens[i][0].mono)
  {
    hide Canonical, Coeff, Divides, Degree, NoRepeatedMinimum;
    CanonicalLead(gens, n);
    if Redundant(gens, i, n) {
      var j: nat :| j < |gens| && j != i && Divides(gens[j][0].mono, gens[i][0].mono);
      if gens[j][0].mono == gens[i][0].mono {
        RepeatedDivided(gens, n, i, j);
        j :| j < |gens| && gens[j][0].mono != gens[i][0].mono && Divides(gens[j][0].mono, gens[i][0].mono);
      }
      ProperDivisorDegree(gens[j][0].mono, gens[i][0].mono);
      k := SurvivorBelow(gens, n, j);
      DividesTransitive(gens[k][0].mono, gens[j][0].mono, gens[i][0].mono);
    } else {
      k := i;
      LcmDivided(gens[i][0].mono, gens[i][0].mono);
      DivisorSelf(gens[i][0].mono);
    }
  }

  lemma DivisorSelf(a: Mono)
    ensures Divides(a, a)
  {
  }

  lemma CanonicalLead(gens: seq<Poly>, n: nat)
    requires AllCanonical(gens, n)
    ensures forall i :: 0 <= i < |gens| && gens[i] != [] ==> |gens[i][0].mono| == n
  {
  }

  lemma RepeatedDivided(gens: seq<Poly>, n: nat, i: nat, j: nat)
    requires AllCanonical(gens, n) && AllNonZero(gens) && NoRepeatedMinimum(gens, n)
    requires i < |gens| && j < |gens| && i != j && gens[i][0].mono == gens[j][0].mono
    ensures ProperlyDivided(gens, i, n)
  {
    hide Canonical, Divides;
    if i < j {
      assert ProperlyDivided(gens, i, n);
    } else {
      assert ProperlyDivided(gens, j, n);
    }
  }

  /** A survivor's leading monomial divides that of generator `i`. */
  ghost predicate Covered(gens: seq<Poly>, i: nat, n: nat)
    requires AllCanonical(gens, n) && AllNonZero(gens) && i < |gens|
  {
    exists k: nat :: k < |gens| && !Redundant(gens, k, n) && Divides(gens[k][0].mono, gens[i][0].mono)
  }

  lemma CoveredOnce(gens: seq<Poly>, n: nat, i: nat, j: nat)
    requires AllCanonical(gens, n) && AllNonZero(gens) && i < j < |gens| && gens[i][0].mono == gens[j][0].mono
    requires Covered(gens, i, n)
    ensures ProperlyDivided(gens, i, n)
  {
    hide Canonical, Divides;
    CanonicalLead(gens, n);
    var k: nat :| k < |gens| && !Redundant(gens, k, n) && Divides(gens[k][0].mono, gens[i][0].mono);
    assert gens[k][0].mono != gens[i][0].mono;
  }

  /** Every leading monomial is still covered by a survivor exactly when no minimum is repeated. */
  lemma CoveredExactly(gens: seq<Poly>, n: nat)
    requires AllCanonical(gens, n) && AllNonZero(gens)
    ensures NoRepeatedMinimum(gens, n) <==> forall i: nat :: i < |gens| ==> Covered(gens, i, n)
  {
    hide Canonical, Covered, NoRepeatedMinimum;
    if NoRepeatedMinimum(gens, n) {
      forall i: nat | i < |gens| ensures Covered(gens, i, n) {
        CoveredAll(gens, n, i);
      }
    } else {
      RepeatedUncovered(gens, n);
    }
  }

  lemma CoveredAll(gens: seq<Poly>, n: nat, i: nat)
    requires AllCanonical(gens, n) && AllNonZero(gens) && NoRepeatedMinimum(gens, n) && i < |gens|
    ensures Covered(gens, i, n)
  {
    hide Divides, Redundant, Canonical;
    var k := SurvivorBelow(gens, n, i);
  }

  lemma RepeatedUncovered(gens: seq<Poly>, n: nat)
    requires AllCanonical(gens, n) && AllNonZero(gens) && !NoRepeatedMinimum(gens, n)
    ensures exists i: nat :: i < |gens| && !Covered(gens, i, n)
  {
    hide Covered, ProperlyDivided, Canonical;
    var i: nat, j: nat :| i < j < |gens| && gens[i][0].mono == gens[j][0].mono && !ProperlyDivided(gens, i, n);
    if Covered(gens, i, n) {
      CoveredOnce(gens, n, i, j);
    }
  }

  // ----- The survivors generate -----

  /** Adds one term to a canonical polynomial. */
  lemma {:induction false} AddTerm(p: Poly, t: Term, n: nat) returns (r: Poly)
    requires Canonical(p, n) && |t.mono| == n
    ensures Canonical(r, n)
    ensures forall k: Mono :: |k| == n ==> Coeff(r, k) == Coeff(p, k) + (if t.mono == k then t.coeff else 0.0)
    ensures forall i :: 0 <= i < |r| ==> r[i].mono == t.mono || Occurs(p, r[i].mono)
  {
    hide Coeff, Less, Occurs, Canonical;
    if t.coeff == 0.0 {
      r := p;
      AllOccur(p);
    } else if p == [] {
      r := [t];
      OneTerm(t, n);
      forall k: Mono | |k| == n ensures Coeff(p, k) == 0.0 { CoeffAbsent(p, k); }
    } else {
      TailCanonical(p, n);
      var head, tail := p[0], p[1..];
      assert p == [head] + tail;
      HeadFacts(p, n);
      LessTrichotomy(head.mono, t.mono);
      AllOccur(p);
      if head.mono == t.mono {
        if head.coeff + t.coeff == 0.0 {
          r := tail;
        } else {
          r := [Term(head.coeff + t.coeff, head.mono)] + tail;
          PrependGreater(Term(head.coeff + t.coeff, head.mono), tail, n);
        }
        forall k: Mono | |k| == n ensures Coeff(r, k) == Coeff(p, k) + (if t.mono == k then t.coeff else 0.0) {
          CoeffHead(p, k);
          if r != tail { CoeffHead(r, k); assert r[1..] == tail; }
        }
      } else if Less(head.mono, t.mono) {
        r := [t] + p;
        forall i | 0 <= i < |p| ensures Less(p[i].mono, t.mono) {
          if i > 0 { LessTransitive(p[i].mono, head.mono, t.mono); }
        }
        PrependGreater(t, p, n);
        forall k: Mono | |k| == n ensures Coeff(r, k) == Coeff(p, k) + (if t.mono == k then t.coeff else 0.0) {
          CoeffHead(r, k);
          assert r[1..] == p;
        }
      } else {
        var rest := AddTerm(tail, t, n);
        r := [head] + rest;
        VarsOf(rest, n);
        forall i | 0 <= i < |rest|
          ensures Less(rest[i].mono, head.mono) && (rest[i].mono == t.mono || Occurs(p, rest[i].mono))
        {
          OccursInTail(p, rest[i].mono, n);
        }
        PrependGreater(head, rest, n);
        forall k: Mono | |k| == n ensures Coeff(r, k) == Coeff(p, k) + (if t.mono == k then t.coeff else 0.0) {
          CoeffHead(p, k);
          CoeffHead(r, k);
          assert r[1..] == rest;
        }
      }
    }
  }

  lemma AllOccur(p: Poly)
    ensures forall i :: 0 <= i < |p| ==> Occurs(p, p[i].mono)
  {
  }

  lemma VarsOf(p: Poly, n: nat)
    requires Canonical(p, n)
    ensures forall i :: 0 <= i < |p| ==> |p[i].mono| == n
  {
  }

  lemma OneTerm(t: Term, n: nat)
    requires |t.mono| == n && t.coeff != 0.0
    ensures Canonical([t], n) && forall k: Mono :: |k| == n ==> Coeff([t], k) == if t.mono == k then t.coeff else 0.0
  {
    forall k: Mono | |k| == n ensures Coeff([t], k) == if t.mono == k then t.coeff else 0.0 {
      assert [t] == [] + [t];
      CoeffAppend([], t, k);
    }
  }

  lemma HeadFacts(p: Poly, n: nat)
    requires Canonical(p, n) && p != []
    ensures |p[0].mono| == n && p[0].coeff != 0.0
    ensures forall i :: 0 < i < |p| ==> |p[i].mono| == n && Less(p[i].mono, p[0].mono)
  {
  }

  lemma PrependGreater(t: Term, p: Poly, n: nat)
    requires Canonical(p, n) && |t.mono| == n && t.coeff != 0.0
    requires forall i :: 0 <= i < |p| ==> |p[i].mono| == n ==> Less(p[i].mono, t.mono)
    ensures Canonical([t] + p, n)
  {
  }

  lemma OccursInTail(p: Poly, m: Mono, n: nat)
    requires Canonical(p, n) && p != []
    ensures Occurs(p[1..], m) ==> Occurs(p, m) && |m| == n && Less(m, p[0].mono)
  {
    if Occurs(p[1..], m) {
      var i :| 0 <= i < |p[1..]| && p[1..][i].mono == m;
      assert p[i + 1].mono == m;
    }
  }

  /** Adds a multiple of `g` to a canonical polynomial. */
  lemma {:induction false} AddMultiple(p: Poly, c: real, m: Mono, g: Poly, n: nat) returns (r: Poly)
    requires Canonical(p, n) && InVars(g, n) && |m| == n
    ensures Canonical(r, n) && forall k: Mono :: |k| == n ==> Coeff(r, k) == Coeff(p, k) + Shift(c, m, g, k)
    decreases |g|
  {
    hide Coeff, Less, Canonical, Over, Divides, Times, Shift;
    if g == [] {
      r := p;
      forall k: Mono | |k| == n ensures Shift(c, m, g, k) == 0.0 { ShiftNothing(c, m, g, k); }
    } else {
      var front, last := g[..|g| - 1], g[|g| - 1];
      var t := Term(last.coeff * c, Times(last.mono, m));
      var most := AddMultiple(p, c, m, front, n);
      r := AddTerm(most, t, n);
      forall k: Mono | |k| == n ensures Coeff(r, k) == Coeff(p, k) + Shift(c, m, g, k) {
        ShiftLast(c, m, g, k, t);
      }
    }
  }

  lemma ShiftNothing(c: real, m: Mono, g: Poly, k: Mono)
    requires g == []
    ensures Shift(c, m, g, k) == 0.0
  {
    hide Coeff, Over, Divides;
    if |k| == |m| && Divides(m, k) {
      CoeffAbsent(g, Over(k, m));
      assert c * 0.0 == 0.0;
    }
  }

  lemma ShiftLast(c: real, m: Mono, g: Poly, k: Mono, t: Term)
    requires g != [] && |g[|g| - 1].mono| == |m| == |k|
    requires t == Term(g[|g| - 1].coeff * c, Times(g[|g| - 1].mono, m))
    ensures Shift(c, m, g, k) == Shift(c, m, g[..|g| - 1], k) + if t.mono == k then t.coeff else 0.0
  {
    hide Coeff, Times, Over, Divides;
    var last := g[|g| - 1];
    TimesOver(m, last.mono);
    CoeffNext(g, |g| - 1, Over(k, m));
    assert g[..|g| - 1 + 1] == g;
    if Divides(m, k) {
      TimesOver(m, k);
      Distribute(c, Coeff(g[..|g| - 1], Over(k, m)), if last.mono == Over(k, m) then last.coeff else 0.0);
      Distribute(last.coeff, c, 0.0);
    }
  }

  /** One reduction step, as a polynomial: a * p - b * x^m * g, which lies below p. */
  lemma StepPoly(p: Poly, g: Poly, n: nat) returns (next: Poly)
    requires Canonical(p, n) && Canonical(g, n) && p != [] && g != [] && Divides(g[0].mono, p[0].mono)
    ensures Canonical(next, n) && Stepped(p, g, g[0].coeff, p[0].coeff, Over(p[0].mono, g[0].mono), 1.0, next, n)
    ensures next != [] ==> Less(next[0].mono, p[0].mono)
  {
    hide Coeff, Less, Divides, Over, Shift;
    var a, b, m := g[0].coeff, p[0].coeff, Over(p[0].mono, g[0].mono);
    var scaled := AddMultiple([], a, One(n), p, n);
    next := AddMultiple(scaled, -b, m, g, n);
    forall k: Mono | |k| == n ensures Coeff(next, k) == 1.0 * (a * Coeff(p, k) - Shift(b, m, g, k)) {
      CoeffAbsent([], k);
      ShiftOne(a, p, n, k);
      ShiftNegated(b, m, g, k);
    }
    if next != [] {
      CoeffAt(next, n, 0);
      StepFalls(p, g, m, 1.0, next, n, next[0].mono);
    }
  }

  lemma ShiftNegated(b: real, m: Mono, g: Poly, k: Mono)
    ensures Shift(-b, m, g, k) == -Shift(b, m, g, k)
  {
    hide Coeff, Over, Divides;
    if |k| == |m| && Divides(m, k) {
      Negated(b, Coeff(g, Over(k, m)));
    }
  }

  lemma Negated(b: real, x: real)
    ensures -b * x == -(b * x)
  {
  }

  /** The step stays in every ideal that holds both, and the stepped polynomial can be recovered from it. */
  lemma StepBothWays(p: Poly, g: Poly, a: real, b: real, m: Mono, next: Poly, gens: seq<Poly>, n: nat)
    requires Stepped(p, g, a, b, m, 1.0, next, n) && |m| == n && InIdeal(Of(g), gens, n) && a != 0.0
    ensures InIdeal(Of(p), gens, n) <==> InIdeal(Of(next), gens, n)
  {
    hide Coeff, InIdeal, TimesMono, Shift;
    if InIdeal(Of(p), gens, n) {
      forall k: Mono | |k| == n ensures Of(next)(k) == a * Of(p)(k) + TimesMono(-b, m, Of(g))(k) {
        ShiftTimes(b, m, g, k);
      }
      IdealLinear(Of(p), Of(g), Of(next), gens, n, a, -b, m);
    }
    if InIdeal(Of(next), gens, n) {
      var x := 1.0 / a;
      var y := x * b;
      forall k: Mono | |k| == n ensures Of(p)(k) == x * Of(next)(k) + TimesMono(y, m, Of(g))(k) {
        RecoveredAt(p, g, a, b, m, next, n, k, x, y);
      }
      IdealLinear(Of(next), Of(g), Of(p), gens, n, x, y, m);
    }
  }

  lemma RecoveredAt(p: Poly, g: Poly, a: real, b: real, m: Mono, next: Poly, n: nat, k: Mono, x: real, y: real)
    requires Stepped(p, g, a, b, m, 1.0, next, n) && |m| == |k| == n && a != 0.0 && x == 1.0 / a && y == x * b
    ensures Of(p)(k) == x * Of(next)(k) + TimesMono(y, m, Of(g))(k)
  {
    hide Coeff, TimesMono, Shift;
    ShiftScaled(x, b, m, g, k, y);
    assert Coeff(next, k) == 1.0 * (a * Coeff(p, k) - Shift(b, m, g, k));
    Recovered(a, Coeff(p, k), Shift(b, m, g, k), x, Coeff(next, k));
  }

  lemma ShiftTimes(b: real, m: Mono, g: Poly, k: Mono)
    requires |k| == |m|
    ensures TimesMono(-b, m, Of(g))(k) == -Shift(b, m, g, k)
  {
    hide Coeff, Over, Divides;
    if Divides(m, k) { Negated(b, Coeff(g, Over(k, m))); }
  }

  lemma ShiftScaled(x: real, b: real, m: Mono, g: Poly, k: Mono, y: real)
    requires |k| == |m| && y == x * b
    ensures TimesMono(y, m, Of(g))(k) == x * Shift(b, m, g, k)
  {
    hide Coeff, Over, Divides;
    if Divides(m, k) { assert (x * b) * Coeff(g, Over(k, m)) == x * (b * Coeff(g, Over(k, m))); }
  }

  lemma Recovered(a: real, p: real, s: real, x: real, next: real)
    requires a != 0.0 && x == 1.0 / a && next == 1.0 * (a * p - s)
    ensures x * next + x * s == p
  {
    assert x * a == 1.0;
    assert x * (a * p - s) == (x * a) * p - x * s;
  }

  /** The leading monomials of `basis` reach every element of the ideal of `gens`. */
  ghost predicate Reaches(basis: seq<Poly>, gens: seq<Poly>, n: nat) {
    forall q: Poly :: Canonical(q, n) && q != [] && InIdeal(Of(q), gens, n) ==> !Irreducible(q[0].mono, basis)
  }

  lemma Reached(basis: seq<Poly>, gens: seq<Poly>, n: nat, p: Poly) returns (i: nat)
    requires Reaches(basis, gens, n) && Canonical(p, n) && p != [] && InIdeal(Of(p), gens, n) && AllCanonical(basis, n)
    ensures i < |basis| && basis[i] != [] && |basis[i][0].mono| == |p[0].mono| == n
    ensures Divides(basis[i][0].mono, p[0].mono)
    ensures Canonical(basis[i], n)
  {
    hide InIdeal, Divides, Coeff;
    assert !Irreducible(p[0].mono, basis);
    i :| i < |basis| && basis[i] != [] && |basis[i][0].mono| == |p[0].mono| && Divides(basis[i][0].mono, p[0].mono);
  }

  /** If the leading monomials of `basis` reach every element of a larger ideal, `basis` generates it. */
  lemma {:induction false} Generates(p: Poly, gens: seq<Poly>, basis: seq<Poly>, n: nat, o: ORDINAL)
    requires Canonical(p, n) && AllCanonical(basis, n) && InIdeal(Of(p), gens, n) && Within(basis, gens, n)
    requires Reaches(basis, gens, n)
    requires p != [] ==> Accessible#[o](p[0].mono)
    ensures InIdeal(Of(p), basis, n)
    decreases o
  {
    hide Coeff, Less, InIdeal, Divides, Over, Stepped, Accessible, Canonical, Reaches;
    if p == [] {
      ZeroInIdeal(basis, n);
    } else {
      var i := Reached(basis, gens, n, p);
      var g := basis[i];
      HeadFacts(p, n);
      HeadFacts(g, n);
      var next := StepPoly(p, g, n);
      var m := Over(p[0].mono, g[0].mono);
      GeneratorInIdeal(basis, i, n);
      StepBothWays(p, g, g[0].coeff, p[0].coeff, m, next, gens, n);
      if next == [] {
        ZeroInIdeal(basis, n);
      } else {
        HeadFacts(next, n);
        var o' := StepDown(p[0].mono, o, next[0].mono);
        Generates(next, gens, basis, n, o');
      }
      StepBothWays(p, g, g[0].coeff, p[0].coeff, m, next, basis, n);
    }
  }

  // ----- Reducing the survivors -----

  /** Element `x` of `reduced` has the leading monomial of the `x`-th survivor. */
  ghost predicate SameLeads(reduced: seq<Poly>, gens: seq<Poly>, at: seq<nat>) {
    && |reduced| == |at|
    && forall x :: 0 <= x < |at| ==>
        at[x] < |gens| && gens[at[x]] != [] && reduced[x] != [] && reduced[x][0].mono == gens[at[x]][0].mono
  }

  /** No term of `r` is divisible by a leading monomial of `minimal` other than that of element `i`. */
  ghost predicate ReducedBut(r: Poly, minimal: seq<Poly>, i: nat, n: nat)
    requires AllCanonical(minimal, n) && AllNonZero(minimal)
  {
    forall j, m: Mono :: 0 <= j < |minimal| && j != i && |m| == n && Coeff(r, m) != 0.0 ==>
      !Divides(minimal[j][0].mono, m)
  }

  method Others(minimal: seq<Poly>, i: nat, n: nat) returns (others: seq<Poly>)
    requires AllCanonical(minimal, n) && i < |minimal|
    ensures AllCanonical(others, n)
    ensures forall p :: p in others <==> exists j :: 0 <= j < |minimal| && j != i && minimal[j] == p
  {
    hide Canonical;
    others := [];
    for j := 0 to |minimal|
      invariant AllCanonical(others, n)
      invariant forall p :: p in others <==> exists k :: 0 <= k < j && k != i && minimal[k] == p
    {
      if i != j {
        others := others + [minimal[j]];
      }
    }
  }

  lemma OthersIrreducible(minimal: seq<Poly>, i: nat, others: seq<Poly>, m: Mono, n: nat)
    requires AllCanonical(minimal, n) && AllNonZero(minimal) && AllCanonical(others, n) && i < |minimal| && |m| == n
    requires forall p :: p in others <==> exists j :: 0 <= j < |minimal| && j != i && minimal[j] == p
    ensures Irreducible(m, others) <==> forall j :: 0 <= j < |minimal| && j != i ==> !Divides(minimal[j][0].mono, m)
  {
    hide Divides, Coeff, Less;
    CanonicalLead(minimal, n);
    if Irreducible(m, others) {
      forall j | 0 <= j < |minimal| && j != i ensures !Divides(minimal[j][0].mono, m) {
        assert minimal[j] in others;
        var k :| 0 <= k < |others| && others[k] == minimal[j];
      }
    }
    if forall j :: 0 <= j < |minimal| && j != i ==> !Divides(minimal[j][0].mono, m) {
      forall k | 0 <= k < |others| && others[k] != [] && |others[k][0].mono| == |m|
        ensures !Divides(others[k][0].mono, m)
      {
        assert others[k] in others;
      }
    }
  }

  /** Reduces one survivor by the others; its leading term stays. */
  method ReduceOne(gens: seq<Poly>, minimal: seq<Poly>, i: nat, s: Scaling, n: nat) returns (r: Poly)
    requires AllCanonical(minimal, n) && AllNonZero(minimal) && i < |minimal| && NonZeroScaling(s)
    requires forall j :: 0 <= j < |minimal| ==> minimal[j] in gens
    requires forall j :: 0 <= j < |minimal| && j != i ==>
      |minimal[j][0].mono| == |minimal[i][0].mono| ==> !Divides(minimal[j][0].mono, minimal[i][0].mono)
    ensures Canonical(r, n) && r != [] && r[0].mono == minimal[i][0].mono
    ensures ReducedBut(r, minimal, i, n) && InIdeal(Of(r), gens, n)
  {
    hide Coeff, Less, InIdeal, Divides, Irreducible, Canonical, Reduced, Remainder;
    CanonicalLead(minimal, n);
    var others := Others(minimal, i, n);
    ghost var c;
    OthersIrreducible(minimal, i, others, minimal[i][0].mono, n);
    r, c := Divide(minimal[i], others, s, n);
    ReducedStays(r, minimal, i, others, n);
    RemainderStays(c, minimal[i], others, r, gens, n);
    ghost var divided := r;
    r := MakePrimitive(r, s, n);
    IdealScale(Of(divided), Of(r), gens, n, s.primitive(divided));
    forall j, m: Mono | 0 <= j < |minimal| && j != i && |m| == n && Coeff(r, m) != 0.0
      ensures !Divides(minimal[j][0].mono, m)
    {
      assert Coeff(divided, m) != 0.0;
    }
  }

  lemma ReducedStays(r: Poly, minimal: seq<Poly>, i: nat, others: seq<Poly>, n: nat)
    requires AllCanonical(minimal, n) && AllNonZero(minimal) && AllCanonical(others, n) && i < |minimal|
    requires forall p :: p in others <==> exists j :: 0 <= j < |minimal| && j != i && minimal[j] == p
    requires Reduced(r, others, n)
    ensures ReducedBut(r, minimal, i, n)
  {
    hide Coeff, Divides, Canonical, Irreducible;
    CanonicalLead(minimal, n);
    forall j, m: Mono | 0 <= j < |minimal| && j != i && |m| == n && Coeff(r, m) != 0.0
      ensures !Divides(minimal[j][0].mono, m)
    {
      OthersIrreducible(minimal, i, others, m, n);
    }
  }

  lemma RemainderStays(c: real, f: Poly, others: seq<Poly>, r: Poly, gens: seq<Poly>, n: nat)
    requires Remainder(c, f, others, r, n) && f in gens && forall p :: p in others ==> p in gens
    ensures InIdeal(Of(r), gens, n)
  {
    hide InIdeal, Coeff;
    forall i | 0 <= i < |others| ensures InIdeal(Of(others[i]), gens, n) {
      assert others[i] in gens;
      var k: nat :| k < |gens| && gens[k] == others[i];
      GeneratorInIdeal(gens, k, n);
    }
    IdealWithin(Difference(c, f, r), others, gens, n);
    var k: nat :| k < |gens| && gens[k] == f;
    GeneratorInIdeal(gens, k, n);
    RemainderInIdeal(c, f, gens, r, n);
  }

  method ReducedBasis(gens: seq<Poly>, s: Scaling, n: nat) returns (reduced: seq<Poly>, ghost at: seq<nat>)
    requires AllCanonical(gens, n) && AllNonZero(gens) && NonZeroScaling(s)
    ensures Survivors(gens, at, n) && SameLeads(reduced, gens, at)
    ensures AllCanonical(reduced, n) && AllNonZero(reduced) && InterReduced(reduced, n) && Within(reduced, gens, n)
  {
    hide Coeff, Less, InIdeal, Divides, Canonical, Redundant, Survivors, ReducedBut, InterReduced;
    var minimal;
    minimal, at := Minimal(gens, n);
    SurvivorsApart(gens, at, minimal, n);
    reduced := [];
    for i := 0 to |minimal|
      invariant AllCanonical(reduced, n) && AllNonZero(reduced) && |reduced| == i
      invariant forall x :: 0 <= x < i ==> reduced[x][0].mono == minimal[x][0].mono
      invariant forall x :: 0 <= x < i ==> ReducedBut(reduced[x], minimal, x, n)
      invariant Within(reduced, gens, n)
    {
      var r := ReduceOne(gens, minimal, i, s, n);
      if r != [] {
        reduced := reduced + [r];
      }
    }
    LeadsInterReduced(reduced, minimal, n);
  }

  lemma SurvivorsApart(gens: seq<Poly>, at: seq<nat>, minimal: seq<Poly>, n: nat)
    requires AllCanonical(gens, n) && AllNonZero(gens) && Survivors(gens, at, n) && |minimal| == |at|
    requires forall x :: 0 <= x < |at| ==> minimal[x] == gens[at[x]]
    ensures AllCanonical(minimal, n) && AllNonZero(minimal)
    ensures forall x :: 0 <= x < |at| ==> at[x] < |gens| && minimal[x] in gens
    ensures forall x, y :: 0 <= x < |at| && 0 <= y < |at| && x != y ==>
      |minimal[y][0].mono| == |minimal[x][0].mono| && !Divides(minimal[y][0].mono, minimal[x][0].mono)
  {
    hide Coeff, Less, Divides, Canonical;
    CanonicalLead(gens, n);
    forall x, y | 0 <= x < |at| && 0 <= y < |at| && x != y ensures !Divides(minimal[y][0].mono, minimal[x][0].mono) {
      assert !Redundant(gens, at[x], n);
      assert at[x] != at[y];
    }
  }

  lemma LeadsInterReduced(reduced: seq<Poly>, minimal: seq<Poly>, n: nat)
    requires AllCanonical(reduced, n) && AllNonZero(reduced) && AllCanonical(minimal, n) && AllNonZero(minimal)
    requires |reduced| == |minimal| && forall x :: 0 <= x < |reduced| ==> reduced[x][0].mono == minimal[x][0].mono
    requires forall x :: 0 <= x < |reduced| ==> ReducedBut(reduced[x], minimal, x, n)
    ensures InterReduced(reduced, n)
  {
    hide Coeff, Less, Divides, Canonical;
    CanonicalLead(reduced, n);
    forall i, j, m: Mono | 0 <= i < |reduced| && 0 <= j < |reduced| && i != j && |m| == n && Coeff(reduced[i], m) != 0.0
      ensures !Divides(reduced[j][0].mono, m)
    {
      assert ReducedBut(reduced[i], minimal, i, n);
    }
  }

  // ----- When the reduced basis is again a Groebner basis of the ideal -----

  lemma ReachesAll(gens: seq<Poly>, at: seq<nat>, reduced: seq<Poly>, n: nat)
    requires AllCanonical(gens, n) && AllNonZero(gens) && AllCanonical(reduced, n)
    requires Survivors(gens, at, n) && SameLeads(reduced, gens, at) && GroebnerBasis(gens, n)
    requires NoRepeatedMinimum(gens, n)
    ensures Reaches(reduced, gens, n)
  {
    hide Coeff, Less, Divides, Canonical, InIdeal, NoRepeatedMinimum, Redundant, Reaches;
    CanonicalLead(gens, n);
    assert Reaches(gens, gens, n) by { GroebnerReaches(gens, n); }
    forall q: Poly | Canonical(q, n) && q != [] && InIdeal(Of(q), gens, n) ensures !Irreducible(q[0].mono, reduced) {
      var i := Reached(gens, gens, n, q);
      var k := SurvivorBelow(gens, n, i);
      DividesTransitive(gens[k][0].mono, gens[i][0].mono, q[0].mono);
      var x :| 0 <= x < |at| && at[x] == k;
      assert reduced[x][0].mono == gens[k][0].mono;
    }
    ReachesIntro(reduced, gens, n);
  }

  lemma GroebnerReaches(gens: seq<Poly>, n: nat)
    ensures GroebnerBasis(gens, n) <==> Reaches(gens, gens, n)
  {
    hide Coeff, Canonical, InIdeal, Irreducible;
  }

  lemma ReachesIntro(basis: seq<Poly>, gens: seq<Poly>, n: nat)
    requires forall q: Poly :: Canonical(q, n) && q != [] && InIdeal(Of(q), gens, n) ==> !Irreducible(q[0].mono, basis)
    ensures Reaches(basis, gens, n)
  {
    hide Coeff, Canonical, InIdeal, Irreducible;
  }

  /** Reducing a Groebner basis gives a Groebner basis of the same ideal exactly when no minimum is repeated. */
  lemma ReducedExactly(gens: seq<Poly>, at: seq<nat>, reduced: seq<Poly>, n: nat)
    requires AllCanonical(gens, n) && AllNonZero(gens) && AllCanonical(reduced, n) && GroebnerBasis(gens, n)
    requires Survivors(gens, at, n) && SameLeads(reduced, gens, at) && Within(reduced, gens, n)
    ensures GroebnerBasis(reduced, n) && SameIdeal(reduced, gens, n) <==> NoRepeatedMinimum(gens, n)
  {
    hide Coeff, Less, Divides, Canonical, InIdeal, NoRepeatedMinimum, Redundant, Reaches, GroebnerBasis, Survivors;
    hide SameLeads, Accessible;
    if NoRepeatedMinimum(gens, n) {
      ReachesAll(gens, at, reduced, n);
      forall i | 0 <= i < |gens| ensures InIdeal(Of(gens[i]), reduced, n) {
        GeneratorInIdeal(gens, i, n);
        var o := SomeRank(gens[i][0].mono);
        Generates(gens[i], gens, reduced, n, o);
      }
      ReachesSmaller(reduced, gens, n);
      GroebnerReaches(reduced, n);
    }
    if GroebnerBasis(reduced, n) && SameIdeal(reduced, gens, n) {
      GroebnerReaches(reduced, n);
      forall i: nat | i < |gens| ensures Covered(gens, i, n) {
        CoveredByReduced(gens, at, reduced, n, i);
      }
      CoveredExactly(gens, n);
    }
  }

  lemma ReachesSmaller(basis: seq<Poly>, gens: seq<Poly>, n: nat)
    requires Reaches(basis, gens, n) && Within(basis, gens, n)
    ensures Reaches(basis, basis, n)
  {
    hide Coeff, Canonical, InIdeal, Irreducible;
    forall q: Poly | Canonical(q, n) && q != [] && InIdeal(Of(q), basis, n) ensures !Irreducible(q[0].mono, basis) {
      IdealWithin(Of(q), basis, gens, n);
    }
  }

  lemma CoveredByReduced(gens: seq<Poly>, at: seq<nat>, reduced: seq<Poly>, n: nat, i: nat)
    requires AllCanonical(gens, n) && AllNonZero(gens) && AllCanonical(reduced, n) && Reaches(reduced, reduced, n)
    requires Survivors(gens, at, n) && SameLeads(reduced, gens, at) && Within(gens, reduced, n) && i < |gens|
    ensures Covered(gens, i, n)
  {
    hide Coeff, Less, Divides, Canonical, InIdeal, Redundant, Reaches;
    var x := Reached(reduced, reduced, n, gens[i]);
    CanonicalLead(gens, n);
    assert reduced[x][0].mono == gens[at[x]][0].mono;
  }

  /** The distinctness is needed: of two generators with the same leading monomial both are dropped. */
  lemma EqualLeadsLost(f: Poly, n: nat)
    requires Canonical(f, n) && f != []
    ensures Survivors([f, f], [], n) && !InIdeal(Of(f), [], n)
  {
    hide Coeff, Less;
    DivisorSelf(f[0].mono);
    var gens := [f, f];
    forall i: nat | i < 2 ensures Redundant(gens, i, n) {
      assert gens[1 - i] == f;
    }
    CoeffAt(f, n, 0);
    if InIdeal(Of(f), [], n) {
      NothingInEmptyIdeal(Of(f), n, f[0].mono);
    }
  }

  lemma NothingInEmptyIdeal(h: Mono -> real, n: nat, k: Mono)
    requires InIdeal(h, [], n) && |k| == n
    ensures h(k) == 0.0
  {
    var ms: seq<Multiple> :| ValidMultiples(ms, 0, n) && Represents(h, [], ms, n);
    assert |ms| == 0;
  }

  // ----- computeGroebnerBasis -----

  /** Appended remainders never repeat an earlier leading monomial, so only the given generators could. */
  lemma SaturatedDistinct(gens: seq<Poly>, from: nat, n: nat)
    requires AllCanonical(gens, n) && AllNonZero(gens) && from <= |gens| && HeadsReduced(gens, from)
    requires DistinctLeads(gens[..from])
    ensures NoRepeatedMinimum(gens, n)
  {
    hide Coeff, Less, Divides, Canonical;
    CanonicalLead(gens, n);
    forall i, j | 0 <= i < j < |gens| ensures gens[i][0].mono != gens[j][0].mono {
      if j < from {
        assert gens[..from][i] == gens[i] && gens[..from][j] == gens[j];
      } else {
        assert Irreducible(gens[j][0].mono, gens[..j]);
        assert gens[..j][i] == gens[i];
        DivisorSelf(gens[j][0].mono);
      }
    }
  }

  /** The result is reduced and stays inside the ideal in every run. When the worklist was emptied before the limit,
      the result is a Groebner basis of the given ideal exactly when no minimal leading monomial of the saturated list
      is repeated, and none is if the given generators have distinct leading monomials. */
  method ComputeGroebnerBasis(generators: seq<Poly>, s: Scaling, n: nat)
    returns (basis: seq<Poly>, ghost saturated: seq<Poly>, ghost open: seq<CriticalPair>)
    requires AllCanonical(generators, n) && NonZeroScaling(s)
    ensures AllCanonical(basis, n) && AllNonZero(basis) && InterReduced(basis, n) && Within(basis, generators, n)
    ensures AllCanonical(saturated, n) && AllNonZero(saturated) && SameIdeal(saturated, generators, n)
    ensures open == [] ==> GroebnerBasis(saturated, n)
    ensures open == [] || |open| + LIMIT == PairCount(|saturated|)
    ensures PairsOnce(open, |saturated|) && Pending(saturated, open, n)
    ensures GroebnerBasis(saturated, n) ==>
      (GroebnerBasis(basis, n) && SameIdeal(basis, generators, n) <==> NoRepeatedMinimum(saturated, n))
    ensures DistinctLeads(generators) ==> NoRepeatedMinimum(saturated, n)
  {
    hide Coeff, Less, InIdeal, Divides, Canonical, Redundant, Survivors, InterReduced, GroebnerBasis, HeadsReduced;
    hide SameLeads, NoRepeatedMinimum, Agrees, Within, DistinctLeads, Pending, PairCount;
    var gens; ghost var from, marks;
    gens, from, open, marks := Saturate(generators, s, n);
    AgreesTable(open, marks, |gens|);
    saturated := gens;
    ghost var at;
    basis, at := ReducedBasis(gens, s, n);
    WithinTransitive(basis, gens, generators, n);
    if DistinctLeads(generators) {
      SaturatedDistinct(gens, from, n);
    }
    if GroebnerBasis(gens, n) {
      ReducedExactly(gens, at, basis, n);
      if SameIdeal(basis, gens, n) { WithinTransitive(generators, gens, basis, n); }
      if SameIdeal(basis, generators, n) { WithinTransitive(gens, generators, basis, n); }
    }
  }
}
