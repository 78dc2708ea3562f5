/** Sparse multivariate polynomials (src/cas/Groebner.cpp:211-346) and the ideals they generate. */
module MultiPoly {
  import opened MonomialOrder

  /** `real` stands for the exact rational coefficients. */
  datatype Term = Term(coeff: real, mono: Mono)

  type Poly = seq<Term>

  ghost predicate InVars(p: Poly, n: nat) {
    forall i :: 0 <= i < |p| ==> |p[i].mono| == n
  }

  /** Strictly descending monomials, no zero coefficient: what `terms` always is between operations. */
  ghost predicate Canonical(p: Poly, n: nat) {
    && InVars(p, n)
    && (forall i :: 0 <= i < |p| ==> p[i].coeff != 0.0)
    && (forall i, j :: 0 <= i < j < |p| ==> Less(p[j].mono, p[i].mono))
  }

  /** The coefficient of `m`, adding up repeated terms. */
  ghost function Coeff(p: Poly, m: Mono): real {
    if p == [] then 0.0
    else Coeff(p[..|p| - 1], m) + (if p[|p| - 1].mono == m then p[|p| - 1].coeff else 0.0)
  }

  lemma CoeffAppend(p: Poly, t: Term, m: Mono)
    ensures Coeff(p + [t], m) == Coeff(p, m) + (if t.mono == m then t.coeff else 0.0)
  {
    assert (p + [t])[..|p|] == p;
  }

  lemma CoeffNext(p: Poly, i: nat, m: Mono)
    requires i < |p|
    ensures Coeff(p[..i + 1], m) == Coeff(p[..i], m) + (if p[i].mono == m then p[i].coeff else 0.0)
  {
    assert p[..i + 1] == p[..i] + [p[i]];
    CoeffAppend(p[..i], p[i], m);
  }

  lemma {:induction false} CoeffConcat(p: Poly, q: Poly, m: Mono)
    ensures Coeff(p + q, m) == Coeff(p, m) + Coeff(q, m)
  {
    if q == [] {
      assert p + q == p;
    } else {
      assert (p + q)[..|p + q| - 1] == p + q[..|q| - 1];
      CoeffConcat(p, q[..|q| - 1], m);
    }
  }

  /** A monomial that no term has. */
  lemma {:induction false} CoeffAbsent(p: Poly, m: Mono)
    requires forall i :: 0 <= i < |p| ==> p[i].mono != m
    ensures Coeff(p, m) == 0.0
  {
    if p != [] {
      CoeffAbsent(p[..|p| - 1], m);
    }
  }

  lemma {:induction false} CoeffAt(p: Poly, n: nat, i: nat)
    requires Canonical(p, n) && i < |p|
    ensures Coeff(p, p[i].mono) == p[i].coeff
  {
    var front := p[..|p| - 1];
    if i == |p| - 1 {
      forall j | 0 <= j < |front| ensures front[j].mono != p[i].mono { LessTrichotomy(p[i].mono, p[j].mono); }
      CoeffAbsent(front, p[i].mono);
    } else {
      CoeffAt(front, n, i);
      LessTrichotomy(p[|p| - 1].mono, p[i].mono);
    }
  }

  /** `m` is one of the monomials of `p`. */
  ghost predicate Occurs(p: Poly, m: Mono) {
    exists i :: 0 <= i < |p| && p[i].mono == m
  }

  lemma OccursIffNonZero(p: Poly, n: nat, m: Mono)
    requires Canonical(p, n)
    ensures Occurs(p, m) <==> Coeff(p, m) != 0.0
  {
    if i :| 0 <= i < |p| && p[i].mono == m {
      CoeffAt(p, n, i);
    } else {
      CoeffAbsent(p, m);
    }
  }

  /** The first term is the greatest one. */
  lemma LeadIsGreatest(p: Poly, n: nat, m: Mono)
    requires Canonical(p, n) && p != [] && |m| == n && Coeff(p, m) != 0.0
    ensures m == p[0].mono || Less(m, p[0].mono)
  {
    OccursIffNonZero(p, n, m);
  }

  /** The leading monomial is determined by the coefficients. */
  lemma LeadIs(p: Poly, n: nat, m: Mono)
    requires Canonical(p, n) && |m| == n && Coeff(p, m) != 0.0
    requires forall k: Mono :: |k| == n && Less(m, k) ==> Coeff(p, k) == 0.0
    ensures p != [] && p[0].mono == m && p[0].coeff == Coeff(p, m)
  {
    OccursIffNonZero(p, n, m);
    LeadIsGreatest(p, n, m);
    CoeffAt(p, n, 0);
  }

  /** Canonical polynomials with the same coefficients are the same sequence of terms. */
  lemma {:induction false} CanonicalUnique(p: Poly, q: Poly, n: nat)
    requires Canonical(p, n) && Canonical(q, n)
    requires forall m: Mono :: |m| == n ==> Coeff(p, m) == Coeff(q, m)
    ensures p == q
  {
    if p != [] {
      CoeffAt(p, n, 0);
      forall k: Mono | |k| == n && Less(p[0].mono, k) ensures Coeff(q, k) == 0.0 {
        if Coeff(p, k) != 0.0 { LeadIsGreatest(p, n, k); LessTrichotomy(k, p[0].mono); }
      }
      LeadIs(q, n, p[0].mono);
      assert p[0] == q[0];
      TailCanonical(p, n);
      TailCanonical(q, n);
      forall m: Mono | |m| == n ensures Coeff(p[1..], m) == Coeff(q[1..], m) {
        CoeffHead(p, m);
        CoeffHead(q, m);
      }
      CanonicalUnique(p[1..], q[1..], n);
      assert p == [p[0]] + p[1..] && q == [q[0]] + q[1..];
    } else if q != [] {
      CoeffAt(q, n, 0);
      CoeffAbsent(p, q[0].mono);
    }
  }

  lemma TailCanonical(p: Poly, n: nat)
    requires Canonical(p, n) && p != []
    ensures Canonical(p[1..], n)
    ensures forall m: Mono :: |m| == n && Coeff(p[1..], m) != 0.0 ==> Less(m, p[0].mono)
  {
    forall m: Mono | |m| == n && Coeff(p[1..], m) != 0.0 ensures Less(m, p[0].mono) {
      OccursIffNonZero(p[1..], n, m);
      var i :| 0 <= i < |p[1..]| && p[1..][i].mono == m;
      assert p[1..][i] == p[i + 1];
    }
  }

  lemma CoeffHead(p: Poly, m: Mono)
    requires p != []
    ensures Coeff(p, m) == Coeff(p[1..], m) + (if p[0].mono == m then p[0].coeff else 0.0)
  {
    assert p == [p[0]] + p[1..];
    CoeffConcat([p[0]], p[1..], m);
    assert [p[0]] == [] + [p[0]];
    CoeffAppend([], p[0], m);
  }

  // ----- cleanAndSort -----

  ghost predicate Sorted(p: Poly, n: nat) {
    InVars(p, n) && forall i, j :: 0 <= i < j < |p| ==> !Less(p[i].mono, p[j].mono)
  }

  ghost predicate SamePoly(p: Poly, q: Poly) {
    forall m :: Coeff(p, m) == Coeff(q, m)
  }

  /** std::sort by descending monomial, as an insertion sort. */
  method SortTerms(p: Poly, n: nat) returns (s: Poly)
    requires InVars(p, n)
    ensures Sorted(s, n) && SamePoly(s, p)
  {
    s := [];
    for i := 0 to |p|
      invariant Sorted(s, n) && SamePoly(s, p[..i])
    {
      ghost var before := s;
      s := Insert(s, p[i], n);
      forall m ensures Coeff(s, m) == Coeff(p[..i + 1], m) {
        CoeffNext(p, i, m);
        CoeffAppend(before, p[i], m);
      }
    }
    assert p[..|p|] == p;
  }

  method Insert(s: Poly, t: Term, n: nat) returns (r: Poly)
    requires Sorted(s, n) && |t.mono| == n
    ensures Sorted(r, n) && SamePoly(r, s + [t])
  {
    hide Coeff, Less;
    var i := 0;
    while i < |s| && Less(t.mono, s[i].mono)
      invariant 0 <= i <= |s| && forall j :: 0 <= j < i ==> Less(t.mono, s[j].mono)
    {
      i := i + 1;
    }
    r := s[..i] + [t] + s[i..];
    InsertSorts(s, t, i, n);
    forall m ensures Coeff(r, m) == Coeff(s + [t], m) { InsertAdds(s, t, i, m); }
  }

  lemma InsertSorts(s: Poly, t: Term, i: nat, n: nat)
    requires Sorted(s, n) && |t.mono| == n && i <= |s| && (forall j :: 0 <= j < i ==> Less(t.mono, s[j].mono))
    requires i < |s| ==> !Less(t.mono, s[i].mono)
    ensures Sorted(s[..i] + [t] + s[i..], n)
  {
    hide Less;
    forall j | i <= j < |s| ensures !Less(t.mono, s[j].mono) {
      LessTrichotomy(t.mono, s[i].mono);
      if Less(t.mono, s[j].mono) {
        LessTrichotomy(s[i].mono, s[j].mono);
        if i < j && t.mono != s[i].mono { LessTransitive(s[i].mono, t.mono, s[j].mono); }
      }
    }
    forall j | 0 <= j < i ensures !Less(s[j].mono, t.mono) { LessTrichotomy(t.mono, s[j].mono); }
  }

  lemma InsertAdds(s: Poly, t: Term, i: nat, m: Mono)
    requires i <= |s|
    ensures Coeff(s[..i] + [t] + s[i..], m) == Coeff(s + [t], m)
  {
    hide Coeff;
    CoeffConcat(s[..i] + [t], s[i..], m);
    CoeffAppend(s[..i], t, m);
    CoeffConcat(s[..i], s[i..], m);
    assert s[..i] + s[i..] == s;
    CoeffAppend(s, t, m);
  }

  /** Sorts and merges equal monomials, dropping what cancels. */
  method CleanAndSort(p: Poly, n: nat) returns (cleaned: Poly)
    requires InVars(p, n)
    ensures Canonical(cleaned, n) && SamePoly(cleaned, p)
  {
    hide Coeff, Less;
    var s := SortTerms(p, n);
    cleaned := [];
    for i := 0 to |s|
      invariant Canonical(cleaned, n) && SamePoly(cleaned, s[..i])
      invariant cleaned != [] && i < |s| ==> !Less(cleaned[|cleaned| - 1].mono, s[i].mono)
      invariant forall j, k :: 0 <= j < |cleaned| && i <= k < |s| ==> !Less(cleaned[j].mono, s[k].mono)
    {
      var t := s[i];
      ghost var before := cleaned;
      if cleaned == [] || cleaned[|cleaned| - 1].mono != t.mono {
        if t.coeff != 0.0 {
          AppendSmaller(cleaned, t, n);
          cleaned := cleaned + [t];
        }
      } else {
        var last := cleaned[|cleaned| - 1];
        cleaned := cleaned[..|cleaned| - 1];
        if last.coeff + t.coeff != 0.0 {
          cleaned := cleaned + [Term(last.coeff + t.coeff, last.mono)];
        }
      }
      forall m ensures Coeff(cleaned, m) == Coeff(s[..i + 1], m) {
        CoeffNext(s, i, m);
        TakenIn(before, t, cleaned, m);
      }
    }
    assert s[..|s|] == s;
  }

  /** Taking in a term adds its coefficient, whether it is appended, merged with the last one or cancelled. */
  lemma TakenIn(before: Poly, t: Term, after: Poly, m: Mono)
    requires
      || after == before + [t]
      || (after == before && t.coeff == 0.0)
      || (before != [] && before[|before| - 1].mono == t.mono
          && var last, front := before[|before| - 1], before[..|before| - 1];
            if last.coeff + t.coeff != 0.0 then after == front + [Term(last.coeff + t.coeff, last.mono)]
              else after == front)
    ensures Coeff(after, m) == Coeff(before, m) + if t.mono == m then t.coeff else 0.0
  {
    hide Coeff;
    CoeffAppend(before, t, m);
    if before != [] {
      var last, front := before[|before| - 1], before[..|before| - 1];
      assert before == front + [last];
      CoeffAppend(front, last, m);
      CoeffAppend(front, Term(last.coeff + t.coeff, last.mono), m);
    }
  }

  /** A term below the last one can be appended. */
  lemma AppendSmaller(p: Poly, t: Term, n: nat)
    requires Canonical(p, n) && |t.mono| == n && t.coeff != 0.0
    requires p != [] ==> p[|p| - 1].mono != t.mono && !Less(p[|p| - 1].mono, t.mono)
    ensures Canonical(p + [t], n)
  {
    if p != [] {
      LessTrichotomy(p[|p| - 1].mono, t.mono);
      forall j | 0 <= j < |p| - 1 ensures Less(t.mono, p[j].mono) {
        LessTransitive(t.mono, p[|p| - 1].mono, p[j].mono);
      }
    }
  }

  // ----- operator- -----

  /** What the merge has done after taking `i` terms of `p` and `j` of `q`. */
  ghost predicate Merged(p: Poly, q: Poly, i: nat, j: nat, res: Poly, n: nat)
    requires i <= |p| && j <= |q|
  {
    && Canonical(res, n) && (forall m :: Coeff(res, m) == Coeff(p[..i], m) - Coeff(q[..j], m))
    && (forall r :: 0 <= r < |res| && i < |p| ==> |p[i].mono| == n && Less(p[i].mono, res[r].mono))
    && (forall r :: 0 <= r < |res| && j < |q| ==> |q[j].mono| == n && Less(q[j].mono, res[r].mono))
  }

  lemma MergeStep(p: Poly, q: Poly, i: nat, j: nat, res: Poly, n: nat, i': nat, j': nat, t: Term)
    requires Canonical(p, n) && Canonical(q, n) && i <= i' <= |p| && j <= j' <= |q| && i' <= i + 1 && j' <= j + 1
    requires Merged(p, q, i, j, res, n) && |t.mono| == n
    requires i' > i ==> p[i].mono == t.mono
    requires j' > j ==> q[j].mono == t.mono
    requires i' > i || j' > j
    requires i' < |p| ==> Less(p[i'].mono, t.mono)
    requires j' < |q| ==> Less(q[j'].mono, t.mono)
    requires t.coeff == (if i' > i then p[i].coeff else 0.0) - (if j' > j then q[j].coeff else 0.0)
    ensures Merged(p, q, i', j', if t.coeff != 0.0 then res + [t] else res, n)
  {
    var next := if t.coeff != 0.0 then res + [t] else res;
    forall m ensures Coeff(next, m) == Coeff(p[..i'], m) - Coeff(q[..j'], m) {
      CoeffAppend(res, t, m);
      if i' > i { CoeffNext(p, i, m); }
      if j' > j { CoeffNext(q, j, m); }
    }
    forall r | 0 <= r < |res| && i' < |p| ensures Less(p[i'].mono, res[r].mono) {
      if i' > i { LessTransitive(p[i'].mono, p[i].mono, res[r].mono); }
    }
    forall r | 0 <= r < |res| && j' < |q| ensures Less(q[j'].mono, res[r].mono) {
      if j' > j { LessTransitive(q[j'].mono, q[j].mono, res[r].mono); }
    }
  }

  method Subtract(p: Poly, q: Poly, n: nat) returns (res: Poly)
    requires Canonical(p, n) && Canonical(q, n)
    ensures Canonical(res, n) && forall m :: Coeff(res, m) == Coeff(p, m) - Coeff(q, m)
  {
    hide Less, Coeff, Merged;
    res := [];
    var i, j := 0, 0;
    MergeStart(p, q, n);
    while i < |p| && j < |q|
      invariant 0 <= i <= |p| && 0 <= j <= |q| && Merged(p, q, i, j, res, n)
    {
      LessTrichotomy(p[i].mono, q[j].mono);
      ghost var before := res;
      if Less(p[i].mono, q[j].mono) {
        var t := Term(0.0 - q[j].coeff, q[j].mono);
        MergeStep(p, q, i, j, res, n, i, j + 1, t);
        res := res + [t];
        j := j + 1;
      } else if Less(q[j].mono, p[i].mono) {
        MergeStep(p, q, i, j, res, n, i + 1, j, p[i]);
        res := res + [p[i]];
        i := i + 1;
      } else {
        var diff := p[i].coeff - q[j].coeff;
        MergeStep(p, q, i, j, res, n, i + 1, j + 1, Term(diff, p[i].mono));
        if diff != 0.0 {
          res := res + [Term(diff, p[i].mono)];
        }
        i, j := i + 1, j + 1;
      }
    }
    while i < |p|
      invariant 0 <= i <= |p| && 0 <= j <= |q| && (i == |p| || j == |q|) && Merged(p, q, i, j, res, n)
    {
      MergeStep(p, q, i, j, res, n, i + 1, j, p[i]);
      res := res + [p[i]];
      i := i + 1;
    }
    while j < |q|
      invariant i == |p| && 0 <= j <= |q| && Merged(p, q, i, j, res, n)
    {
      var t := Term(0.0 - q[j].coeff, q[j].mono);
      MergeStep(p, q, i, j, res, n, i, j + 1, t);
      res := res + [t];
      j := j + 1;
    }
    MergeEnd(p, q, res, n);
  }

  lemma MergeStart(p: Poly, q: Poly, n: nat)
    ensures Merged(p, q, 0, 0, [], n)
  {
  }

  lemma MergeEnd(p: Poly, q: Poly, res: Poly, n: nat)
    requires Merged(p, q, |p|, |q|, res, n)
    ensures Canonical(res, n) && forall m :: Coeff(res, m) == Coeff(p, m) - Coeff(q, m)
  {
    assert p[..|p|] == p && q[..|q|] == q;
  }

  // ----- operator*(Term) -----

  /** The coefficients of `c` times `x^m` times a polynomial. */
  ghost function Shift(c: real, m: Mono, g: Poly, k: Mono): real {
    if |k| == |m| && Divides(m, k) then c * Coeff(g, Over(k, m)) else 0.0
  }

  lemma Above(p: Poly, n: nat, k: Mono)
    requires Canonical(p, n) && p != [] && |k| == n && Less(p[0].mono, k)
    ensures Coeff(p, k) == 0.0
  {
    if Coeff(p, k) != 0.0 {
      LeadIsGreatest(p, n, k);
      LessTrichotomy(k, p[0].mono);
    }
  }

  lemma ShiftAtLead(b: real, m: Mono, g: Poly, n: nat)
    requires Canonical(g, n) && g != [] && |m| == n
    ensures Shift(b, m, g, Times(m, g[0].mono)) == b * g[0].coeff
  {
    hide Coeff, Less;
    TimesOver(m, g[0].mono);
    CoeffAt(g, n, 0);
  }

  /** A multiple has nothing above the multiple of the leading monomial. */
  lemma ShiftAbove(b: real, m: Mono, g: Poly, n: nat, k: Mono)
    requires Canonical(g, n) && g != [] && |m| == |k| == n && Less(Times(m, g[0].mono), k)
    ensures Shift(b, m, g, k) == 0.0
  {
    hide Coeff, Less;
    if Divides(m, k) {
      TimesOver(m, k);
      LessTimes(g[0].mono, Over(k, m), m);
      Above(g, n, Over(k, m));
      assert b * 0.0 == 0.0;
    }
  }

  method TimesTerm(p: Poly, c: real, m: Mono, n: nat) returns (res: Poly)
    requires InVars(p, n) && |m| == n
    ensures Canonical(res, n) && forall k: Mono :: |k| == n ==> Coeff(res, k) == Shift(c, m, p, k)
  {
    res := [];
    for i := 0 to |p|
      invariant InVars(res, n) && forall k: Mono :: |k| == n ==> Coeff(res, k) == Shift(c, m, p[..i], k)
    {
      var t := Term(p[i].coeff * c, Times(p[i].mono, m));
      ghost var before := res;
      res := res + [t];
      forall k: Mono | |k| == n ensures Coeff(res, k) == Shift(c, m, p[..i + 1], k) {
        ShiftNext(c, m, p, i, k, before);
      }
    }
    assert p[..|p|] == p;
    res := CleanAndSort(res, n);
  }

  lemma ShiftNext(c: real, m: Mono, p: Poly, i: nat, k: Mono, before: Poly)
    requires i < |p| && |p[i].mono| == |m| == |k| && Coeff(before, k) == Shift(c, m, p[..i], k)
    ensures Coeff(before + [Term(p[i].coeff * c, Times(p[i].mono, m))], k) == Shift(c, m, p[..i + 1], k)
  {
    hide Coeff, Times, Over, Divides;
    CoeffAppend(before, Term(p[i].coeff * c, Times(p[i].mono, m)), k);
    CoeffNext(p, i, Over(k, m));
    TimesOver(m, p[i].mono);
    if Divides(m, k) {
      TimesOver(m, k);
      assert Times(p[i].mono, m) == k <==> p[i].mono == Over(k, m);
      Distribute(c, Coeff(p[..i], Over(k, m)), if p[i].mono == Over(k, m) then p[i].coeff else 0.0);
      Distribute(p[i].coeff, c, 0.0);
    } else {
      assert Times(p[i].mono, m) != k;
    }
  }

  /** Every coefficient times `c`, in place: the loops that divide by a common content or clear signs. */
  method ScaleInPlace(p: Poly, c: real, n: nat) returns (res: Poly)
    requires Canonical(p, n) && c != 0.0
    ensures Canonical(res, n) && forall k :: Coeff(res, k) == c * Coeff(p, k)
    ensures |res| == |p| && forall i :: 0 <= i < |p| ==> res[i].mono == p[i].mono
  {
    res := p;
    for i := 0 to |p|
      invariant |res| == |p|
      invariant forall j :: 0 <= j < i ==> res[j] == Term(c * p[j].coeff, p[j].mono)
      invariant forall j :: i <= j < |p| ==> res[j] == p[j]
    {
      res := res[i := Term(c * res[i].coeff, res[i].mono)];
    }
    forall i | 0 <= i < |p| ensures res[i].coeff != 0.0 { NonZeroProduct(c, p[i].coeff); }
    forall k ensures Coeff(res, k) == c * Coeff(p, k) { ScaledCoeff(p, res, c, k); }
  }

  lemma NonZeroProduct(x: real, y: real)
    requires x != 0.0 && y != 0.0
    ensures x * y != 0.0
  {
  }

  lemma {:induction false} ScaledCoeff(p: Poly, q: Poly, c: real, k: Mono)
    requires |p| == |q| && forall i :: 0 <= i < |p| ==> q[i] == Term(c * p[i].coeff, p[i].mono)
    ensures Coeff(q, k) == c * Coeff(p, k)
  {
    if p != [] {
      ScaledCoeff(p[..|p| - 1], q[..|q| - 1], c, k);
      Distribute(c, Coeff(p[..|p| - 1], k), if p[|p| - 1].mono == k then p[|p| - 1].coeff else 0.0);
    }
  }

  lemma Distribute(c: real, x: real, y: real)
    ensures c * (x + y) == c * x + c * y && x * c == c * x
  {
  }
}
