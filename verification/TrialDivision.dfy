/** Exact division of integer polynomials and centred residues (src/cas/Factorization.cpp:611-617, 1179-1203). */
module TrialDivision {
  import opened IntegerGcd
  import opened IntPoly
  import opened ModularPoly

  /** a = q * b + r over the integers */
  ghost predicate Exactly(a: Poly, q: Poly, b: Poly, r: Poly) {
    forall k :: At(a, k) == Conv(q, b, k) + At(r, k)
  }

  /** `b` divides `a` over the integers. */
  ghost predicate DividesOver(b: Poly, a: Poly) {
    b != [] && exists q :: Trimmed(q) && a == Times(q, b)
  }

  /** Every quotient has the coefficients found so far. */
  ghost predicate Agreeing(a: Poly, b: Poly, q: Poly, i: int) {
    forall s :: Trimmed(s) && a == Times(s, b) ==> |s| == |q| && forall k :: 0 <= k < |q| && k >= i ==> s[k] == q[k]
  }

  /** The coefficients above position i + |b| - 2 are gone, and none of the quotient below `i` is set. */
  ghost predicate Progress(a0: Poly, b: Poly, q: Poly, a: Poly, i: int) {
    && Exactly(a0, q, b, a)
    && (forall k :: 0 <= k < |a| && k >= i + |b| - 1 ==> a[k] == 0)
    && (forall k :: 0 <= k < |q| && k < i ==> q[k] == 0)
  }

  /** The coefficient that the next step looks at belongs to the quotient's next coefficient. */
  lemma NextCoefficient(a0: Poly, b: Poly, q: Poly, a: Poly, i: nat, s: Poly)
    requires b != [] && i < |q| && i + |b| - 1 < |a| && Progress(a0, b, q, a, i + 1)
    requires a0 == Times(s, b) && |s| == |q| && forall k :: i + 1 <= k < |q| ==> s[k] == q[k]
    ensures a[i + |b| - 1] == s[i] * b[|b| - 1]
  {
    hide Conv;
    var top := i + |b| - 1;
    var low := s[..i + 1];
    assert Combines(s, q, 1, 0, low) by {
      forall k ensures At(s, k) == At(q, k) + 1 * At(low, k - 0) { }
    }
    CombinesConv(s, q, 1, 0, low, b, top);
    TimesAt(s, b);
    assert At(a0, top) == Conv(q, b, top) + At(a, top);
    ConvNext(s, i, b, top);
    ConvOutside(s[..i], b, top);
    assert top - i == |b| - 1;
  }

  lemma DivideOne(a0: Poly, b: Poly, q: Poly, a: Poly, i: nat, quot: int, a': Poly)
    requires b != [] && i < |q| && i + |b| - 1 < |a| && |a'| == |a| && Progress(a0, b, q, a, i + 1)
    requires a[i + |b| - 1] == quot * b[|b| - 1]
    requires forall k :: At(a', k) == At(a, k) - quot * At(b, k - i)
    ensures Progress(a0, b, q[i := quot], a', i)
  {
    hide Conv;
    var q' := q[i := quot];
    assert Combines(q', q, quot, i, [1]);
    forall k ensures At(a0, k) == Conv(q', b, k) + At(a', k) {
      CombinesConv(q', q, quot, i, [1], b, k);
      MonomialConv(b, k - i);
    }
    forall k | 0 <= k < |a'| && k >= i + |b| - 1 ensures a'[k] == 0 {
      assert At(a', k) == At(a, k) - quot * At(b, k - i);
      if k == i + |b| - 1 { assert At(b, k - i) == b[|b| - 1]; } else { assert At(b, k - i) == 0; }
    }
  }

  method SubtractMultiple(a: Poly, quot: int, i: nat, b: Poly) returns (r: Poly)
    requires i + |b| <= |a|
    ensures |r| == |a| && forall k :: At(r, k) == At(a, k) - quot * At(b, k - i)
  {
    r := a;
    for j := 0 to |b|
      invariant |r| == |a|
      invariant forall k :: 0 <= k < |a| && !(i <= k < i + j) ==> r[k] == a[k]
      invariant forall l :: 0 <= l < j ==> r[i + l] == a[i + l] - quot * b[l]
    {
      r := r[i + j := r[i + j] - quot * b[j]];
    }
    forall k ensures At(r, k) == At(a, k) - quot * At(b, k - i) {
      if i <= k < i + |b| {
        assert r[i + (k - i)] == a[i + (k - i)] - quot * b[k - i];
      } else {
        assert quot * 0 == 0;
      }
    }
  }

  lemma RemainderZero(x: int, y: int)
    requires y != 0
    ensures var m := if y > 0 then y else -y; TruncRem(x, m) == 0 <==> Divides(y, x)
  {
    var m := if y > 0 then y else -y;
    var r := TruncRem(x, m);
    if r == 0 {
      var q :| x - r == m * q;
      assert x == y * (if y > 0 then q else -q);
    }
    if Divides(y, x) {
      var q :| x == y * q;
      assert x == m * (if y > 0 then q else -q);
      assert Divides(m, x);
      DividesSum(m, x, x - r, 1, -1);
      if r != 0 { DivisorBound(m, r); }
    }
  }

  /** The quotient of an exact division, with either sign of the divisor. */
  function ExactQuotient(x: int, y: int): (q: int)
    requires y != 0 && Divides(y, x)
    ensures x == q * y
  {
    ExactQuotientIs(x, y);
    if y > 0 then TruncDiv(x, y) else -TruncDiv(x, -y)
  }

  lemma ExactQuotientIs(x: int, y: int)
    requires y != 0 && Divides(y, x)
    ensures x == (if y > 0 then TruncDiv(x, y) else -TruncDiv(x, -y)) * y
  {
    RemainderZero(x, y);
    var m := if y > 0 then y else -y;
    assert TruncRem(x, m) == x - m * TruncDiv(x, m);
  }

  /** Succeeds exactly when `b` divides `a` over the integers, and then with the quotient. */
  method TryDivide(a0: Poly, b: Poly) returns (exact: bool, q: Poly)
    requires Trimmed(a0) && a0 != [] && Trimmed(b)
    ensures exact <==> DividesOver(b, a0)
    ensures exact ==> Trimmed(q) && a0 == Times(q, b)
  {
    hide Conv, Divides, Progress, Agreeing, Times, TruncDiv;
    if b == [] || |a0| < |b| {
      TooShort(a0, b);
      return false, [];
    }
    var a := a0;
    q := seq(|a| - |b| + 1, _ => 0);
    var lead := b[|b| - 1];
    StartTrial(a0, b, q);
    var i := |a| - |b|;
    ghost var length := |a|;
    while i >= 0
      invariant -1 <= i <= length - |b| && |a| == length && |q| == length - |b| + 1
      invariant Progress(a0, b, q, a, i + 1) && Agreeing(a0, b, q, i + 1)
    {
      var top := a[i + |b| - 1];
      if top == 0 {
        SkipTrial(a0, b, q, a, i);
      } else {
        var magnitude := if lead > 0 then lead else -lead;
        RemainderZero(top, lead);
        if TruncRem(top, magnitude) != 0 {
          InexactRefutes(a0, b, q, a, i);
          return false, q;
        }
        var quot := ExactQuotient(top, lead);
        var next := SubtractMultiple(a, quot, i, b);
        DivideOne(a0, b, q, a, i, quot, next);
        AgreeFurther(a0, b, q, a, i, quot);
        q := q[i := quot];
        a := next;
      }
      i := i - 1;
    }
    ghost var left := a;
    a := Trim(a);
    exact := a == [];
    if Same(left, []) { TrimmedSame(a, []); }
    EndTrial(a0, b, q, left, exact);
    return exact, q;
  }

  lemma TooShort(a: Poly, b: Poly)
    requires a != [] && (b == [] || |a| < |b|)
    ensures !DividesOver(b, a)
  {
  }

  lemma StartTrial(a: Poly, b: Poly, q: Poly)
    requires a != [] && b != [] && |a| >= |b| && |q| == |a| - |b| + 1 && forall k :: 0 <= k < |q| ==> q[k] == 0
    ensures Progress(a, b, q, a, |a| - |b| + 1) && Agreeing(a, b, q, |a| - |b| + 1)
  {
    forall k ensures At(a, k) == Conv(q, b, k) + At(a, k) {
      assert Combines(q, [], 0, 0, []);
      CombinesConv(q, [], 0, 0, [], b, k);
    }
  }

  lemma SkipTrial(a0: Poly, b: Poly, q: Poly, a: Poly, i: nat)
    requires b != [] && b[|b| - 1] != 0 && i < |q| && i + |b| - 1 < |a| && a[i + |b| - 1] == 0
    requires Progress(a0, b, q, a, i + 1) && Agreeing(a0, b, q, i + 1)
    ensures Progress(a0, b, q, a, i) && Agreeing(a0, b, q, i)
  {
    hide Exactly, Times;
    forall s | Trimmed(s) && a0 == Times(s, b)
      ensures |s| == |q| && forall k :: 0 <= k < |q| && k >= i ==> s[k] == q[k]
    {
      NextCoefficient(a0, b, q, a, i, s);
      if s[i] != 0 { NonZeroTimes(s[i], b[|b| - 1]); }
    }
  }

  lemma AgreeFurther(a0: Poly, b: Poly, q: Poly, a: Poly, i: nat, quot: int)
    requires b != [] && b[|b| - 1] != 0 && i < |q| && i + |b| - 1 < |a| && a[i + |b| - 1] == quot * b[|b| - 1]
    requires Progress(a0, b, q, a, i + 1) && Agreeing(a0, b, q, i + 1)
    ensures Agreeing(a0, b, q[i := quot], i)
  {
    hide Exactly, Times;
    forall s | Trimmed(s) && a0 == Times(s, b)
      ensures |s| == |q| && forall k :: 0 <= k < |q| && k >= i ==> s[k] == q[i := quot][k]
    {
      NextCoefficient(a0, b, q, a, i, s);
      CancelFactor(s[i], quot, b[|b| - 1]);
    }
  }

  lemma CancelFactor(x: int, y: int, z: int)
    requires z != 0 && x * z == y * z
    ensures x == y
  {
    assert (x - y) * z == 0;
    if x != y { NonZeroTimes(x - y, z); }
  }

  lemma InexactRefutes(a0: Poly, b: Poly, q: Poly, a: Poly, i: nat)
    requires b != [] && i < |q| && i + |b| - 1 < |a| && !Divides(b[|b| - 1], a[i + |b| - 1])
    requires Progress(a0, b, q, a, i + 1) && Agreeing(a0, b, q, i + 1)
    ensures !DividesOver(b, a0)
  {
    hide Exactly, Times, Divides;
    if DividesOver(b, a0) {
      var s :| Trimmed(s) && a0 == Times(s, b);
      NextCoefficient(a0, b, q, a, i, s);
      DividesTimes(b[|b| - 1], b[|b| - 1], s[i]) by { DividesSelf(b[|b| - 1]); }
    }
  }

  lemma EndTrial(a0: Poly, b: Poly, q: Poly, a: Poly, exact: bool)
    requires Trimmed(a0) && Trimmed(b) && a0 != [] && b != [] && |a0| >= |b| && |q| == |a0| - |b| + 1 && |a| == |a0|
    requires Progress(a0, b, q, a, 0) && Agreeing(a0, b, q, 0)
    requires exact <==> Same(a, [])
    ensures exact <==> DividesOver(b, a0)
    ensures exact ==> Trimmed(q) && a0 == Times(q, b)
  {
    hide Conv, Agreeing;
    TimesAt(q, b);
    if exact {
      forall k ensures At(a0, k) == At(Times(q, b), k) {
        assert At(a, k) == At([], k);
      }
      assert |Times(q, b)| == |a0|;
      forall k: nat | k < |a0| ensures a0[k] == Times(q, b)[k] { assert At(a0, k) == At(Times(q, b), k); }
      TimesLead(q, b);
      assert a0 == Times(q, b);
    }
    if DividesOver(b, a0) {
      QuotientFound(a0, b, q);
      forall k ensures At(a, k) == At([], k) {
        assert At(a0, k) == Conv(q, b, k) + At(a, k);
      }
    }
  }

  lemma QuotientFound(a0: Poly, b: Poly, q: Poly)
    requires DividesOver(b, a0) && Agreeing(a0, b, q, 0)
    ensures a0 == Times(q, b)
  {
    hide Times;
    var s :| Trimmed(s) && a0 == Times(s, b);
    assert s == q;
  }

  // ----- centerModP -----

  function Center(a: int, p: int): (r: int)
    requires p > 0
    ensures Divides(p, a - r) && p / 2 - p < r <= p / 2
  {
    var x := Residue(a, p);
    if x > p / 2 then
      DividesSelf(p);
      DividesSum(p, a - x, p, 1, 1);
      x - p
    else x
  }

  ghost predicate Centered(a: Poly, p: int) {
    p > 0 && Trimmed(a) && forall i :: 0 <= i < |a| ==> p / 2 - p < a[i] <= p / 2
  }

  /** Centred representatives are unique. */
  lemma CenteredUnique(a: Poly, b: Poly, p: int)
    requires Centered(a, p) && Centered(b, p) && forall k :: Divides(p, At(a, k) - At(b, k))
    ensures a == b
  {
    hide Divides;
    forall k ensures At(a, k) == At(b, k) {
      assert Divides(p, At(a, k) - At(b, k));
      if At(a, k) != At(b, k) { DivisorBound(p, At(a, k) - At(b, k)); }
    }
    TrimmedSame(a, b);
  }
}
