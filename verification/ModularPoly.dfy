/** Polynomials over Z_p as canonical residue vectors (src/cas/Factorization.cpp:609-736). */
module ModularPoly {
  import opened IntegerGcd
  import opened IntPoly
  import opened PolyCongruence

  datatype Result<T> = Ok(value: T) | NotInvertible | DivisionByZero

  // ----- The division of the host language, which truncates toward zero -----

  function TruncDiv(x: int, y: int): int
    requires y > 0
  {
    if x >= 0 then x / y else -(-x / y)
  }

  function TruncRem(x: int, y: int): (r: int)
    requires y > 0
    ensures -y < r < y && Divides(y, x - r) && (x >= 0 ==> r >= 0) && (x <= 0 ==> r <= 0)
  {
    TruncRemDivides(x, y);
    x - y * TruncDiv(x, y)
  }

  lemma TruncRemDivides(x: int, y: int)
    requires y > 0
    ensures var r := x - y * TruncDiv(x, y);
      -y < r < y && Divides(y, x - r) && (x >= 0 ==> r >= 0) && (x <= 0 ==> r <= 0)
  {
    var q := TruncDiv(x, y);
    assert x - (x - y * q) == y * q;
    if x >= 0 {
      assert x == y * (x / y) + x % y;
    } else {
      assert -x == y * (-x / y) + -x % y;
      assert y * -(-x / y) == -(y * (-x / y));
    }
  }

  /** x % p, lifted to the least non-negative residue. */
  function Residue(x: int, p: int): (r: int)
    requires p > 0
    ensures 0 <= r < p && Divides(p, x - r)
  {
    var r := TruncRem(x, p);
    if r < 0 then
      DividesSelf(p);
      DividesSum(p, x - r, p, 1, -1);
      r + p
    else r
  }

  lemma ResidueUnique(x: int, y: int, p: int)
    requires p > 0 && 0 <= x < p && 0 <= y < p && Divides(p, x - y)
    ensures x == y
  {
    if x != y { DivisorBound(p, x - y); }
  }

  lemma DividesFlip(p: int, x: int, y: int)
    requires Divides(p, x - y)
    ensures Divides(p, y - x)
  {
    DividesTimes(p, x - y, -1);
  }

  // ----- invModP -----

  /** The loop invariant of the extended Euclidean algorithm, with the bound that keeps the cofactors small. */
  ghost predicate Euclid(a: int, p: int, t: int, newt: int, r: int, newr: int) {
    && 0 <= newr < r <= p
    && Divides(p, t * a - r) && Divides(p, newt * a - newr)
    && t * newt <= 0 && Abs(t) <= Abs(newt) && Abs(t) * newr + Abs(newt) * r == p
  }

  lemma EuclidStep(a: int, p: int, t: int, newt: int, r: int, newr: int, q: int)
    requires Euclid(a, p, t, newt, r, newr) && newr > 0 && q == TruncDiv(r, newr)
    ensures Euclid(a, p, newt, t - q * newt, newr, r - q * newr)
    ensures 0 <= r - q * newr < newr && Gcd(newr, r - q * newr) == Gcd(r, newr)
  {
    hide Divides, TruncDiv, Abs, Gcd;
    QuotientRest(r, newr, q);
    DividesSum(p, t * a - r, newt * a - newr, 1, -q);
    CombineCofactors(t, newt, a, r, newr, q);
    CofactorSigns(t, newt, q);
    CofactorBound(Abs(t), Abs(newt), r, newr, q);
    EuclidIntro(a, p, newt, t - q * newt, newr, r - q * newr);
  }

  lemma EuclidIntro(a: int, p: int, t: int, newt: int, r: int, newr: int)
    requires 0 <= newr < r <= p && Divides(p, t * a - r) && Divides(p, newt * a - newr)
    requires t * newt <= 0 && Abs(t) <= Abs(newt) && Abs(t) * newr + Abs(newt) * r == p
    ensures Euclid(a, p, t, newt, r, newr)
  {
    hide Divides, Abs;
  }

  lemma QuotientRest(r: int, newr: int, q: int)
    requires 0 < newr < r && q == TruncDiv(r, newr)
    ensures 0 <= r - q * newr < newr && q >= 1 && Gcd(newr, r - q * newr) == Gcd(r, newr)
  {
    assert r == newr * (r / newr) + r % newr;
    assert r - q * newr == r % newr;
  }

  lemma CombineCofactors(t: int, newt: int, a: int, r: int, newr: int, q: int)
    ensures 1 * (t * a - r) + -q * (newt * a - newr) == (t - q * newt) * a - (r - q * newr)
  {
    assert q * (newt * a) == (q * newt) * a;
  }

  lemma CofactorSigns(t: int, newt: int, q: int)
    requires t * newt <= 0 && q >= 1
    ensures newt * (t - q * newt) <= 0 && Abs(t - q * newt) == Abs(t) + q * Abs(newt) && q * Abs(newt) >= Abs(newt)
  {
    if newt == 0 {
    } else if newt > 0 {
      assert t <= 0;
      assert q * newt > 0;
    } else {
      assert t >= 0;
      assert q * newt < 0;
      assert q * newt == -(q * -newt);
    }
  }

  lemma CofactorBound(t: nat, newt: nat, r: int, newr: int, q: int)
    ensures newt * (r - q * newr) + (t + q * newt) * newr == t * newr + newt * r
  {
    assert newt * (q * newr) == (q * newt) * newr;
  }

  /** The inverse of `a`, or the report that there is none. */
  method InverseMod(a: int, p: int) returns (res: Result<int>)
    requires p > 1
    ensures res.Ok? <==> Gcd(p, Residue(a, p)) == 1
    ensures res.Ok? ==> 0 <= res.value < p && Divides(p, res.value * a - 1)
    ensures !res.Ok? ==> res.NotInvertible?
  {
    hide Divides, Euclid, Gcd, TruncDiv;
    var t, newt := 0, 1;
    var r, newr := p, TruncRem(a, p);
    if newr < 0 { newr := newr + p; }
    assert newr == Residue(a, p);
    EuclidStart(a, p, newr);
    while newr != 0
      invariant Euclid(a, p, t, newt, r, newr) && 0 <= newr < r
      invariant Gcd(r, newr) == Gcd(p, Residue(a, p))
      decreases newr
    {
      var quotient := TruncDiv(r, newr);
      EuclidStep(a, p, t, newt, r, newr, quotient);
      var tempT := t - quotient * newt;
      t, newt := newt, tempT;
      var tempR := r - quotient * newr;
      r, newr := newr, tempR;
    }
    GcdEnd(r);
    if r > 1 {
      return NotInvertible;
    }
    EuclidEnd(a, p, t, newt, r);
    if t < 0 {
      SameInverse(a, p, t, Residue(t, p));
      t := TruncRem(t, p);
      if t < 0 { t := t + p; }
    }
    return Ok(t);
  }

  lemma GcdEnd(r: nat)
    ensures Gcd(r, 0) == r
  {
  }

  lemma EuclidStart(a: int, p: int, r: int)
    requires p > 1 && r == Residue(a, p)
    ensures Euclid(a, p, 0, 1, p, r)
  {
    DividesSelf(p);
    DividesTimes(p, p, -1);
    assert 0 * a - p == -1 * p;
  }

  lemma EuclidEnd(a: int, p: int, t: int, newt: int, r: int)
    requires p > 1 && Euclid(a, p, t, newt, r, 0) && r <= 1
    ensures r == 1 && Divides(p, t * a - 1) && -p < t < p
  {
    hide Divides;
    assert Abs(newt) == p;
    if Abs(t) == p {
      DividesSelf(p);
      DividesTimes(p, p, if t > 0 then a else -a);
      DividesSum(p, t * a, t * a - 1, 1, -1);
      DivisorBound(p, 1);
    }
  }

  lemma SameInverse(a: int, p: int, t: int, u: int)
    requires Divides(p, t * a - 1) && Divides(p, t - u)
    ensures Divides(p, u * a - 1)
  {
    hide Divides;
    DividesTimes(p, t - u, a);
    DividesSum(p, t * a - 1, (t - u) * a, 1, -1);
    assert (t - u) * a == t * a - u * a;
  }

  // ----- Canonical residue vectors -----

  ghost predicate Residues(a: Poly, p: int) {
    forall i :: 0 <= i < |a| ==> 0 <= a[i] < p
  }

  ghost predicate Canonical(a: Poly, p: int) {
    Residues(a, p) && Trimmed(a)
  }

  /** Canonical vectors that agree modulo p are the same. */
  lemma CanonicalUnique(a: Poly, b: Poly, p: int)
    requires p > 0 && Canonical(a, p) && Canonical(b, p) && EqMod(a, b, p)
    ensures a == b
  {
    hide Divides;
    forall k ensures At(a, k) == At(b, k) {
      assert Divides(p, At(a, k) - At(b, k));
      ResidueUnique(At(a, k), At(b, k), p);
    }
    TrimmedSame(a, b);
  }

  /** trimP */
  method Trim(a: Poly) returns (r: Poly)
    ensures Trimmed(r) && Same(r, a) && r <= a
  {
    r := a;
    while r != [] && r[|r| - 1] == 0
      invariant r <= a && Same(r, a)
      decreases |r|
    {
      r := r[..|r| - 1];
    }
  }

  lemma TrimResidues(a: Poly, r: Poly, p: int)
    requires Residues(a, p) && r <= a && Trimmed(r)
    ensures Canonical(r, p)
  {
  }

  /** subP */
  method Subtract(a: Poly, b: Poly, p: int) returns (res: Poly)
    requires p > 0
    ensures Canonical(res, p) && EqMod(res, Add(a, -1, b), p)
  {
    hide Divides, TruncRem, Add;
    var n := if |a| > |b| then |a| else |b|;
    res := seq(n, _ => 0);
    for i := 0 to n
      invariant |res| == n && forall k :: 0 <= k < i ==> res[k] == Residue(At(a, k) - At(b, k), p)
    {
      var va := if i < |a| then a[i] else 0;
      var vb := if i < |b| then b[i] else 0;
      var diff := TruncRem(va - vb, p);
      if diff < 0 { diff := diff + p; }
      assert diff == Residue(At(a, i) - At(b, i), p);
      res := res[i := diff];
    }
    ghost var full := res;
    res := Trim(res);
    SubtractedAll(a, b, full, res, p);
  }

  lemma SubtractedAll(a: Poly, b: Poly, full: Poly, res: Poly, p: int)
    requires p > 0 && |full| >= |a| && |full| >= |b|
    requires forall k :: 0 <= k < |full| ==> full[k] == Residue(At(a, k) - At(b, k), p)
    requires res <= full && Trimmed(res) && Same(res, full)
    ensures Canonical(res, p) && EqMod(res, Add(a, -1, b), p)
  {
    hide Divides, Residue, Add;
    TrimResidues(full, res, p);
    forall k ensures Divides(p, At(res, k) - At(Add(a, -1, b), k)) {
      assert At(res, k) == At(full, k);
      assert At(Add(a, -1, b), k) == At(a, k) + -1 * At(b, k - 0);
      if 0 <= k < |full| {
        DividesFlip(p, At(a, k) - At(b, k), full[k]);
      } else {
        DividesSelf(p);
      }
    }
  }

  // ----- mulP -----

  /** After the rows below `i` and, in row `i`, the columns below `j`. */
  ghost predicate Accumulated(a: Poly, b: Poly, i: nat, j: nat, res: Poly, p: int)
    requires i <= |a| && p > 0
  {
    && |res| == |a| + |b| - 1 && (forall k :: 0 <= k < |res| ==> -p < res[k] < p)
    && forall k: nat :: k < |res| ==> Divides(p, Conv(a[..i], b, k) + Partial(a, b, i, j, k) - res[k])
  }

  /** What the columns below `j` of row `i` contribute to the coefficient at `k`. */
  ghost function Partial(a: Poly, b: Poly, i: nat, j: nat, k: int): int
    requires i <= |a|
  {
    if i < |a| && 0 <= k - i < j && k - i < |b| then a[i] * b[k - i] else 0
  }

  lemma AccumulateColumn(a: Poly, b: Poly, i: nat, j: nat, res: Poly, p: int, value: int)
    requires p > 0 && i < |a| && j < |b| && Accumulated(a, b, i, j, res, p)
    requires value == TruncRem(res[i + j] + TruncRem(a[i] * b[j], p), p)
    ensures Accumulated(a, b, i, j + 1, res[i + j := value], p)
  {
    hide Divides, Conv;
    forall k: nat | k < |res|
      ensures Divides(p, Conv(a[..i], b, k) + Partial(a, b, i, j + 1, k) - res[i + j := value][k])
    {
      assert Divides(p, Conv(a[..i], b, k) + Partial(a, b, i, j, k) - res[k]);
      if k == i + j {
        assert Partial(a, b, i, j, k) == 0 && Partial(a, b, i, j + 1, k) == a[i] * b[j];
        AddTerm(p, Conv(a[..i], b, k), res[k], a[i] * b[j], TruncRem(a[i] * b[j], p), value);
      }
    }
  }

  lemma AddTerm(p: int, s: int, r: int, x: int, t: int, v: int)
    requires Divides(p, s + 0 - r) && Divides(p, x - t) && Divides(p, r + t - v)
    ensures Divides(p, s + x - v)
  {
    hide Divides;
    DividesSum(p, s - r, x - t, 1, 1);
    DividesSum(p, s - r + (x - t), r + t - v, 1, 1);
  }

  /** A finished row, or one skipped because its coefficient is zero. */
  lemma AccumulateRow(a: Poly, b: Poly, i: nat, j: nat, res: Poly, p: int)
    requires p > 0 && i < |a| && Accumulated(a, b, i, j, res, p) && (j == |b| || (j == 0 && a[i] == 0))
    ensures Accumulated(a, b, i + 1, 0, res, p)
  {
    hide Divides, Conv;
    forall k: nat | k < |res| ensures Divides(p, Conv(a[..i + 1], b, k) + Partial(a, b, i + 1, 0, k) - res[k]) {
      assert Divides(p, Conv(a[..i], b, k) + Partial(a, b, i, j, k) - res[k]);
      ConvNext(a, i, b, k);
      assert a[i] * At(b, k - i) == Partial(a, b, i, j, k) by { RowTerm(a[i], b, k - i); }
    }
  }

  lemma RowTerm(x: int, b: Poly, k: int)
    ensures (x == 0 || !(0 <= k < |b|)) ==> x * At(b, k) == 0
  {
  }

  method Multiply(a: Poly, b: Poly, p: int) returns (res: Poly)
    requires p > 0
    ensures Canonical(res, p) && EqMod(res, Times(a, b), p)
  {
    hide Divides, TruncRem, Conv, Accumulated, Times;
    if a == [] || b == [] {
      NoFactor(a, b, p);
      return [];
    }
    res := seq(|a| + |b| - 1, _ => 0);
    AccumulateStart(a, b, res, p);
    for i := 0 to |a|
      invariant |res| == |a| + |b| - 1 && Accumulated(a, b, i, 0, res, p)
    {
      if a[i] == 0 {
        AccumulateRow(a, b, i, 0, res, p);
        continue;
      }
      for j := 0 to |b|
        invariant |res| == |a| + |b| - 1 && Accumulated(a, b, i, j, res, p)
      {
        var term := TruncRem(a[i] * b[j], p);
        AccumulateColumn(a, b, i, j, res, p, TruncRem(res[i + j] + term, p));
        res := res[i + j := TruncRem(res[i + j] + term, p)];
      }
      AccumulateRow(a, b, i, |b|, res, p);
    }
    res := LiftAll(a, b, res, p);
  }

  lemma AccumulateStart(a: Poly, b: Poly, res: Poly, p: int)
    requires p > 0 && |res| == |a| + |b| - 1 && forall k :: 0 <= k < |res| ==> res[k] == 0
    ensures Accumulated(a, b, 0, 0, res, p)
  {
    forall k: nat | k < |res|
      ensures Divides(p, Conv(a[..0], b, k) + Partial(a, b, 0, 0, k) - res[k])
    {
      DividesSelf(p);
    }
  }

  lemma NoFactor(a: Poly, b: Poly, p: int)
    requires a == [] || b == []
    ensures EqMod([], Times(a, b), p)
  {
    hide Divides;
    DividesSelf(p);
  }

  /** The final loop over the coefficients, and the trim. */
  method LiftAll(a: Poly, b: Poly, acc: Poly, p: int) returns (res: Poly)
    requires p > 0 && a != [] && b != [] && Accumulated(a, b, |a|, 0, acc, p)
    ensures Canonical(res, p) && EqMod(res, Times(a, b), p)
  {
    hide Divides, TruncRem, Conv, Times;
    res := acc;
    for k := 0 to |res|
      invariant |res| == |acc| && forall l :: k <= l < |res| ==> res[l] == acc[l]
      invariant forall l :: 0 <= l < k ==> res[l] == if acc[l] < 0 then acc[l] + p else acc[l]
    {
      if res[k] < 0 { res := res[k := res[k] + p]; }
    }
    ghost var full := res;
    res := Trim(res);
    LiftedProduct(a, b, acc, full, res, p);
  }

  lemma LiftedProduct(a: Poly, b: Poly, acc: Poly, full: Poly, res: Poly, p: int)
    requires p > 0 && a != [] && b != [] && Accumulated(a, b, |a|, 0, acc, p) && |full| == |acc|
    requires forall l :: 0 <= l < |acc| ==> full[l] == if acc[l] < 0 then acc[l] + p else acc[l]
    requires res <= full && Trimmed(res) && Same(res, full)
    ensures Canonical(res, p) && EqMod(res, Times(a, b), p)
  {
    hide Divides, Conv, Times;
    TrimResidues(full, res, p);
    TimesAt(a, b);
    assert a[..|a|] == a;
    forall k ensures Divides(p, At(res, k) - At(Times(a, b), k)) {
      assert At(res, k) == At(full, k);
      if 0 <= k < |acc| {
        assert Divides(p, Conv(a[..|a|], b, k) + Partial(a, b, |a|, 0, k) - acc[k]);
        DividesFlip(p, Conv(a, b, k), acc[k]);
        DividesSelf(p);
        DividesSum(p, acc[k] - Conv(a, b, k), p, 1, 1);
      } else {
        ConvOutside(a, b, k);
        DividesSelf(p);
      }
    }
  }

  // ----- divP -----

  /** a = q * b + r modulo p */
  ghost predicate Balanced(a: Poly, q: Poly, b: Poly, r: Poly, p: int) {
    forall k :: Divides(p, At(a, k) - Conv(q, b, k) - At(r, k))
  }

  ghost predicate IsDivision(a: Poly, b: Poly, q: Poly, r: Poly, p: int) {
    Canonical(q, p) && Canonical(r, p) && |r| < |b| && Balanced(a, q, b, r, p)
  }

  /** Everything from position `top` on is gone, and no quotient coefficient below `i` has been set. */
  ghost predicate Dividing(a0: Poly, b: Poly, q: Poly, a: Poly, p: int, i: int) {
    && Residues(q, p) && Residues(a, p) && Balanced(a0, q, b, a, p)
    && (forall k :: 0 <= k < |a| && k >= i + |b| - 1 ==> a[k] == 0)
    && (forall k :: 0 <= k < |q| && k < i ==> q[k] == 0)
  }

  lemma MonomialConv(b: Poly, k: int)
    ensures Conv([1], b, k) == At(b, k)
  {
    assert Conv([1][..0], b, k) == 0;
  }

  /** a' = a - factor * X^i * b modulo p */
  ghost predicate Reduced(a: Poly, factor: int, i: nat, b: Poly, a': Poly, p: int) {
    forall k :: Divides(p, At(a, k) - factor * At(b, k - i) - At(a', k))
  }

  lemma DivideStep(a0: Poly, b: Poly, q: Poly, a: Poly, p: int, i: nat, inverse: int, factor: int, a': Poly)
    requires p > 1 && b != [] && i < |q| && |a'| == |a| && i + |b| - 1 < |a|
    requires Dividing(a0, b, q, a, p, i + 1) && Divides(p, inverse * b[|b| - 1] - 1)
    requires 0 <= factor < p && Divides(p, a[i + |b| - 1] * inverse - factor)
    requires Reduced(a, factor, i, b, a', p) && Residues(a', p)
    ensures Dividing(a0, b, q[i := factor], a', p, i)
  {
    hide Divides, Conv;
    var q' := q[i := factor];
    assert Combines(q', q, factor, i, [1]);
    forall k ensures Divides(p, At(a0, k) - Conv(q', b, k) - At(a', k)) {
      CombinesConv(q', q, factor, i, [1], b, k);
      MonomialConv(b, k - i);
      DividesSum(p, At(a0, k) - Conv(q, b, k) - At(a, k), At(a, k) - factor * At(b, k - i) - At(a', k), 1, 1);
    }
    forall k | 0 <= k < |a'| && k >= i + |b| - 1 ensures a'[k] == 0 {
      assert Divides(p, At(a, k) - factor * At(b, k - i) - At(a', k));
      if k == i + |b| - 1 {
        TopCancels(p, a[k], inverse, b[|b| - 1], factor, a'[k]);
      } else {
        assert At(b, k - i) == 0;
        DividesFlip(p, 0, a'[k]);
        ResidueUnique(a'[k], 0, p);
      }
    }
  }

  lemma TopCancels(p: int, top: int, inverse: int, lead: int, factor: int, x: int)
    requires p > 1 && 0 <= x < p && Divides(p, inverse * lead - 1) && Divides(p, top * inverse - factor)
    requires Divides(p, top - factor * lead - x)
    ensures x == 0
  {
    hide Divides;
    DividesTimes(p, inverse * lead - 1, top);
    DividesTimes(p, top * inverse - factor, lead);
    TopArithmetic(top, inverse, lead, factor);
    DividesSum(p, top * (inverse * lead - 1), (top * inverse - factor) * lead, -1, 1);
    DividesSum(p, top - factor * lead, top - factor * lead - x, 1, -1);
    ResidueUnique(x, 0, p);
  }

  lemma TopArithmetic(top: int, inverse: int, lead: int, factor: int)
    ensures -1 * (top * (inverse * lead - 1)) + 1 * ((top * inverse - factor) * lead) == top - factor * lead
  {
    assert top * (inverse * lead) == (top * inverse) * lead;
  }

  /** a - factor * b, reduced as the inner loop does it. */
  function SubtractedAt(a: int, factor: int, b: int, p: int): (r: int)
    requires p > 0
    ensures 0 <= r < p
  {
    Residue(a - TruncRem(factor * b, p), p)
  }

  lemma SubtractedValue(a: int, factor: int, b: int, p: int)
    requires p > 0
    ensures Divides(p, a - factor * b - SubtractedAt(a, factor, b, p))
  {
    hide Divides, TruncRem, Residue;
    var term := TruncRem(factor * b, p);
    DividesSum(p, factor * b - term, a - term - SubtractedAt(a, factor, b, p), -1, 1);
  }

  /** The inner loop: subtracts factor * X^i * b in place. */
  method SubtractShifted(a: Poly, factor: int, i: nat, b: Poly, p: int) returns (r: Poly)
    requires p > 1 && Residues(a, p) && b != [] && i + |b| - 1 < |a|
    ensures |r| == |a| && Residues(r, p) && Reduced(a, factor, i, b, r, p)
  {
    hide Divides, TruncRem;
    r := a;
    for j := 0 to |b|
      invariant |r| == |a| && forall k :: 0 <= k < |a| && !(i <= k < i + j) ==> r[k] == a[k]
      invariant forall l :: 0 <= l < j ==> r[i + l] == SubtractedAt(a[i + l], factor, b[l], p)
    {
      var term := TruncRem(factor * b[j], p);
      var x := TruncRem(r[i + j] - term, p);
      if x < 0 { x := x + p; }
      assert x == Residue(r[i + j] - term, p);
      r := r[i + j := x];
    }
    ReducedAll(a, factor, i, b, r, p);
  }

  lemma ReducedAll(a: Poly, factor: int, i: nat, b: Poly, r: Poly, p: int)
    requires p > 1 && Residues(a, p) && b != [] && i + |b| - 1 < |a| && |r| == |a|
    requires forall k :: 0 <= k < |a| && !(i <= k < i + |b|) ==> r[k] == a[k]
    requires forall l :: 0 <= l < |b| ==> r[i + l] == SubtractedAt(a[i + l], factor, b[l], p)
    ensures Residues(r, p) && Reduced(a, factor, i, b, r, p)
  {
    hide Divides, SubtractedAt;
    forall k | 0 <= k < |r| ensures 0 <= r[k] < p {
      if i <= k < i + |b| { assert r[i + (k - i)] == SubtractedAt(a[i + (k - i)], factor, b[k - i], p); }
    }
    forall k ensures Divides(p, At(a, k) - factor * At(b, k - i) - At(r, k)) {
      if i <= k < i + |b| {
        SubtractedValue(a[i + (k - i)], factor, b[k - i], p);
        assert r[i + (k - i)] == SubtractedAt(a[i + (k - i)], factor, b[k - i], p);
      } else {
        assert At(b, k - i) == 0 && At(a, k) == At(r, k);
        assert factor * 0 == 0;
        DividesSelf(p);
      }
    }
  }

  method Divide(a0: Poly, b: Poly, p: int) returns (res: Result<(Poly, Poly)>)
    requires p > 1 && Residues(a0, p) && Canonical(b, p)
    ensures res.DivisionByZero? <==> b == []
    ensures res.Ok? ==> IsDivision(a0, b, res.value.0, res.value.1, p)
    ensures b != [] && Prime(p) ==> res.Ok?
  {
    hide Divides, TruncRem, Conv, Gcd, Reduced, Dividing, Balanced;
    if b == [] {
      return DivisionByZero;
    }
    var a := Trim(a0);
    TrimResidues(a0, a, p);
    if |a| < |b| {
      NothingToDivide(a0, b, a, p);
      return Ok(([], a));
    }
    var q: Poly := seq(|a| - |b| + 1, _ => 0);
    var inverse := InverseMod(b[|b| - 1], p);
    if !inverse.Ok? {
      if Prime(p) { PrimeInvertible(b[|b| - 1], p); }
      return NotInvertible;
    }
    DivideStart(a0, b, q, a, p);
    var i := |a| - |b|;
    ghost var length := |a|;
    while i >= 0
      invariant -1 <= i <= length - |b| && |a| == length && |q| == length - |b| + 1
      invariant Dividing(a0, b, q, a, p, i + 1) && Residues(a, p)
    {
      if a[i + |b| - 1] == 0 {
        DivideSkip(a0, b, q, a, p, i);
      } else {
        var factor := TruncRem(a[i + |b| - 1] * inverse.value, p);
        if factor < 0 { factor := factor + p; }
        assert factor == Residue(a[i + |b| - 1] * inverse.value, p);
        var next := SubtractShifted(a, factor, i, b, p);
        DivideStep(a0, b, q, a, p, i, inverse.value, factor, next);
        q := q[i := factor];
        a := next;
      }
      i := i - 1;
    }
    ghost var q0, r0 := q, a;
    q := Trim(q);
    a := Trim(a);
    DivideEnd(a0, b, q0, r0, q, a, p);
    return Ok((q, a));
  }

  lemma PrimeInvertible(x: int, p: int)
    requires p > 1 && 0 < x < p && Prime(p)
    ensures Gcd(p, Residue(x, p)) == 1
  {
    ResidueUnique(x, Residue(x, p), p);
    if Divides(p, x) { DivisorBound(p, x); }
    PrimeCoprime(p, x);
  }

  lemma NothingToDivide(a0: Poly, b: Poly, a: Poly, p: int)
    requires p > 1 && Canonical(a, p) && Same(a, a0) && |a| < |b|
    ensures IsDivision(a0, b, [], a, p)
  {
    hide Divides;
    forall k ensures Divides(p, At(a0, k) - Conv([], b, k) - At(a, k)) { DividesSelf(p); }
  }

  lemma DivideStart(a0: Poly, b: Poly, q: Poly, a: Poly, p: int)
    requires p > 1 && Residues(a, p) && Same(a, a0) && forall k :: 0 <= k < |q| ==> q[k] == 0
    requires b != [] && |a| >= |b|
    ensures Dividing(a0, b, q, a, p, |a| - |b| + 1)
  {
    hide Divides;
    forall k ensures Divides(p, At(a0, k) - Conv(q, b, k) - At(a, k)) {
      assert Combines(q, [], 0, 0, []);
      CombinesConv(q, [], 0, 0, [], b, k);
      DividesSelf(p);
    }
  }

  lemma DivideSkip(a0: Poly, b: Poly, q: Poly, a: Poly, p: int, i: nat)
    requires b != [] && i + |b| - 1 < |a| && Dividing(a0, b, q, a, p, i + 1) && a[i + |b| - 1] == 0
    ensures Dividing(a0, b, q, a, p, i)
  {
    hide Divides, Conv, Balanced;
  }

  lemma DivideEnd(a0: Poly, b: Poly, q0: Poly, r0: Poly, q: Poly, r: Poly, p: int)
    requires p > 1 && b != [] && Dividing(a0, b, q0, r0, p, 0)
    requires q <= q0 && Same(q, q0) && Trimmed(q) && r <= r0 && Same(r, r0) && Trimmed(r)
    ensures IsDivision(a0, b, q, r, p)
  {
    hide Divides, Conv;
    forall k ensures Divides(p, At(a0, k) - Conv(q, b, k) - At(r, k)) {
      assert Combines(q, q0, 0, 0, []);
      CombinesConv(q, q0, 0, 0, [], b, k);
      assert At(r, k) == At(r0, k);
    }
  }

  // ----- Quotient and remainder are unique -----

  /** A nonzero multiple of `b` has a coefficient of degree at least that of `b`. */
  lemma {:induction false} MultipleTooHigh(d: Poly, b: Poly, p: int, n: nat)
    requires Prime(p) && Canonical(b, p) && b != [] && n <= |d|
    requires forall k :: k >= |b| - 1 ==> Divides(p, Conv(d, b, k))
    requires forall k :: n <= k < |d| ==> Divides(p, d[k])
    ensures forall k :: 0 <= k < |d| ==> Divides(p, d[k])
    decreases n
  {
    hide Divides, Conv;
    if n > 0 {
      var k := n - 1 + |b| - 1;
      TopOfProduct(d, b, p, n, |d|);
      assert d[..|d|] == d;
      assert Divides(p, Conv(d, b, k));
      DividesSum(p, Conv(d, b, k), Conv(d, b, k) - d[n - 1] * b[|b| - 1], 1, -1);
      PrimeDividesProduct(p, d[n - 1], b[|b| - 1]);
      if Divides(p, b[|b| - 1]) { DivisorBound(p, b[|b| - 1]); }
      MultipleTooHigh(d, b, p, n - 1);
    }
  }

  lemma {:induction false} TopOfProduct(d: Poly, b: Poly, p: int, n: nat, m: nat)
    requires b != [] && 0 < n <= m <= |d| && forall k :: n <= k < |d| ==> Divides(p, d[k])
    ensures Divides(p, Conv(d[..m], b, n - 1 + |b| - 1) - d[n - 1] * b[|b| - 1])
  {
    hide Divides, Conv;
    var k := n - 1 + |b| - 1;
    ConvNext(d, m - 1, b, k);
    assert d[..m - 1 + 1] == d[..m];
    if m == n {
      ConvOutside(d[..m - 1], b, k);
      assert k - (m - 1) == |b| - 1;
      DividesSelf(p);
    } else {
      TopOfProduct(d, b, p, n, m - 1);
      DividesTimes(p, d[m - 1], At(b, k - (m - 1)));
      DividesSum(p, Conv(d[..m - 1], b, k) - d[n - 1] * b[|b| - 1], d[m - 1] * At(b, k - (m - 1)), 1, 1);
    }
  }

  lemma DivisionUnique(a: Poly, b: Poly, q: Poly, r: Poly, q': Poly, r': Poly, p: int)
    requires Prime(p) && Canonical(b, p) && b != [] && IsDivision(a, b, q, r, p) && IsDivision(a, b, q', r', p)
    ensures q == q' && r == r'
  {
    hide Divides, Conv, Add, Prime;
    var d := Add(q, -1, q');
    forall k ensures Divides(p, Conv(d, b, k) + At(r, k) - At(r', k)) {
      CombinesConv(d, q, -1, 0, q', b, k);
      DividesSum(p, At(a, k) - Conv(q, b, k) - At(r, k), At(a, k) - Conv(q', b, k) - At(r', k), -1, 1);
    }
    forall k | k >= |b| - 1 ensures Divides(p, Conv(d, b, k)) { assert At(r, k) == 0 && At(r', k) == 0; }
    MultipleTooHigh(d, b, p, |d|);
    forall k ensures Divides(p, At(q, k) - At(q', k)) {
      assert At(d, k) == At(q, k) + -1 * At(q', k - 0);
      if !(0 <= k < |d|) { DividesSelf(p); }
    }
    CanonicalUnique(q, q', p);
    forall k ensures Divides(p, At(r, k) - At(r', k)) {
      DividesSum(p, At(a, k) - Conv(q, b, k) - At(r, k), At(a, k) - Conv(q', b, k) - At(r', k), -1, 1);
    }
    CanonicalUnique(r, r', p);
  }

  // ----- gcdP -----

  /** The monic polynomial whose divisors are exactly the common divisors of `a` and `b`. */
  ghost predicate IsGcd(g: Poly, a: Poly, b: Poly, p: int) {
    Canonical(g, p) && (g != [] ==> g[|g| - 1] == 1) && SameDivisors(g, [], a, b, p)
  }

  ghost predicate SameDivisors(a: Poly, b: Poly, c: Poly, d: Poly, p: int) {
    forall e :: Common(e, a, b, p) <==> Common(e, c, d, p)
  }

  ghost predicate Common(e: Poly, a: Poly, b: Poly, p: int) {
    ModDividesPoly(e, a, p) && ModDividesPoly(e, b, p)
  }

  lemma DividesAdd(e: Poly, a: Poly, x: int, b: Poly, p: int)
    requires ModDividesPoly(e, a, p) && ModDividesPoly(e, b, p)
    ensures ModDividesPoly(e, Add(a, x, b), p)
  {
    hide Cong, Combines;
    CongAdd(a, [], x, b, [], e, p);
    assert Add([], x, []) == [];
  }

  lemma DividesEq(e: Poly, a: Poly, b: Poly, p: int)
    requires ModDividesPoly(e, a, p) && EqMod(a, b, p)
    ensures ModDividesPoly(e, b, p)
  {
    hide Cong, EqMod;
    EqModSymmetric(a, b, p);
    EqModCong(b, a, e, p);
    CongTransitive(b, a, [], e, p);
  }

  lemma DividesMultiple(e: Poly, a: Poly, q: Poly, p: int)
    requires ModDividesPoly(e, a, p)
    ensures ModDividesPoly(e, Times(q, a), p)
  {
    hide Cong, Times;
    CongTimes(a, [], q, e, p);
    assert Times(q, []) == [];
  }

  lemma BalancedBothWays(a: Poly, q: Poly, b: Poly, r: Poly, p: int)
    requires Balanced(a, q, b, r, p)
    ensures EqMod(a, Add(Times(q, b), 1, r), p) && EqMod(r, Add(a, -1, Times(q, b)), p)
    ensures EqMod(Add(Times(q, b), 1, r), a, p) && EqMod(Add(a, -1, Times(q, b)), r, p)
  {
    hide Divides, Conv, Times, Add;
    TimesAt(q, b);
    forall k
      ensures Divides(p, At(a, k) - At(Add(Times(q, b), 1, r), k))
      ensures Divides(p, At(r, k) - At(Add(a, -1, Times(q, b)), k))
    {
      assert Divides(p, At(a, k) - Conv(q, b, k) - At(r, k));
      assert At(Add(Times(q, b), 1, r), k) == At(Times(q, b), k) + 1 * At(r, k - 0);
      assert At(Add(a, -1, Times(q, b)), k) == At(a, k) + -1 * At(Times(q, b), k - 0);
      DividesTimes(p, At(a, k) - Conv(q, b, k) - At(r, k), -1);
    }
    EqModSymmetric(a, Add(Times(q, b), 1, r), p);
    EqModSymmetric(r, Add(a, -1, Times(q, b)), p);
  }

  /** Euclid's step keeps the common divisors. */
  lemma GcdStep(a: Poly, b: Poly, q: Poly, r: Poly, p: int)
    requires Balanced(a, q, b, r, p)
    ensures SameDivisors(b, r, a, b, p)
  {
    hide ModDividesPoly, EqMod, Times, Balanced;
    BalancedBothWays(a, q, b, r, p);
    forall e ensures Common(e, b, r, p) <==> Common(e, a, b, p) {
      if ModDividesPoly(e, b, p) {
        DividesMultiple(e, b, q, p);
        if ModDividesPoly(e, r, p) {
          DividesAdd(e, Times(q, b), 1, r, p);
          DividesEq(e, Add(Times(q, b), 1, r), a, p);
        }
        if ModDividesPoly(e, a, p) {
          DividesAdd(e, a, -1, Times(q, b), p);
          DividesEq(e, Add(a, -1, Times(q, b)), r, p);
        }
      }
    }
  }

  lemma SameDivisorsTransitive(a: Poly, b: Poly, c: Poly, d: Poly, e: Poly, f: Poly, p: int)
    requires SameDivisors(a, b, c, d, p) && SameDivisors(c, d, e, f, p)
    ensures SameDivisors(a, b, e, f, p)
  {
    hide Common;
  }

  /** b is a unit multiple of a: b = x * a and a = y * b modulo p. */
  lemma UnitMultiple(a: Poly, b: Poly, x: int, y: int, p: int)
    requires (forall k :: Divides(p, At(b, k) - x * At(a, k))) && Divides(p, x * y - 1)
    ensures SameDivisors(b, [], a, [], p)
  {
    hide ModDividesPoly, EqMod, Times, Divides;
    forall k ensures Divides(p, At(b, k) - At(Add([], x, a), k)) && Divides(p, At(a, k) - At(Add([], y, b), k)) {
      ScaleBack(p, At(a, k), At(b, k), x, y);
      assert At(Add([], x, a), k) == At([], k) + x * At(a, k - 0);
      assert At(Add([], y, b), k) == At([], k) + y * At(b, k - 0);
      assert Divides(p, At(b, k) - x * At(a, k));
    }
    EqModIntro(b, Add([], x, a), p);
    EqModIntro(a, Add([], y, b), p);
    EqModSymmetric(b, Add([], x, a), p);
    EqModSymmetric(a, Add([], y, b), p);
    forall e ensures Common(e, b, [], p) <==> Common(e, a, [], p) {
      DividesNothing(e, p);
      if ModDividesPoly(e, a, p) {
        DividesAdd(e, [], x, a, p);
        DividesEq(e, Add([], x, a), b, p);
      }
      if ModDividesPoly(e, b, p) {
        DividesAdd(e, [], y, b, p);
        DividesEq(e, Add([], y, b), a, p);
      }
    }
  }

  lemma EqModIntro(a: Poly, b: Poly, p: int)
    requires forall k :: Divides(p, At(a, k) - At(b, k))
    ensures EqMod(a, b, p)
  {
    hide Divides;
  }

  lemma ScaleBack(p: int, a: int, b: int, x: int, y: int)
    requires Divides(p, b - x * a) && Divides(p, x * y - 1)
    ensures Divides(p, a - y * b)
  {
    hide Divides;
    DividesTimes(p, b - x * a, -y);
    DividesTimes(p, x * y - 1, -a);
    DividesSum(p, (b - x * a) * -y, (x * y - 1) * -a, 1, 1);
    assert (b - x * a) * -y == (x * a) * y - b * y;
    assert (x * y - 1) * -a == a - (x * y) * a;
    assert (x * a) * y == (x * y) * a;
  }

  lemma DividesNothing(e: Poly, p: int)
    ensures ModDividesPoly(e, [], p)
  {
    hide Cong;
    CongReflexive([], e, p);
  }

  method PolyGcd(a0: Poly, b0: Poly, p: int) returns (g: Poly)
    requires Prime(p) && Canonical(a0, p) && Canonical(b0, p)
    ensures IsGcd(g, a0, b0, p)
    ensures g == [] <==> a0 == [] && b0 == []
  {
    hide Divides, Balanced, SameDivisors, Gcd, Prime;
    PrimeAboveOne(p);
    var a, b := a0, b0;
    SameDivisorsReflexive(a, b, p);
    while b != []
      invariant Canonical(a, p) && Canonical(b, p) && SameDivisors(a, b, a0, b0, p)
      invariant a == [] && b == [] <==> a0 == [] && b0 == []
      decreases |b|
    {
      var division := Divide(a, b, p);
      var (q, r) := division.value;
      GcdStep(a, b, q, r, p);
      SameDivisorsTransitive(b, r, a, b, a0, b0, p);
      a, b := b, r;
    }
    g := a;
    if a != [] {
      var inverse := InverseMod(a[|a| - 1], p);
      PrimeInvertible(a[|a| - 1], p);
      g := ScaleAll(a, inverse.value, p);
      NormalisedGcd(a, inverse.value, g, a0, b0, p);
    }
  }

  /** Scaling by the inverse of the leading coefficient makes the gcd monic. */
  lemma NormalisedGcd(a: Poly, inverse: int, g: Poly, a0: Poly, b0: Poly, p: int)
    requires p > 1 && Canonical(a, p) && a != [] && SameDivisors(a, [], a0, b0, p)
    requires Divides(p, inverse * a[|a| - 1] - 1)
    requires |g| == |a| && forall k :: 0 <= k < |a| ==> g[k] == Residue(a[k] * inverse, p)
    ensures IsGcd(g, a0, b0, p)
  {
    hide Divides, SameDivisors, Residue;
    forall k ensures Divides(p, At(g, k) - inverse * At(a, k)) { ScaledAt(a, inverse, g, p, k); }
    var lead := a[|a| - 1];
    ScaledAt(a, inverse, g, p, |a| - 1);
    LeadOne(lead, inverse, g[|g| - 1], p);
    UnitMultiple(a, g, inverse, lead, p);
    SameDivisorsTransitive(g, [], a, [], a0, b0, p);
  }

  lemma PrimeAboveOne(p: int)
    requires Prime(p)
    ensures p > 1
  {
  }

  lemma SameDivisorsReflexive(a: Poly, b: Poly, p: int)
    ensures SameDivisors(a, b, a, b, p)
  {
    hide Common;
  }

  lemma LeadOne(lead: int, inverse: int, x: int, p: int)
    requires p > 1 && Divides(p, inverse * lead - 1) && Divides(p, x - inverse * lead) && 0 <= x < p
    ensures x == 1
  {
    hide Divides;
    DividesSum(p, x - inverse * lead, inverse * lead - 1, 1, 1);
    ResidueUnique(x, 1, p);
  }

  method ScaleAll(a: Poly, c: int, p: int) returns (r: Poly)
    requires p > 1 && Residues(a, p)
    ensures |r| == |a| && forall k :: 0 <= k < |a| ==> r[k] == Residue(a[k] * c, p)
  {
    hide Divides;
    r := a;
    for i := 0 to |a|
      invariant |r| == |a| && forall k :: i <= k < |a| ==> r[k] == a[k]
      invariant forall k :: 0 <= k < i ==> r[k] == Residue(a[k] * c, p)
    {
      var x := TruncRem(r[i] * c, p);
      if x < 0 { x := x + p; }
      assert x == Residue(a[i] * c, p);
      r := r[i := x];
    }
  }

  lemma ScaledAt(a: Poly, c: int, r: Poly, p: int, k: int)
    requires p > 1 && |r| == |a| && forall k :: 0 <= k < |a| ==> r[k] == Residue(a[k] * c, p)
    ensures Divides(p, At(r, k) - c * At(a, k))
  {
    hide Divides, Residue;
    if 0 <= k < |a| {
      DividesFlip(p, a[k] * c, r[k]);
      assert a[k] * c == c * a[k];
    } else {
      assert c * 0 == 0;
      DividesSelf(p);
    }
  }

  // ----- powModP -----

  ghost function Power(a: Poly, e: nat): Poly {
    if e == 0 then [1] else Times(a, Power(a, e - 1))
  }

  lemma {:induction false} PowerSquare(a: Poly, e: nat)
    ensures Power(Times(a, a), e) == Power(a, 2 * e)
  {
    hide Times;
    if e > 0 {
      PowerSquare(a, e - 1);
      TimesAssociative(a, a, Power(a, 2 * e - 2));
    }
  }

  lemma {:induction false} PowerCong(a: Poly, b: Poly, e: nat, m: Poly, p: int)
    requires Cong(a, b, m, p)
    ensures Cong(Power(a, e), Power(b, e), m, p)
  {
    hide Cong, Times;
    if e == 0 {
      CongReflexive([1], m, p);
    } else {
      PowerCong(a, b, e - 1, m, p);
      CongTimesBoth(a, b, Power(a, e - 1), Power(b, e - 1), m, p);
    }
  }

  lemma {:induction false} PowerAdd(a: Poly, d: nat, e: nat)
    ensures Power(a, d + e) == Times(Power(a, d), Power(a, e))
  {
    hide Times;
    if d == 0 {
      TimesOne(Power(a, e));
    } else {
      PowerAdd(a, d - 1, e);
      TimesAssociative(a, Power(a, d - 1), Power(a, e));
    }
  }

  lemma {:induction false} PowerPower(a: Poly, d: nat, e: nat)
    ensures Power(Power(a, d), e) == Power(a, d * e)
  {
    hide Times;
    if e > 0 {
      PowerPower(a, d, e - 1);
      PowerAdd(a, d, d * (e - 1));
      assert d + d * (e - 1) == d * e;
    }
  }

  /** The remainder is congruent to what was divided. */
  lemma RemainderCong(a: Poly, b: Poly, q: Poly, r: Poly, p: int)
    requires Balanced(a, q, b, r, p)
    ensures Cong(r, a, b, p)
  {
    hide Divides, Conv, Cong;
    var neg := Add([], -1, q);
    forall k ensures Divides(p, At(r, k) - At(a, k) - Conv(neg, b, k)) {
      CombinesConv(neg, [], -1, 0, q, b, k);
      NoConv(b, k);
      assert Divides(p, At(a, k) - Conv(q, b, k) - At(r, k));
      DividesTimes(p, At(a, k) - Conv(q, b, k) - At(r, k), -1);
    }
    CongIntro(r, a, neg, b, p);
  }

  /** The remainder of a product modulo `m`. */
  method TimesMod(a: Poly, b: Poly, m: Poly, p: int) returns (r: Poly)
    requires Prime(p) && Canonical(m, p) && m != []
    ensures Canonical(r, p) && |r| < |m| && Cong(r, Times(a, b), m, p)
  {
    hide Divides, Balanced, Cong, EqMod, Prime;
    PrimeAboveOne(p);
    var product := Multiply(a, b, p);
    var division := Divide(product, m, p);
    r := division.value.1;
    RemainderOfProduct(a, b, product, m, division.value.0, r, p);
  }

  lemma RemainderOfProduct(a: Poly, b: Poly, product: Poly, m: Poly, q: Poly, r: Poly, p: int)
    requires EqMod(product, Times(a, b), p) && Balanced(product, q, m, r, p)
    ensures Cong(r, Times(a, b), m, p)
  {
    hide Balanced, Cong, EqMod, Times;
    RemainderCong(product, m, q, r, p);
    EqModCong(product, Times(a, b), m, p);
    CongTransitive(r, product, Times(a, b), m, p);
  }

  method PowerMod(base0: Poly, exp0: nat, m: Poly, p: int) returns (res: Poly)
    requires Prime(p) && Canonical(m, p) && m != [] && Residues(base0, p)
    ensures Canonical(res, p) && Cong(res, Power(base0, exp0), m, p)
    ensures if exp0 == 0 then res == [1] else |res| < |m|
  {
    hide Divides, Balanced, Cong, Power, Times, Prime;
    PrimeAboveOne(p);
    res := [1];
    var division := Divide(base0, m, p);
    var base := division.value.1;
    RemainderCong(base0, m, division.value.0, base, p);
    var exp := exp0;
    PowerStart(base, base0, exp, m, p);
    while exp != 0
      invariant Canonical(res, p) && Canonical(base, p)
      invariant Cong(Times(res, Power(base, exp)), Power(base0, exp0), m, p)
      invariant if exp == exp0 then res == [1] else res == [1] || |res| < |m|
      invariant exp == 0 && exp0 > 0 ==> |res| < |m|
      decreases exp
    {
      var rem := exp % 2;
      ghost var r0, b0 := res, base;
      if rem != 0 {
        res := TimesMod(res, base, m, p);
      }
      base := TimesMod(base, base, m, p);
      PowerStep(r0, b0, exp, res, base, Power(base0, exp0), m, p);
      exp := exp / 2;
    }
    PowerEnd(res, base, Power(base0, exp0), m, p);
  }

  lemma PowerStart(base: Poly, base0: Poly, e: nat, m: Poly, p: int)
    requires Cong(base, base0, m, p)
    ensures Cong(Times([1], Power(base, e)), Power(base0, e), m, p)
  {
    hide Cong, Times, Power;
    PowerCong(base, base0, e, m, p);
    TimesOne(Power(base, e));
  }

  lemma PowerEnd(res: Poly, base: Poly, target: Poly, m: Poly, p: int)
    requires Cong(Times(res, Power(base, 0)), target, m, p)
    ensures Cong(res, target, m, p)
  {
    TimesOne(res);
  }

  /** Square and multiply keeps res * base^exp. */
  lemma PowerStep(res: Poly, base: Poly, e: nat, res': Poly, base': Poly, target: Poly, m: Poly, p: int)
    requires e > 0 && Cong(Times(res, Power(base, e)), target, m, p) && Cong(base', Times(base, base), m, p)
    requires if e % 2 == 1 then Cong(res', Times(res, base), m, p) else res' == res
    ensures Cong(Times(res', Power(base', e / 2)), target, m, p)
  {
    hide Cong, Times;
    var h := e / 2;
    PowerCong(base', Times(base, base), h, m, p);
    PowerSquare(base, h);
    if e % 2 == 1 {
      assert Power(base, e) == Times(base, Power(base, 2 * h));
      TimesAssociative(res, base, Power(base, 2 * h));
      CongTimesBoth(res', Times(res, base), Power(base', h), Power(base, 2 * h), m, p);
      CongTransitive(Times(res', Power(base', h)), Times(res, Power(base, e)), target, m, p);
    } else {
      CongTimes(Power(base', h), Power(base, 2 * h), res, m, p);
      CongTransitive(Times(res', Power(base', h)), Times(res, Power(base, e)), target, m, p);
    }
  }
}
