/** The machine-word twins of the Z_p routines (src/cas/Factorization.cpp:810-913). Every operation on `int64` is
    checked to stay in range, and every routine meets the contract of its unbounded twin; the contracts determine
    the results, so the two paths agree. */
module MachineWord {
  import opened IntegerGcd
  import opened IntPoly
  import opened PolyCongruence
  import opened ModularPoly

  newtype int64 = x: int | -0x8000_0000_0000_0000 <= x < 0x8000_0000_0000_0000

  type Poly64 = seq<int64>

  /** The largest modulus whose residues can be multiplied in 64 bits; every p below 2^31 is within it. */
  const MAX_MODULUS: int := 3037000499

  function Wide(a: Poly64): (r: Poly)
    ensures |r| == |a| && forall i :: 0 <= i < |a| ==> r[i] == a[i] as int
  {
    seq(|a|, i requires 0 <= i < |a| => a[i] as int)
  }

  /** The `%` of the machine, which truncates toward zero. */
  function Rem(x: int64, y: int64): (r: int64)
    requires y > 0
    ensures r as int == TruncRem(x as int, y as int)
  {
    TruncRem(x as int, y as int) as int64
  }

  /** The remainder, raised by `p` when it is negative. */
  function Residue64(x: int64, p: int64): (r: int64)
    requires p > 0
    ensures r as int == Residue(x as int, p as int)
  {
    var r := Rem(x, p);
    if r < 0 then r + p else r
  }

  function Quot(x: int64, y: int64): (r: int64)
    requires x >= 0 && y > 0
    ensures r as int == TruncDiv(x as int, y as int)
  {
    QuotientBound(x as int, y as int);
    TruncDiv(x as int, y as int) as int64
  }

  lemma QuotientBound(x: int, y: int)
    requires x >= 0 && y > 0
    ensures 0 <= TruncDiv(x, y) <= x
  {
    var q := x / y;
    assert x == y * q + x % y;
    AtLeastFactor(y, q);
  }

  lemma AtLeastFactor(y: int, q: int)
    requires y > 0
    ensures (q >= 0 ==> y * q >= q) && (q < 0 ==> y * q <= -y)
  {
  }

  ghost predicate Residues64(a: Poly64, p: int64) {
    Residues(Wide(a), p as int)
  }

  ghost predicate Canonical64(a: Poly64, p: int64) {
    Canonical(Wide(a), p as int)
  }

  ghost predicate Fits(p: int64) {
    1 < p as int <= MAX_MODULUS
  }

  lemma ProductInRange(x: int, y: int, p: int)
    requires 0 <= x < p <= MAX_MODULUS && 0 <= y < p
    ensures 0 <= x * y < 0x8000_0000_0000_0000
  {
    ProductMonotone(x, y, 3037000498);
  }

  lemma ProductMonotone(x: nat, y: nat, m: nat)
    requires x <= m && y <= m
    ensures 0 <= x * y <= m * m
  {
    assert x * y <= x * m;
    assert x * m <= m * m;
  }

  // ----- invModP64 -----

  /** The next cofactor, and the product on the way to it, are at most p in absolute value. */
  lemma CofactorInRange(a: int, p: int, t: int, newt: int, r: int, newr: int, q: int)
    requires Euclid(a, p, t, newt, r, newr) && newr > 0 && q == TruncDiv(r, newr)
    ensures 0 - p <= q * newt <= p && 0 - p <= t - q * newt <= p && 0 <= q * newr <= r
  {
    hide Divides, Gcd, TruncDiv, Euclid;
    var u := t - q * newt;
    EuclidStep(a, p, t, newt, r, newr, q);
    EuclidFacts(a, p, t, newt, r, newr);
    EuclidFacts(a, p, newt, u, newr, r - q * newr);
    TermBound(Abs(newt), r - q * newr, Abs(u), newr, p);
    QuotientRest(r, newr, q);
    CofactorSigns(t, newt, q);
    AbsTimes(q, newt);
    NonNegativeTimes(q, newr);
  }

  lemma EuclidFacts(a: int, p: int, t: int, newt: int, r: int, newr: int)
    requires Euclid(a, p, t, newt, r, newr)
    ensures 0 <= newr < r <= p && t * newt <= 0 && Abs(t) * newr + Abs(newt) * r == p
  {
  }

  lemma TermBound(x: nat, y: nat, u: nat, v: nat, p: int)
    requires x * y + u * v == p && v > 0
    ensures u <= p
  {
    assert x * y >= 0;
    assert u * v >= u;
  }

  lemma AbsTimes(q: int, x: int)
    requires q >= 0
    ensures Abs(q * x) == q * Abs(x)
  {
  }

  lemma NonNegativeTimes(x: int, y: int)
    requires x >= 0 && y >= 0
    ensures x * y >= 0
  {
  }

  method InverseMod64(a: int64, p: int64) returns (res: Result<int64>)
    requires Fits(p)
    ensures res.Ok? <==> Gcd(p as int, Residue(a as int, p as int)) == 1
    ensures res.Ok? ==> 0 <= res.value < p && Divides(p as int, res.value as int * a as int - 1)
    ensures !res.Ok? ==> res.NotInvertible?
  {
    hide Divides, Euclid, Gcd, TruncDiv, TruncRem, Residue;
    var t: int64, newt: int64 := 0, 1;
    var r, newr := p, Residue64(a, p);
    EuclidStart(a as int, p as int, newr as int);
    while newr != 0
      invariant Euclid(a as int, p as int, t as int, newt as int, r as int, newr as int) && 0 <= newr < r <= p
      invariant Gcd(r as int, newr as int) == Gcd(p as int, Residue(a as int, p as int))
      decreases newr as int
    {
      var quotient := Quot(r, newr);
      CofactorInRange(a as int, p as int, t as int, newt as int, r as int, newr as int, quotient as int);
      EuclidStep(a as int, p as int, t as int, newt as int, r as int, newr as int, quotient as int);
      var tempT := t - quotient * newt;
      t, newt := newt, tempT;
      var tempR := r - quotient * newr;
      r, newr := newr, tempR;
    }
    GcdEnd(r as int);
    if r > 1 {
      return NotInvertible;
    }
    EuclidEnd(a as int, p as int, t as int, newt as int, r as int);
    if t < 0 {
      SameInverse(a as int, p as int, t as int, Residue(t as int, p as int));
      t := Residue64(t, p);
    }
    return Ok(t);
  }

  /** Inverses are unique, so both paths return the same one. */
  lemma InverseUnique(a: int, p: int, t: int, u: int)
    requires p > 1 && 0 <= t < p && 0 <= u < p && Divides(p, t * a - 1) && Divides(p, u * a - 1)
    ensures t == u
  {
    hide Divides;
    DividesTimes(p, u * a - 1, t);
    DividesTimes(p, t * a - 1, u);
    DividesSum(p, t * (u * a - 1), u * (t * a - 1), -1, 1);
    assert t * (u * a) == u * (t * a);
    ResidueUnique(t, u, p);
  }

  // ----- trimP64, subP64, mulP64 -----

  method Trim64(a: Poly64) returns (r: Poly64)
    ensures Trimmed(Wide(r)) && Same(Wide(r), Wide(a)) && Wide(r) <= Wide(a) && r <= a
  {
    r := a;
    while r != [] && r[|r| - 1] == 0
      invariant r <= a && Same(Wide(r), Wide(a))
      decreases |r|
    {
      r := r[..|r| - 1];
    }
  }

  lemma WideUpdate(a: Poly64, i: nat, x: int64)
    requires i < |a|
    ensures Wide(a[i := x]) == Wide(a)[i := x as int]
  {
  }

  method Multiply64(a: Poly64, b: Poly64, p: int64) returns (res: Poly64)
    requires Fits(p) && Residues64(a, p) && Residues64(b, p)
    ensures Canonical64(res, p) && EqMod(Wide(res), Times(Wide(a), Wide(b)), p as int)
  {
    hide Divides, TruncRem, Conv, Accumulated, Times;
    ghost var wa, wb, wp := Wide(a), Wide(b), p as int;
    if a == [] || b == [] {
      NoFactor(wa, wb, wp);
      assert Wide([]) == [];
      return [];
    }
    res := seq(|a| + |b| - 1, _ => 0);
    AccumulateStart(wa, wb, Wide(res), wp);
    for i := 0 to |a|
      invariant |res| == |a| + |b| - 1 && Accumulated(wa, wb, i, 0, Wide(res), wp)
    {
      if a[i] == 0 {
        AccumulateRow(wa, wb, i, 0, Wide(res), wp);
        continue;
      }
      for j := 0 to |b|
        invariant |res| == |a| + |b| - 1 && Accumulated(wa, wb, i, j, Wide(res), wp)
      {
        assert 0 <= wa[i] < wp && 0 <= wb[j] < wp;
        ProductInRange(wa[i], wb[j], wp);
        AccumulatedRange(wa, wb, i, j, Wide(res), wp, i + j);
        var term := Rem(a[i] * b[j], p);
        var value := Rem(res[i + j] + term, p);
        AccumulateColumn(wa, wb, i, j, Wide(res), wp, value as int);
        WideUpdate(res, i + j, value);
        res := res[i + j := value];
      }
      AccumulateRow(wa, wb, i, |b|, Wide(res), wp);
    }
    res := LiftAll64(a, b, res, p);
  }

  lemma AccumulatedRange(a: Poly, b: Poly, i: nat, j: nat, res: Poly, p: int, k: nat)
    requires i <= |a| && p > 0 && Accumulated(a, b, i, j, res, p) && k < |res|
    ensures -p < res[k] < p
  {
  }

  method LiftAll64(a: Poly64, b: Poly64, acc: Poly64, p: int64) returns (res: Poly64)
    requires Fits(p) && a != [] && b != [] && Accumulated(Wide(a), Wide(b), |a|, 0, Wide(acc), p as int)
    ensures Canonical64(res, p) && EqMod(Wide(res), Times(Wide(a), Wide(b)), p as int)
  {
    hide Divides, TruncRem, Conv, Times, Accumulated, EqMod;
    res := acc;
    forall k: nat | k < |acc| ensures 0 - p as int < acc[k] as int < p as int {
      AccumulatedRange(Wide(a), Wide(b), |a|, 0, Wide(acc), p as int, k);
    }
    for k := 0 to |res|
      invariant |res| == |acc| && forall l :: k <= l < |res| ==> res[l] == acc[l]
      invariant forall l :: 0 <= l < k ==> res[l] == if acc[l] < 0 then acc[l] + p else acc[l]
    {
      if res[k] < 0 { res := res[k := res[k] + p]; }
    }
    ghost var full := res;
    res := Trim64(res);
    LiftedProduct(Wide(a), Wide(b), Wide(acc), Wide(full), Wide(res), p as int);
  }

  method Subtract64(a: Poly64, b: Poly64, p: int64) returns (res: Poly64)
    requires Fits(p) && Residues64(a, p) && Residues64(b, p)
    ensures Canonical64(res, p) && EqMod(Wide(res), Add(Wide(a), -1, Wide(b)), p as int)
  {
    hide Divides, TruncRem, Add;
    var n := if |a| > |b| then |a| else |b|;
    res := seq(n, _ => 0);
    for i := 0 to n
      invariant |res| == n
      invariant forall k :: 0 <= k < i ==> Wide(res)[k] == Residue(At(Wide(a), k) - At(Wide(b), k), p as int)
    {
      var va := if i < |a| then a[i] else 0;
      var vb := if i < |b| then b[i] else 0;
      assert 0 <= va < p && 0 <= vb < p by {
        assert i < |a| ==> 0 <= Wide(a)[i] < p as int;
        assert i < |b| ==> 0 <= Wide(b)[i] < p as int;
      }
      var diff := Residue64(va - vb, p);
      WideUpdate(res, i, diff);
      res := res[i := diff];
    }
    ghost var full := res;
    res := Trim64(res);
    SubtractedAll(Wide(a), Wide(b), Wide(full), Wide(res), p as int);
  }

  // ----- divP64 -----

  lemma WideResidues(a: Poly64, p: int64)
    requires Residues64(a, p)
    ensures forall i :: 0 <= i < |a| ==> 0 <= a[i] < p
  {
    forall i | 0 <= i < |a| ensures 0 <= a[i] < p { assert 0 <= Wide(a)[i] < p as int; }
  }

  /** One entry of the inner loop of divP64. */
  function SubtractedAt64(a: int64, factor: int64, b: int64, p: int64): (r: int64)
    requires Fits(p) && 0 <= a < p && 0 <= factor < p && 0 <= b < p
    ensures 0 <= r < p && r as int == SubtractedAt(a as int, factor as int, b as int, p as int)
  {
    ProductInRange(factor as int, b as int, p as int);
    Residue64(a - Rem(factor * b, p), p)
  }

  method SubtractShifted64(a: Poly64, factor: int64, i: nat, b: Poly64, p: int64) returns (r: Poly64)
    requires Fits(p) && Residues64(a, p) && Residues64(b, p) && b != [] && i + |b| - 1 < |a| && 0 <= factor < p
    ensures |r| == |a| && Residues64(r, p) && Reduced(Wide(a), factor as int, i, Wide(b), Wide(r), p as int)
  {
    hide Divides, SubtractedAt, SubtractedAt64;
    WideResidues(a, p);
    WideResidues(b, p);
    r := a;
    for j := 0 to |b|
      invariant |r| == |a| && forall k :: 0 <= k < |a| ==> 0 <= r[k] < p
      invariant forall k :: 0 <= k < |a| && !(i <= k < i + j) ==> r[k] == a[k]
      invariant forall l :: 0 <= l < j ==>
        r[i + l] as int == SubtractedAt(a[i + l] as int, factor as int, b[l] as int, p as int)
    {
      r := r[i + j := SubtractedAt64(r[i + j], factor, b[j], p)];
    }
    ReducedAll(Wide(a), factor as int, i, Wide(b), Wide(r), p as int);
  }

  method Divide64(a0: Poly64, b: Poly64, p: int64) returns (res: Result<(Poly64, Poly64)>)
    requires Fits(p) && Residues64(a0, p) && Canonical64(b, p)
    ensures res.DivisionByZero? <==> b == []
    ensures res.Ok? ==> IsDivision(Wide(a0), Wide(b), Wide(res.value.0), Wide(res.value.1), p as int)
    ensures b != [] && Prime(p as int) ==> res.Ok?
  {
    hide Divides, TruncRem, Conv, Gcd, Reduced, Dividing, Balanced, Residue, Prime;
    if b == [] {
      return DivisionByZero;
    }
    ghost var wa, wb, wp := Wide(a0), Wide(b), p as int;
    var a := Trim64(a0);
    TrimResidues(wa, Wide(a), wp);
    if |a| < |b| {
      NothingToDivide(wa, wb, Wide(a), wp);
      assert Wide([]) == [];
      return Ok(([], a));
    }
    var q: Poly64 := seq(|a| - |b| + 1, _ => 0);
    WideResidues(b, p);
    var inverse := InverseMod64(b[|b| - 1], p);
    if !inverse.Ok? {
      if Prime(wp) { PrimeInvertible(b[|b| - 1] as int, wp); }
      return NotInvertible;
    }
    DivideStart(wa, wb, Wide(q), Wide(a), wp);
    var i := |a| - |b|;
    ghost var length := |a|;
    while i >= 0
      invariant -1 <= i <= length - |b| && |a| == length && |q| == length - |b| + 1
      invariant Dividing(wa, wb, Wide(q), Wide(a), wp, i + 1) && Residues64(a, p)
    {
      if a[i + |b| - 1] == 0 {
        DivideSkip(wa, wb, Wide(q), Wide(a), wp, i);
      } else {
        WideResidues(a, p);
        ProductInRange(a[i + |b| - 1] as int, inverse.value as int, wp);
        var product := a[i + |b| - 1] * inverse.value;
        var factor := Residue64(product, p);
        var next := SubtractShifted64(a, factor, i, b, p);
        DivideStep(wa, wb, Wide(q), Wide(a), wp, i, inverse.value as int, factor as int, Wide(next));
        DividingResidues(wa, wb, Wide(q)[i := factor as int], Wide(next), wp, i);
        WideUpdate(q, i, factor);
        q := q[i := factor];
        a := next;
      }
      i := i - 1;
    }
    ghost var q0, r0 := Wide(q), Wide(a);
    q := Trim64(q);
    a := Trim64(a);
    DivideEnd(wa, wb, q0, r0, Wide(q), Wide(a), wp);
    return Ok((q, a));
  }

  lemma DividingResidues(a0: Poly, b: Poly, q: Poly, a: Poly, p: int, i: int)
    requires Dividing(a0, b, q, a, p, i)
    ensures Residues(a, p)
  {
  }

  // ----- gcdP64, powModP64 -----

  method ScaleAll64(a: Poly64, c: int64, p: int64) returns (r: Poly64)
    requires Fits(p) && Residues64(a, p) && 0 <= c < p
    ensures |r| == |a| && forall k :: 0 <= k < |a| ==> Wide(r)[k] == Residue(Wide(a)[k] * c as int, p as int)
  {
    hide Divides, TruncRem;
    WideResidues(a, p);
    r := a;
    for i := 0 to |a|
      invariant |r| == |a| && forall k :: i <= k < |a| ==> r[k] == a[k]
      invariant forall k :: 0 <= k < i ==> r[k] as int == Residue(a[k] as int * c as int, p as int)
    {
      ProductInRange(a[i] as int, c as int, p as int);
      var x := Residue64(r[i] * c, p);
      r := r[i := x];
    }
  }

  method PolyGcd64(a0: Poly64, b0: Poly64, p: int64) returns (g: Poly64)
    requires Fits(p) && Prime(p as int) && Canonical64(a0, p) && Canonical64(b0, p)
    ensures IsGcd(Wide(g), Wide(a0), Wide(b0), p as int)
  {
    hide Divides, Balanced, SameDivisors, Gcd, Prime, Residue;
    ghost var wp := p as int;
    var a, b := a0, b0;
    SameDivisorsReflexive(Wide(a), Wide(b), wp);
    assert Wide([]) == [];
    while b != []
      invariant Canonical64(a, p) && Canonical64(b, p) && SameDivisors(Wide(a), Wide(b), Wide(a0), Wide(b0), wp)
      decreases |b|
    {
      var division := Divide64(a, b, p);
      var (q, r) := division.value;
      GcdStep(Wide(a), Wide(b), Wide(q), Wide(r), wp);
      SameDivisorsTransitive(Wide(b), Wide(r), Wide(a), Wide(b), Wide(a0), Wide(b0), wp);
      a, b := b, r;
    }
    g := a;
    if a != [] {
      WideResidues(a, p);
      var inverse := InverseMod64(a[|a| - 1], p);
      PrimeInvertible(a[|a| - 1] as int, wp);
      g := ScaleAll64(a, inverse.value, p);
      NormalisedGcd(Wide(a), inverse.value as int, Wide(g), Wide(a0), Wide(b0), wp);
    }
  }

  method TimesMod64(a: Poly64, b: Poly64, m: Poly64, p: int64) returns (r: Poly64)
    requires Fits(p) && Prime(p as int) && Canonical64(m, p) && m != [] && Residues64(a, p) && Residues64(b, p)
    ensures Canonical64(r, p) && |r| < |m| && Cong(Wide(r), Times(Wide(a), Wide(b)), Wide(m), p as int)
  {
    hide Divides, Balanced, Cong, EqMod, Prime, Times;
    var product := Multiply64(a, b, p);
    var division := Divide64(product, m, p);
    r := division.value.1;
    var q := division.value.0;
    RemainderOfProduct(Wide(a), Wide(b), Wide(product), Wide(m), Wide(q), Wide(r), p as int);
  }

  method PowerMod64(base0: Poly64, exp0: nat, m: Poly64, p: int64) returns (res: Poly64)
    requires Fits(p) && Prime(p as int) && Canonical64(m, p) && m != [] && Residues64(base0, p)
    ensures Canonical64(res, p) && Cong(Wide(res), Power(Wide(base0), exp0), Wide(m), p as int)
    ensures if exp0 == 0 then Wide(res) == [1] else |res| < |m|
  {
    hide Divides, Balanced, Cong, Power, Times, Prime;
    ghost var wm, wp := Wide(m), p as int;
    res := [1];
    assert Wide(res) == [1];
    var division := Divide64(base0, m, p);
    var base := division.value.1;
    var quotient := division.value.0;
    RemainderCong(Wide(base0), wm, Wide(quotient), Wide(base), wp);
    var exp := exp0;
    PowerStart(Wide(base), Wide(base0), exp, wm, wp);
    while exp != 0
      invariant Canonical64(res, p) && Canonical64(base, p)
      invariant Cong(Times(Wide(res), Power(Wide(base), exp)), Power(Wide(base0), exp0), wm, wp)
      invariant if exp == exp0 then Wide(res) == [1] else Wide(res) == [1] || |res| < |m|
      invariant exp == 0 && exp0 > 0 ==> |res| < |m|
      decreases exp
    {
      var rem := exp % 2;
      ghost var r0, b0 := Wide(res), Wide(base);
      if rem != 0 {
        res := TimesMod64(res, base, m, p);
      }
      base := TimesMod64(base, base, m, p);
      PowerStep(r0, b0, exp, Wide(res), Wide(base), Power(Wide(base0), exp0), wm, wp);
      exp := exp / 2;
    }
    PowerEnd(Wide(res), Wide(base), Power(Wide(base0), exp0), wm, wp);
  }

  // ----- The two paths agree -----

  /** A multiple of `a` without coefficients from degree |a| - 1 on vanishes. */
  lemma MultipleTooLow(a: Poly, b: Poly, p: int)
    requires Prime(p) && Canonical(a, p) && a != [] && ModDividesPoly(a, b, p)
    requires forall k :: k >= |a| - 1 ==> Divides(p, At(b, k))
    ensures EqMod(b, [], p)
  {
    hide Divides, Conv, Prime, At;
    var s := CongElim(b, [], a, p);
    forall k ensures Divides(p, At(b, k) - Conv(s, a, k)) {
      assert Divides(p, At(b, k) - At([], k) - Conv(s, a, k));
      AtNothing(k);
    }
    forall k | k >= |a| - 1 ensures Divides(p, Conv(s, a, k)) {
      DividesSum(p, At(b, k), At(b, k) - Conv(s, a, k), 1, -1);
    }
    MultipleTooHigh(s, a, p, |s|);
    ZeroFromEntries(s, p);
    forall k ensures Divides(p, At(b, k) - At([], k)) {
      AtNothing(k);
      ZeroModConv(s, a, p, k);
      DividesSum(p, At(b, k) - Conv(s, a, k), Conv(s, a, k), 1, 1);
    }
  }

  lemma DifferenceDivides(a: Poly, x: Poly, y: Poly, p: int)
    requires Cong(x, y, a, p)
    ensures ModDividesPoly(a, Add(x, -1, y), p)
  {
    hide Divides, At, Cong, Add;
    CongReflexive(y, a, p);
    CongAdd(x, y, -1, y, y, a, p);
    var z := Add(y, -1, y);
    forall k ensures Divides(p, At(z, k) - At([], k)) {
      assert At(z, k) == At(y, k) + -1 * At(y, k - 0);
      AtNothing(k);
      DividesSelf(p);
    }
    EqModCong(z, [], a, p);
    CongTransitive(Add(x, -1, y), z, [], a, p);
  }

  lemma DifferenceAt(x: Poly, y: Poly, k: int)
    ensures At(Add(x, -1, y), k) == At(x, k) - At(y, k)
  {
    assert At(Add(x, -1, y), k) == At(x, k) + -1 * At(y, k - 0);
  }

  /** Canonical polynomials that agree modulo `a`, and in all coefficients from its degree on, are equal. */
  lemma ShortUnique(a: Poly, x: Poly, y: Poly, p: int)
    requires Prime(p) && Canonical(a, p) && a != [] && Canonical(x, p) && Canonical(y, p) && Cong(x, y, a, p)
    requires forall k :: k >= |a| - 1 ==> At(x, k) == At(y, k)
    ensures x == y
  {
    hide Divides, Prime, At, Cong, Add, Canonical;
    var d := Add(x, -1, y);
    DifferenceDivides(a, x, y, p);
    forall k | k >= |a| - 1 ensures Divides(p, At(d, k)) {
      DifferenceAt(x, y, k);
      DividesSelf(p);
    }
    MultipleTooLow(a, d, p);
    forall k ensures Divides(p, At(x, k) - At(y, k)) {
      assert Divides(p, At(d, k) - At([], k));
      DifferenceAt(x, y, k);
      AtNothing(k);
    }
    PrimeAboveOne(p);
    CanonicalUnique(x, y, p);
  }

  lemma GcdsDivide(g: Poly, h: Poly, a: Poly, b: Poly, p: int)
    requires IsGcd(g, a, b, p) && IsGcd(h, a, b, p)
    ensures ModDividesPoly(g, h, p)
  {
    hide Cong, Times;
    TimesOne(g);
    MultipleCong([1], g, p);
    DividesNothing(g, p);
    assert Common(g, g, [], p);
    assert Common(g, a, b, p);
    assert Common(g, h, [], p);
  }

  lemma MonicLength(g: Poly, h: Poly, p: int)
    requires Prime(p) && Canonical(g, p) && g != [] && Canonical(h, p) && h != [] && h[|h| - 1] == 1
    requires ModDividesPoly(g, h, p)
    ensures |g| <= |h|
  {
    hide Divides, Prime, At;
    if |g| > |h| {
      BeyondLength(h, |g| - 1, p);
      MultipleTooLow(g, h, p);
      AtNothing(|h| - 1);
      LastAt(h);
      assert Divides(p, At(h, |h| - 1) - At([], |h| - 1));
      PrimeAboveOne(p);
      DivisorBound(p, 1);
    }
  }

  lemma BeyondLength(h: Poly, n: nat, p: int)
    requires n >= |h|
    ensures forall k :: k >= n ==> Divides(p, At(h, k))
  {
    hide Divides;
    DividesSelf(p);
  }

  lemma LastAt(h: Poly)
    requires h != []
    ensures At(h, |h| - 1) == h[|h| - 1]
  {
  }

  lemma EmptyGcd(g: Poly, h: Poly, p: int)
    requires p > 0 && Canonical(g, p) && Canonical(h, p) && ModDividesPoly(g, h, p) && g == []
    ensures h == []
  {
    CongEmpty(h, [], p);
    CanonicalUnique(h, [], p);
  }

  /** gcdP and gcdP64 return the same polynomial. */
  lemma GcdUnique(g: Poly, h: Poly, a: Poly, b: Poly, p: int)
    requires Prime(p) && IsGcd(g, a, b, p) && IsGcd(h, a, b, p)
    ensures g == h
  {
    hide Divides, Prime, Cong, SameDivisors;
    PrimeAboveOne(p);
    GcdsDivide(g, h, a, b, p);
    GcdsDivide(h, g, a, b, p);
    if g == [] || h == [] {
      if g == [] { EmptyGcd(g, h, p); } else { EmptyGcd(h, g, p); }
    } else {
      MonicLength(g, h, p);
      MonicLength(h, g, p);
      CongReflexive([], g, p);
      SelfDivides(g, p);
      CongSymmetric(g, [], g, p);
      CongTransitive(h, [], g, g, p);
      ShortUnique(g, h, g, p);
    }
  }

  lemma SelfDivides(g: Poly, p: int)
    ensures ModDividesPoly(g, g, p)
  {
    hide Cong, Times;
    TimesOne(g);
    MultipleCong([1], g, p);
  }

  /** powModP and powModP64 return the same polynomial. */
  lemma PowerUnique(r: Poly, s: Poly, target: Poly, m: Poly, p: int)
    requires Prime(p) && Canonical(m, p) && m != [] && Canonical(r, p) && Canonical(s, p) && |r| < |m| && |s| < |m|
    requires Cong(r, target, m, p) && Cong(s, target, m, p)
    ensures r == s
  {
    hide Divides, Prime, Cong;
    CongSymmetric(s, target, m, p);
    CongTransitive(r, target, s, m, p);
    ShortUnique(m, r, s, p);
  }
}
