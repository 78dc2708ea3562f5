/** Division, pseudo-division and greatest common divisors of polynomials in one variable
    (src/cas/Symbolic.cpp:4880-5158, 5233-5279). */
module RationalDivision {
  import opened RealProducts
  import opened RationalPoly
  import opened RationalRing

  datatype Result<T> = Ok(value: T) | DivisionByZero

  // ----- Rows of coefficients -----

  function PowerOf(e: real, n: nat): real {
    if n == 0 then 1.0 else By(e, PowerOf(e, n - 1))
  }

  function Zeros(n: nat): (r: Poly)
    ensures |r| == n && forall i :: 0 <= i < n ==> r[i] == 0.0
  {
    seq(n, _ => 0.0)
  }

  lemma {:induction false} EvalShifted(n: nat, p: Poly, x: real)
    ensures Eval(Zeros(n) + p, x) == By(PowerOf(x, n), Eval(p, x))
  {
    hide By;
    if n == 0 {
      assert Zeros(0) + p == p;
      ByConstant(Eval(p, x));
    } else {
      EvalShifted(n - 1, p, x);
      assert Zeros(n) + p == [0.0] + (Zeros(n - 1) + p);
      EvalShift(Zeros(n - 1) + p, x);
      ByTwice(x, PowerOf(x, n - 1), Eval(p, x));
    }
  }

  lemma {:induction false} PlusAt(p: Poly, q: Poly)
    requires |p| >= |q|
    ensures |Plus(p, q)| == |p| && forall i :: 0 <= i < |p| ==> Plus(p, q)[i] == p[i] + if i < |q| then q[i] else 0.0
  {
    if q != [] {
      PlusAt(p[1..], q[1..]);
      forall i | 0 <= i < |p| ensures Plus(p, q)[i] == p[i] + if i < |q| then q[i] else 0.0 {
        if i > 0 { assert Plus(p, q)[i] == Plus(p[1..], q[1..])[i - 1]; }
      }
    }
  }

  /** p - c * X^n * b, without trimming. */
  function Less(p: Poly, c: real, n: nat, b: Poly): Poly {
    Plus(p, Scale(-c, Zeros(n) + b))
  }

  lemma LessAt(p: Poly, c: real, n: nat, b: Poly)
    requires n + |b| <= |p|
    ensures |Less(p, c, n, b)| == |p|
    ensures forall k :: 0 <= k < |p| ==>
      Less(p, c, n, b)[k] == if n <= k < n + |b| then p[k] - By(c, b[k - n]) else p[k]
  {
    PlusAt(p, Scale(-c, Zeros(n) + b));
    forall k | 0 <= k < |p| ensures Less(p, c, n, b)[k] == if n <= k < n + |b| then p[k] - By(c, b[k - n]) else p[k] {
      if k < n { ByConstant(-c); }
    }
  }

  lemma EvalLess(p: Poly, c: real, n: nat, b: Poly, x: real)
    ensures Eval(Less(p, c, n, b), x) == Eval(p, x) - By(c, By(PowerOf(x, n), Eval(b, x)))
  {
    hide By, Plus, Eval, Scale, Zeros, PowerOf;
    EvalPlus(p, Scale(-c, Zeros(n) + b), x);
    EvalScale(-c, Zeros(n) + b, x);
    EvalShifted(n, b, x);
    var e := By(PowerOf(x, n), Eval(b, x));
    BySum(e, c, -c);
    BySwap(c, e);
    BySwap(-c, e);
    ByConstant(e);
  }

  /** trimCoeffs */
  method TrimCoeffs(a: Poly) returns (r: Poly)
    ensures r == Trim(a)
  {
    r := a;
    while r != [] && r[|r| - 1] == 0.0
      invariant Trim(r) == Trim(a)
    {
      r := r[..|r| - 1];
    }
  }

  /** A[i + j] -= q * B[j] for all j. */
  method SubtractRow(a: Poly, q: real, i: nat, b: Poly) returns (r: Poly)
    requires i + |b| <= |a|
    ensures r == Less(a, q, i, b)
  {
    r := a;
    for j := 0 to |b|
      invariant |r| == |a|
      invariant forall k :: 0 <= k < |a| ==> r[k] == if i <= k < i + j then a[k] - By(q, b[k - i]) else a[k]
    {
      r := r[i + j := r[i + j] - q * b[j]];
    }
    LessAt(a, q, i, b);
    assert r == Less(a, q, i, b);
  }

  /** c := c * q for every coefficient. */
  method ScaleRow(q: real, a: Poly) returns (r: Poly)
    ensures r == Scale(q, a)
  {
    r := a;
    for i := 0 to |a|
      invariant |r| == |a| && forall k :: 0 <= k < |a| ==> r[k] == if k < i then By(q, a[k]) else a[k]
    {
      r := r[i := r[i] * q];
    }
  }

  // ----- polyDivCoeffs -----

  /** a0 = b * q + a */
  ghost predicate Accounts(a0: Poly, b: Poly, q: Poly, a: Poly) {
    forall x :: Eval(a0, x) == By(Eval(b, x), Eval(q, x)) + Eval(a, x)
  }

  lemma AccountsStart(a: Poly, b: Poly, n: nat)
    ensures Accounts(a, b, Zeros(n), a)
  {
    hide By, Eval, Zeros, PowerOf;
    forall x ensures Eval(a, x) == By(Eval(b, x), Eval(Zeros(n), x)) + Eval(a, x) {
      assert Zeros(n) + [] == Zeros(n);
      EvalShifted(n, [], x);
      EvalConstant(0.0, x);
      ByConstant(PowerOf(x, n));
      ByConstant(Eval(b, x));
    }
  }

  lemma AccountsStep(a0: Poly, b: Poly, q: Poly, a: Poly, c: real, i: nat)
    requires Accounts(a0, b, q, a) && i < |q|
    ensures Accounts(a0, b, Less(q, -c, i, [1.0]), Less(a, c, i, b))
  {
    hide By, Eval, Less, PowerOf;
    forall x ensures Eval(a0, x) == By(Eval(b, x), Eval(Less(q, -c, i, [1.0]), x)) + Eval(Less(a, c, i, b), x) {
      EvalLess(q, -c, i, [1.0], x);
      EvalLess(a, c, i, b, x);
      EvalConstant(1.0, x);
      StepValues(Eval(b, x), Eval(q, x), c, PowerOf(x, i));
    }
  }

  lemma StepValues(b: real, q: real, c: real, power: real)
    ensures By(b, q - By(-c, By(power, 1.0))) == By(b, q) + By(c, By(power, b))
  {
    hide By;
    ByConstant(power);
    BySum(power, c, -c);
    ByConstant(power);
    BySum(b, q, By(c, power));
    ByTwice(c, power, b);
    BySwap(By(c, power), b);
  }

  lemma AccountsDivision(a0: Poly, b: Poly, q: Poly, a: Poly)
    requires Accounts(a0, b, q, a) && Trimmed(a0) && |Trim(a)| < |b|
    ensures Division(a0, b, Trim(q), Trim(a))
  {
    hide By, Eval, Trim, Add, Mul;
    var u, v := Trim(q), Trim(a);
    forall x ensures Eval(a0, x) == Eval(Add(Mul(b, u), v), x) {
      EvalTrim(q, x);
      EvalTrim(a, x);
      EvalMul(b, u, x);
      EvalAdd(Mul(b, u), v, x);
    }
    ByValues(a0, Add(Mul(b, u), v));
  }

  lemma {:induction false} TrimShort(a: Poly, n: nat)
    requires forall k :: n <= k < |a| ==> a[k] == 0.0
    ensures |Trim(a)| <= n
  {
    if a != [] && a[|a| - 1] == 0.0 { TrimShort(a[..|a| - 1], n); }
  }

  lemma SetAsLess(q: Poly, i: nat, c: real)
    requires i < |q| && q[i] == 0.0
    ensures q[i := c] == Less(q, -c, i, [1.0])
  {
    LessAt(q, -c, i, [1.0]);
    ByConstant(-c);
    assert q[i := c] == Less(q, -c, i, [1.0]);
  }

  method DivCoeffs(a0: Poly, b: Poly) returns (q: Poly, a: Poly)
    requires Trimmed(a0) && Trimmed(b) && b != []
    ensures Division(a0, b, q, a)
  {
    a := TrimCoeffs(a0);
    TrimNothing(a0);
    if |a| < |b| {
      q := [];
      AccountsStart(a, b, 0);
      AccountsDivision(a, b, [], a);
      TrimNothing(q);
      return;
    }
    var lead := b[|b| - 1];
    var i: int := |a| - |b|;
    q := seq(i + 1, _ => 0.0);
    AccountsStart(a0, b, i + 1);
    assert q == Zeros(i + 1);
    while i >= 0
      invariant -1 <= i <= |a| - |b| && |a| == |a0| && |q| == |a| - |b| + 1
      invariant Accounts(a0, b, q, a)
      invariant forall k :: i + |b| <= k < |a| ==> a[k] == 0.0
      invariant forall k :: 0 <= k <= i ==> q[k] == 0.0
    {
      hide Trimmed, Accounts, Eval, Less;
      if a[i + |b| - 1] != 0.0 {
        var c := a[i + |b| - 1] / lead;
        AccountsStep(a0, b, q, a, c, i);
        SetAsLess(q, i, c);
        LessAt(a, c, i, b);
        Quotient(a[i + |b| - 1], lead);
        q := q[i := c];
        a := SubtractRow(a, c, i, b);
      }
      i := i - 1;
    }
    TrimShort(a, |b| - 1);
    AccountsDivision(a0, b, q, a);
    q := TrimCoeffs(q);
    a := TrimCoeffs(a);
  }

  lemma Quotient(u: real, v: real)
    requires v != 0.0
    ensures u - By(u / v, v) == 0.0
  {
  }

  /** polyDiv: quotient and remainder, unless the divisor is zero. */
  method PolyDiv(a: Poly, b: Poly) returns (r: Result<(Poly, Poly)>)
    requires Trimmed(a) && Trimmed(b)
    ensures r.DivisionByZero? <==> b == []
    ensures r.Ok? ==> Division(a, b, r.value.0, r.value.1)
  {
    if b == [] {
      return DivisionByZero;
    }
    if a == [] {
      MulZero(b);
      AddZero([]);
      return Ok(([], a));
    }
    var q, rest := DivCoeffs(a, b);
    return Ok((q, rest));
  }

  /** Exact division: the first part of polyDiv when the divisor is a factor. */
  method DivideOut(b: Poly, ghost k: Poly, a: Poly) returns (q: Poly)
    requires Trimmed(b) && b != [] && Trimmed(k) && a == Mul(b, k)
    ensures q == k
  {
    var d := PolyDiv(a, b);
    ExactQuotient(b, k, d.value.0, d.value.1);
    q := d.value.0;
  }

  // ----- polyPseudoRemCoeffs -----

  /** c * a0 = b * q + a */
  ghost predicate PseudoAccounts(a0: Poly, b: Poly, c: real, q: Poly, a: Poly) {
    Trimmed(q) && Scaled(c, a0) == Add(Mul(b, q), a)
  }

  /** X^n */
  ghost function XPower(n: nat): Poly {
    Zeros(n) + [1.0]
  }

  lemma EvalXPower(n: nat, x: real)
    ensures Eval(XPower(n), x) == PowerOf(x, n)
  {
    hide By, PowerOf;
    EvalShifted(n, [1.0], x);
    EvalConstant(1.0, x);
    ByConstant(PowerOf(x, n));
  }

  /** lead * a - c * X^n * b */
  lemma PseudoStep(a0: Poly, b: Poly, d: real, q: Poly, a: Poly, lead: real, c: real, n: nat)
    requires PseudoAccounts(a0, b, d, q, a)
    ensures var next := Add(Scaled(lead, q), Scaled(c, XPower(n)));
      PseudoAccounts(a0, b, By(lead, d), next, Trim(Less(Scale(lead, a), c, n, b)))
  {
    hide By, Eval, Trim, Add, Mul, Scaled, Scale, Less, PowerOf;
    var next := Add(Scaled(lead, q), Scaled(c, XPower(n)));
    var rest := Less(Scale(lead, a), c, n, b);
    forall x ensures Eval(Scaled(By(lead, d), a0), x) == Eval(Add(Mul(b, next), Trim(rest)), x) {
      EvalScaled(By(lead, d), a0, x);
      EvalScaled(d, a0, x);
      EvalAdd(Mul(b, q), a, x);
      EvalMul(b, q, x);
      EvalAdd(Mul(b, next), Trim(rest), x);
      EvalMul(b, next, x);
      EvalAdd(Scaled(lead, q), Scaled(c, XPower(n)), x);
      EvalScaled(lead, q, x);
      EvalScaled(c, XPower(n), x);
      EvalXPower(n, x);
      EvalTrim(rest, x);
      EvalLess(Scale(lead, a), c, n, b, x);
      EvalScale(lead, a, x);
      PseudoValues(Eval(a0, x), Eval(b, x), d, Eval(q, x), Eval(a, x), lead, c, PowerOf(x, n));
    }
    ByValues(Scaled(By(lead, d), a0), Add(Mul(b, next), Trim(rest)));
  }

  lemma PseudoValues(a0: real, b: real, d: real, q: real, a: real, lead: real, c: real, power: real)
    requires By(d, a0) == By(b, q) + a
    ensures By(By(lead, d), a0) == By(b, By(lead, q) + By(c, power)) + (By(lead, a) - By(c, By(power, b)))
  {
    hide By;
    ByTwice(lead, d, a0);
    BySum(lead, By(b, q), a);
    ByTwice(lead, b, q);
    BySum(b, By(lead, q), By(c, power));
    ByTwice(c, power, b);
    BySwap(By(c, power), b);
  }

  lemma PseudoScaled(a0: Poly, b: Poly, d: real, q: Poly, a: Poly, c: real)
    requires PseudoAccounts(a0, b, d, q, a) && Trimmed(a0)
    ensures PseudoAccounts(a0, b, By(c, d), Scaled(c, q), Scaled(c, a))
  {
    hide By, Add, Mul, Scaled;
    ScaledTwice(c, d, a0);
    ScaledAdd(c, Mul(b, q), a);
    ScaledMul(c, b, q);
  }

  lemma PseudoStart(a: Poly, b: Poly)
    requires Trimmed(a)
    ensures PseudoAccounts(a, b, 1.0, [], a)
  {
    hide Add, Mul, Scaled;
    ScaledTwice(1.0, 1.0, a);
    MulZero(b);
    AddZero(a);
  }

  lemma {:induction false} PowerNonZero(e: real, n: nat)
    requires e != 0.0
    ensures PowerOf(e, n) != 0.0
  {
    hide By;
    if n > 0 {
      PowerNonZero(e, n - 1);
      ByNonZero(e, PowerOf(e, n - 1));
    }
  }

  /** Everything is a multiple of a constant. */
  lemma ConstantDivides(a: Poly, b: Poly)
    requires Trimmed(a) && Trimmed(b) && |b| == 1
    ensures PseudoAccounts(a, b, 1.0, Scaled(1.0 / b[0], a), [])
  {
    hide By, Add, Mul, Scaled;
    var q := Scaled(1.0 / b[0], a);
    ScaledMul(1.0 / b[0], b, a);
    ScaledIsOne(b);
    MulOne(a);
    AddZero(a);
    ScaledTwice(1.0, 1.0, a);
  }

  lemma ScaledIsOne(b: Poly)
    requires Trimmed(b) && |b| == 1
    ensures Scaled(1.0 / b[0], b) == [1.0]
  {
    Reciprocal(b[0]);
    assert Scale(1.0 / b[0], b) == [1.0];
    TrimNothing([1.0]);
  }

  /** The leading coefficients cancel. */
  lemma LeadCancels(a: Poly, b: Poly)
    requires |a| >= |b| > 0
    ensures |Trim(Less(Scale(b[|b| - 1], a), a[|a| - 1], |a| - |b|, b))| < |a|
  {
    hide By, Trim, Less;
    var s := Scale(b[|b| - 1], a);
    LessAt(s, a[|a| - 1], |a| - |b|, b);
    BySwap(b[|b| - 1], a[|a| - 1]);
    TrimShort(Less(s, a[|a| - 1], |a| - |b|, b), |a| - 1);
  }

  /** Some nonzero multiple of a0 is a multiple of b plus the result, which is shorter than b. */
  method PseudoRemainder(a0: Poly, b: Poly) returns (a: Poly, ghost c: real, ghost q: Poly)
    requires Trimmed(a0) && Trimmed(b) && b != []
    ensures Trimmed(a) && |a| < |b| && c != 0.0 && PseudoAccounts(a0, b, c, q, a)
  {
    hide Trimmed, PseudoAccounts, Trim, Less, PowerOf, By;
    a := TrimCoeffs(a0);
    TrimNothing(a0);
    PseudoStart(a, b);
    c, q := 1.0, [];
    LeadNonZero(b);
    if |b| == 1 {
      ConstantDivides(a, b);
      q := Scaled(1.0 / b[0], a);
      a := [];
      EmptyTrimmed();
      return;
    }
    var d: int := |a| - |b| + 1;
    if d <= 0 {
      return;
    }
    var lead := b[|b| - 1];
    while |a| >= |b|
      invariant Trimmed(a) && c != 0.0 && PseudoAccounts(a0, b, c, q, a)
      decreases |a|
    {
      PseudoStep(a0, b, c, q, a, lead, a[|a| - 1], |a| - |b|);
      LeadCancels(a, b);
      ByNonZero(lead, c);
      c, q := By(lead, c), Add(Scaled(lead, q), Scaled(a[|a| - 1], XPower(|a| - |b|)));
      var scaled := ScaleRow(lead, a);
      a := SubtractRow(scaled, a[|a| - 1], |a| - |b|, b);
      a := TrimCoeffs(a);
      d := d - 1;
    }
    if d > 0 {
      var m := PowerOf(lead, d);
      PowerNonZero(lead, d);
      PseudoScaled(a0, b, c, q, a, m);
      ByNonZero(m, c);
      c, q := By(m, c), Scaled(m, q);
      ScaledLength(m, a);
      ScaledIsScale(m, a);
      a := ScaleRow(m, a);
    }
  }

  lemma LeadNonZero(b: Poly)
    requires Trimmed(b) && b != []
    ensures b[|b| - 1] != 0.0
  {
  }

  lemma ScaledIsScale(c: real, p: Poly)
    requires c != 0.0 && Trimmed(p)
    ensures Scaled(c, p) == Scale(c, p)
  {
    if p != [] { ByNonZero(c, p[|p| - 1]); }
    TrimNothing(Scale(c, p));
  }

  // ----- polyGCD -----

  lemma CombinationScaled(a: Poly, b: Poly, s: Poly, t: Poly, c: real)
    ensures Combination(a, b, Scaled(c, s), Scaled(c, t)) == Scaled(c, Combination(a, b, s, t))
  {
    hide Add, Mul, Scaled;
    ScaledMul(c, s, a);
    ScaledMul(c, t, b);
    ScaledAdd(c, Mul(s, a), Mul(t, b));
  }

  lemma CombinationStep(a: Poly, b: Poly, s: Poly, t: Poly, u: Poly, v: Poly, q: Poly)
    ensures Combination(a, b, Sub(s, Mul(q, u)), Sub(t, Mul(q, v))) ==
      Sub(Combination(a, b, s, t), Mul(q, Combination(a, b, u, v)))
  {
    hide Add, Mul, Sub, Eval, By;
    MulSub(a, s, Mul(q, u));
    MulSub(b, t, Mul(q, v));
    MulAssociative(q, u, a);
    MulAssociative(q, v, b);
    MulAdd(q, Mul(u, a), Mul(v, b));
    var l := Add(Sub(Mul(s, a), Mul(q, Mul(u, a))), Sub(Mul(t, b), Mul(q, Mul(v, b))));
    var r := Sub(Add(Mul(s, a), Mul(t, b)), Add(Mul(q, Mul(u, a)), Mul(q, Mul(v, b))));
    forall x ensures Eval(l, x) == Eval(r, x) {
      EvalAdd(Sub(Mul(s, a), Mul(q, Mul(u, a))), Sub(Mul(t, b), Mul(q, Mul(v, b))), x);
      EvalSub(Mul(s, a), Mul(q, Mul(u, a)), x);
      EvalSub(Mul(t, b), Mul(q, Mul(v, b)), x);
      EvalSub(Add(Mul(s, a), Mul(t, b)), Add(Mul(q, Mul(u, a)), Mul(q, Mul(v, b))), x);
      EvalAdd(Mul(s, a), Mul(t, b), x);
      EvalAdd(Mul(q, Mul(u, a)), Mul(q, Mul(v, b)), x);
    }
    ByValues(l, r);
  }

  lemma CombinationEnds(a: Poly, b: Poly)
    requires Trimmed(a) && Trimmed(b)
    ensures Combination(a, b, [1.0], []) == a && Combination(a, b, [], [1.0]) == b
  {
    hide Add, Mul;
    MulOne(a);
    MulOne(b);
    MulZero(a);
    MulZero(b);
    AddZero(a);
    AddZero(b);
  }

  /** Whatever divides both of `x` and `y` divides both of `a` and `b`. */
  ghost predicate DividesBack(x: Poly, y: Poly, a: Poly, b: Poly) {
    forall d :: Trimmed(d) && Divides(d, x) && Divides(d, y) ==> Divides(d, a) && Divides(d, b)
  }

  lemma BackStep(a: Poly, b: Poly, x: Poly, y: Poly, c: real, q: Poly, r: Poly, e: real)
    requires DividesBack(x, y, a, b) && c != 0.0 && e != 0.0 && PseudoAccounts(x, y, c, q, r) && Trimmed(x)
    requires Trimmed(r)
    ensures DividesBack(y, Scaled(e, r), a, b)
  {
    hide Divides, Trimmed, Add, Mul, Scaled, By;
    forall d | Trimmed(d) && Divides(d, y) && Divides(d, Scaled(e, r)) ensures Divides(d, a) && Divides(d, b) {
      Undo(e, r);
      DividesScaled(d, 1.0 / e, Scaled(e, r));
      DividesMul(d, y, q);
      DividesAdd(d, Mul(y, q), r);
      Undo(c, x);
      DividesScaled(d, 1.0 / c, Scaled(c, x));
    }
  }

  lemma Undo(c: real, p: Poly)
    requires c != 0.0 && Trimmed(p)
    ensures Scaled(1.0 / c, Scaled(c, p)) == p
  {
    hide Scaled, By, Trimmed;
    Reciprocal(c);
    ScaledTwice(1.0 / c, c, p);
  }

  /** Dividing by the leading coefficient. */
  lemma Normalised(g: Poly)
    requires Trimmed(g) && g != []
    ensures Monic(Scaled(1.0 / g[|g| - 1], g))
  {
    hide Scaled, By;
    Reciprocal(g[|g| - 1]);
    ScaledLength(1.0 / g[|g| - 1], g);
  }

  /** `g` combines `a` and `b` and divides both. */
  ghost predicate IsGcd(g: Poly, a: Poly, b: Poly, s: Poly, t: Poly) {
    Trimmed(g) && Combination(a, b, s, t) == g && Divides(g, a) && Divides(g, b)
  }

  lemma GcdNormalised(g: Poly, a: Poly, b: Poly, s: Poly, t: Poly, c: real)
    requires IsGcd(g, a, b, s, t) && c != 0.0 && Trimmed(a) && Trimmed(b)
    ensures IsGcd(Scaled(c, g), a, b, Scaled(c, s), Scaled(c, t))
  {
    hide Divides, Combination, Scaled;
    CombinationScaled(a, b, s, t, c);
    ScaledDivides(g, c, a);
    ScaledDivides(g, c, b);
  }

  lemma QuotientNonZero(a: real, b: real)
    requires a != 0.0 && b != 0.0
    ensures a / b != 0.0
  {
    if a / b == 0.0 { assert a == (a / b) * b; }
  }

  /** The divisor of a pseudo-remainder in the subresultant sequence. */
  function RemainderDivisor(g: real, h: real, delta: nat): (d: real)
    requires g != 0.0 && h != 0.0
    ensures d != 0.0
  {
    PowerNonZero(h, delta);
    ByNonZero(g, PowerOf(h, delta));
    var d := -By(g, PowerOf(h, delta));
    if delta % 2 == 0 then -d else d
  }

  /** h' = g^delta / h^(delta - 1) */
  function NextHeight(g: real, h: real, delta: nat): (r: real)
    requires g != 0.0 && h != 0.0
    ensures r != 0.0
  {
    if delta == 0 then h else
      PowerNonZero(h, delta - 1);
      PowerNonZero(g, delta);
      QuotientNonZero(PowerOf(g, delta), PowerOf(h, delta - 1));
      PowerOf(g, delta) / PowerOf(h, delta - 1)
  }

  /** Two consecutive remainders: combinations of `a` and `b` whose common divisors divide both. */
  ghost predicate Remainders(a: Poly, b: Poly, x: Poly, y: Poly, s: Poly, t: Poly, u: Poly, v: Poly) {
    && Trimmed(x) && Trimmed(y) && Combination(a, b, s, t) == x && Combination(a, b, u, v) == y
    && DividesBack(x, y, a, b)
  }

  lemma RemaindersStep(a: Poly, b: Poly, x: Poly, y: Poly, s: Poly, t: Poly, u: Poly, v: Poly, c: real, q: Poly,
                       r: Poly, e: real)
    requires Remainders(a, b, x, y, s, t, u, v) && PseudoAccounts(x, y, c, q, r) && Trimmed(r) && c != 0.0 && e != 0.0
    ensures Remainders(a, b, y, Scaled(e, r), u, v, Scaled(e, Sub(Scaled(c, s), Mul(q, u))),
      Scaled(e, Sub(Scaled(c, t), Mul(q, v))))
  {
    hide Combination, PseudoAccounts, DividesBack, Trimmed, Scaled, Sub, Mul;
    Combined(a, b, x, y, s, t, u, v, c, q, r, e);
    BackStep(a, b, x, y, c, q, r, e);
  }

  method PolyGcd(a: Poly, b: Poly) returns (g: Poly, ghost s: Poly, ghost t: Poly)
    requires Trimmed(a) && Trimmed(b)
    ensures IsGcd(g, a, b, s, t)
    ensures if a == [] then g == b else if b == [] then g == a else Monic(g)
  {
    CombinationEnds(a, b);
    DividesSelf(a);
    DividesSelf(b);
    if a == [] {
      return b, [], [1.0];
    }
    if b == [] {
      return a, [1.0], [];
    }
    var x, y := a, b;
    ghost var u, v;
    s, t, u, v := [1.0], [], [], [1.0];
    if |x| < |y| {
      x, y := y, x;
      s, t, u, v := u, v, s, t;
    }
    assert Remainders(a, b, x, y, s, t, u, v);
    hide *;
    var gg, h := 1.0, 1.0;
    while true
      invariant Remainders(a, b, x, y, s, t, u, v) && y != [] && |x| >= |y| && gg != 0.0 && h != 0.0
      decreases |y|
    {
      AreTrimmed(a, b, x, y, s, t, u, v);
      var delta := |x| - |y|;
      var r, c, q := PseudoRemainder(x, y);
      if r == [] {
        LastBack(a, b, x, y, s, t, u, v, c, q);
        x, s, t := y, u, v;
        break;
      }
      LeadNonZero(y);
      var divisor := RemainderDivisor(gg, h, delta);
      var e := 1.0 / divisor;
      QuotientNonZero(1.0, divisor);
      RemaindersStep(a, b, x, y, s, t, u, v, c, q, r, e);
      ScaledLength(e, r);
      gg := y[|y| - 1];
      h := NextHeight(gg, h, delta);
      s, t, u, v := u, v, Scaled(e, Sub(Scaled(c, s), Mul(q, u))), Scaled(e, Sub(Scaled(c, t), Mul(q, v)));
      x := y;
      y := ScaleRow(e, r);
      ScaledIsScale(e, r);
      TrimNothing(y);
      y := TrimCoeffs(y);
    }
    g, s, t := Normalise(a, b, x, s, t);
  }

  lemma AreTrimmed(a: Poly, b: Poly, x: Poly, y: Poly, s: Poly, t: Poly, u: Poly, v: Poly)
    requires Remainders(a, b, x, y, s, t, u, v)
    ensures Trimmed(x) && Trimmed(y)
  {
  }

  /** Division by the leading coefficient. */
  method Normalise(a: Poly, b: Poly, x: Poly, ghost s0: Poly, ghost t0: Poly)
    returns (g: Poly, ghost s: Poly, ghost t: Poly)
    requires Trimmed(a) && Trimmed(b) && x != [] && IsGcd(x, a, b, s0, t0)
    ensures IsGcd(g, a, b, s, t) && Monic(g)
  {
    hide Divides, Combination, Scaled, By, Monic;
    var lead := x[|x| - 1];
    Normalised(x);
    Reciprocal(lead);
    GcdNormalised(x, a, b, s0, t0, 1.0 / lead);
    ScaledIsScale(1.0 / lead, x);
    g := ScaleRow(1.0 / lead, x);
    s, t := Scaled(1.0 / lead, s0), Scaled(1.0 / lead, t0);
  }

  /** The remainder as a combination of the two given polynomials. */
  lemma Combined(a: Poly, b: Poly, x: Poly, y: Poly, s: Poly, t: Poly, u: Poly, v: Poly, c: real, q: Poly, r: Poly,
                 e: real)
    requires Combination(a, b, s, t) == x && Combination(a, b, u, v) == y && PseudoAccounts(x, y, c, q, r) && Trimmed(r)
    ensures Combination(a, b, Scaled(e, Sub(Scaled(c, s), Mul(q, u))), Scaled(e, Sub(Scaled(c, t), Mul(q, v)))) ==
      Scaled(e, r)
  {
    hide Combination, Scaled, Sub, Mul, Add, Trimmed;
    CombinationScaled(a, b, s, t, c);
    CombinationStep(a, b, Scaled(c, s), Scaled(c, t), u, v, q);
    MulCommutes(y, q);
    SubAdd(Scaled(c, x), Mul(q, y), r);
    CombinationScaled(a, b, Sub(Scaled(c, s), Mul(q, u)), Sub(Scaled(c, t), Mul(q, v)), e);
  }

  /** The last remainder but one divides everything. */
  lemma LastBack(a: Poly, b: Poly, x: Poly, y: Poly, s: Poly, t: Poly, u: Poly, v: Poly, c: real, q: Poly)
    requires Remainders(a, b, x, y, s, t, u, v) && c != 0.0 && PseudoAccounts(x, y, c, q, [])
    ensures IsGcd(y, a, b, u, v)
  {
    hide Divides, Combination, Add, Mul, Scaled;
    EmptyTrimmed();
    BackStep(a, b, x, y, c, q, [], 1.0);
    ScaledEmpty(1.0);
    DividesSelf(y);
  }

  lemma ScaledEmpty(c: real)
    ensures Scaled(c, []) == []
  {
  }

  // ----- polyEGCD -----

  method PolyEgcd(a: Poly, b: Poly) returns (g: Poly, s: Poly, t: Poly)
    requires Trimmed(a) && Trimmed(b)
    ensures IsGcd(g, a, b, s, t)
    ensures g == [] || Monic(g)
  {
    CombinationEnds(a, b);
    var r0, r1 := a, b;
    var s0, s1 := [1.0], [];
    var t0, t1 := [], [1.0];
    assert DividesBack(r0, r1, a, b);
    while r1 != []
      invariant Trimmed(r0) && Trimmed(r1) && DividesBack(r0, r1, a, b)
      invariant Combination(a, b, s0, t0) == r0 && Combination(a, b, s1, t1) == r1
      decreases |r1|
    {
      hide Combination, DividesBack, Divides, Trimmed, Scaled, Sub, Mul, Add;
      var d := PolyDiv(r0, r1);
      var (q, r) := d.value;
      EuclidStep(a, b, r0, r1, s0, t0, s1, t1, q, r);
      r0, r1 := r1, r;
      s0, s1 := s1, Sub(s0, Mul(q, s1));
      t0, t1 := t1, Sub(t0, Mul(q, t1));
    }
    DividesSelf(r0);
    g, s, t := r0, s0, t0;
    if r0 != [] && r0[|r0| - 1] != 1.0 {
      hide Scaled, Divides, Combination;
      var lead := r0[|r0| - 1];
      Normalised(r0);
      Reciprocal(lead);
      GcdNormalised(r0, a, b, s0, t0, 1.0 / lead);
      g, s, t := Scaled(1.0 / lead, r0), Scaled(1.0 / lead, s0), Scaled(1.0 / lead, t0);
    }
  }

  lemma EuclidStep(a: Poly, b: Poly, x: Poly, y: Poly, s: Poly, t: Poly, u: Poly, v: Poly, q: Poly, r: Poly)
    requires Combination(a, b, s, t) == x && Combination(a, b, u, v) == y && DividesBack(x, y, a, b)
    requires Division(x, y, q, r) && Trimmed(x)
    ensures Combination(a, b, Sub(s, Mul(q, u)), Sub(t, Mul(q, v))) == r && DividesBack(y, r, a, b)
  {
    hide Combination, DividesBack, Divides, Scaled, Sub, Mul, Add;
    CombinationStep(a, b, s, t, u, v, q);
    MulCommutes(y, q);
    SubAdd(x, Mul(q, y), r);
    ScaledTwice(1.0, 1.0, x);
    ScaledTwice(1.0, 1.0, r);
    BackStep(a, b, x, y, 1.0, q, r, 1.0);
  }

  /** Of coprime polynomials the normalised greatest common divisor is one. */
  lemma CoprimeGcd(g: Poly, a: Poly, b: Poly, s: Poly, t: Poly)
    requires IsGcd(g, a, b, s, t) && Coprime(a, b) && (g == [] || Monic(g))
    ensures g == [1.0]
  {
    hide Divides, Combination, Coprime;
    CommonConstant(a, b, g);
  }

  // ----- Existence, for use in proofs -----

  lemma {:induction false} DivisionExists(a: Poly, b: Poly) returns (q: Poly, r: Poly)
    requires Trimmed(a) && Trimmed(b) && b != []
    ensures Division(a, b, q, r)
    decreases |a|
  {
    if |a| < |b| {
      q, r := [], a;
      MulZero(b);
      AddZero(a);
    } else {
      var c, n := a[|a| - 1] / b[|b| - 1], |a| - |b|;
      var rest := Less(a, c, n, b);
      LessAt(a, c, n, b);
      Quotient(a[|a| - 1], b[|b| - 1]);
      TrimShort(rest, |a| - 1);
      hide *;
      var q1, r1 := DivisionExists(Trim(rest), b);
      q, r := Add(q1, Scaled(c, XPower(n))), r1;
      DivisionBack(a, b, c, n, q1, r1);
    }
  }

  lemma DivisionBack(a: Poly, b: Poly, c: real, n: nat, q: Poly, r: Poly)
    requires Trimmed(a) && Division(Trim(Less(a, c, n, b)), b, q, r)
    ensures Division(a, b, Add(q, Scaled(c, XPower(n))), r)
  {
    hide Trim, Less, Add, Mul, Scaled, Eval, By, PowerOf, Trimmed;
    var rest, p := Less(a, c, n, b), Add(q, Scaled(c, XPower(n)));
    forall x ensures Eval(a, x) == Eval(Add(Mul(b, p), r), x) {
      EvalTrim(rest, x);
      EvalLess(a, c, n, b, x);
      EvalAdd(Mul(b, q), r, x);
      EvalMul(b, q, x);
      EvalAdd(Mul(b, p), r, x);
      EvalMul(b, p, x);
      EvalAdd(q, Scaled(c, XPower(n)), x);
      EvalScaled(c, XPower(n), x);
      EvalXPower(n, x);
      BySum(Eval(b, x), Eval(q, x), By(c, PowerOf(x, n)));
      BySwap(Eval(b, x), By(c, PowerOf(x, n)));
      ByTwice(c, PowerOf(x, n), Eval(b, x));
    }
    ByValues(a, Add(Mul(b, p), r));
  }

  lemma {:induction false} GcdExists(a: Poly, b: Poly) returns (g: Poly, s: Poly, t: Poly)
    requires Trimmed(a) && Trimmed(b)
    ensures IsGcd(g, a, b, s, t)
    decreases |b|
  {
    hide Combination, Divides, Scaled, Sub, Mul, Add;
    if b == [] {
      g, s, t := a, [1.0], [];
      CombinationEnds(a, b);
      DividesSelf(a);
    } else {
      var q, r := DivisionExists(a, b);
      var u, v;
      g, u, v := GcdExists(b, r);
      s, t := v, Sub(u, Mul(v, q));
      DividesMul(g, b, q);
      DividesAdd(g, Mul(b, q), r);
      GcdShift(a, b, q, r, u, v);
    }
  }

  /** u * b + v * (a - b * q) = v * a + (u - v * q) * b */
  lemma GcdShift(a: Poly, b: Poly, q: Poly, r: Poly, u: Poly, v: Poly)
    requires a == Add(Mul(b, q), r) && Trimmed(r) && Trimmed(a)
    ensures Combination(b, r, u, v) == Combination(a, b, v, Sub(u, Mul(v, q)))
  {
    hide Add, Mul, Sub, Trimmed, By, Eval;
    var w := Sub(u, Mul(v, q));
    forall x ensures Eval(Add(Mul(u, b), Mul(v, r)), x) == Eval(Add(Mul(v, a), Mul(w, b)), x) {
      EvalAdd(Mul(b, q), r, x);
      EvalMul(b, q, x);
      EvalAdd(Mul(u, b), Mul(v, r), x);
      EvalMul(u, b, x);
      EvalMul(v, r, x);
      EvalAdd(Mul(v, a), Mul(w, b), x);
      EvalMul(v, a, x);
      EvalMul(w, b, x);
      EvalSub(u, Mul(v, q), x);
      EvalMul(v, q, x);
      ShiftValues(Eval(b, x), Eval(q, x), Eval(r, x), Eval(u, x), Eval(v, x));
    }
    ByValues(Add(Mul(u, b), Mul(v, r)), Add(Mul(v, a), Mul(w, b)));
  }

  lemma ShiftValues(b: real, q: real, r: real, u: real, v: real)
    ensures By(u, b) + By(v, r) == By(v, By(b, q) + r) + By(u - By(v, q), b)
  {
    hide By;
    BySum(v, By(b, q), r);
    BySum(b, u - By(v, q), By(v, q));
    ByTwice(v, q, b);
    BySwap(q, b);
  }
}
