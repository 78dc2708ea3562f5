/** The ring of polynomials over a field: its laws, divisibility, and coprime polynomials. */
module RationalRing {
  import opened RealProducts
  import opened RationalPoly

  ghost predicate Monic(p: Poly) {
    p != [] && p[|p| - 1] == 1.0
  }

  /** Two polynomials are equal when their values are. */
  lemma ByValues(p: Poly, q: Poly)
    requires Trimmed(p) && Trimmed(q) && forall x :: Eval(p, x) == Eval(q, x)
    ensures p == q
  {
    SameEqual(p, q);
  }

  // ----- Laws -----

  lemma AddCommutes(p: Poly, q: Poly)
    ensures Add(p, q) == Add(q, p)
  {
    hide *;
    forall x ensures Eval(Add(p, q), x) == Eval(Add(q, p), x) {
      EvalAdd(p, q, x);
      EvalAdd(q, p, x);
    }
    ByValues(Add(p, q), Add(q, p));
  }

  lemma AddAssociative(p: Poly, q: Poly, r: Poly)
    ensures Add(Add(p, q), r) == Add(p, Add(q, r))
  {
    hide *;
    forall x ensures Eval(Add(Add(p, q), r), x) == Eval(Add(p, Add(q, r)), x) {
      EvalAdd(p, q, x);
      EvalAdd(Add(p, q), r, x);
      EvalAdd(q, r, x);
      EvalAdd(p, Add(q, r), x);
    }
    ByValues(Add(Add(p, q), r), Add(p, Add(q, r)));
  }

  lemma AddZero(p: Poly)
    requires Trimmed(p)
    ensures Add(p, []) == p && Add([], p) == p && Sub(p, []) == p && Sub(p, p) == []
  {
    hide *;
    forall x ensures Eval(Add(p, []), x) == Eval(p, x) && Eval(Add([], p), x) == Eval(p, x)
      && Eval(Sub(p, []), x) == Eval(p, x) && Eval(Sub(p, p), x) == Eval([], x)
    {
      EvalAdd(p, [], x);
      EvalAdd([], p, x);
      EvalSub(p, [], x);
      EvalSub(p, p, x);
      EvalConstant(0.0, x);
    }
    EmptyTrimmed();
    ByValues(Add(p, []), p);
    ByValues(Add([], p), p);
    ByValues(Sub(p, []), p);
    ByValues(Sub(p, p), []);
  }

  lemma EmptyTrimmed()
    ensures Trimmed([]) && Trimmed([1.0])
  {
  }

  /** p - q = r exactly when p = q + r. */
  lemma SubAdd(p: Poly, q: Poly, r: Poly)
    requires Trimmed(p) && Trimmed(r)
    ensures Sub(p, q) == r <==> p == Add(q, r)
  {
    hide *;
    if Sub(p, q) == r {
      forall x ensures Eval(p, x) == Eval(Add(q, r), x) {
        EvalSub(p, q, x);
        EvalAdd(q, r, x);
      }
      ByValues(p, Add(q, r));
    }
    if p == Add(q, r) {
      forall x ensures Eval(Sub(p, q), x) == Eval(r, x) {
        EvalSub(p, q, x);
        EvalAdd(q, r, x);
      }
      ByValues(Sub(p, q), r);
    }
  }

  lemma MulCommutes(p: Poly, q: Poly)
    ensures Mul(p, q) == Mul(q, p)
  {
    hide *;
    forall x ensures Eval(Mul(p, q), x) == Eval(Mul(q, p), x) {
      EvalMul(p, q, x);
      EvalMul(q, p, x);
      BySwap(Eval(p, x), Eval(q, x));
    }
    ByValues(Mul(p, q), Mul(q, p));
  }

  lemma MulAssociative(p: Poly, q: Poly, r: Poly)
    ensures Mul(Mul(p, q), r) == Mul(p, Mul(q, r))
  {
    hide *;
    forall x ensures Eval(Mul(Mul(p, q), r), x) == Eval(Mul(p, Mul(q, r)), x) {
      EvalMul(p, q, x);
      EvalMul(Mul(p, q), r, x);
      EvalMul(q, r, x);
      EvalMul(p, Mul(q, r), x);
      ByTwice(Eval(p, x), Eval(q, x), Eval(r, x));
    }
    ByValues(Mul(Mul(p, q), r), Mul(p, Mul(q, r)));
  }

  /** p * (q * r) = q * (p * r) */
  lemma MulSwap(p: Poly, q: Poly, r: Poly)
    ensures Mul(p, Mul(q, r)) == Mul(q, Mul(p, r))
  {
    hide *;
    MulAssociative(p, q, r);
    MulCommutes(p, q);
    MulAssociative(q, p, r);
  }

  lemma MulAdd(p: Poly, q: Poly, r: Poly)
    ensures Mul(p, Add(q, r)) == Add(Mul(p, q), Mul(p, r)) && Mul(Add(q, r), p) == Add(Mul(q, p), Mul(r, p))
  {
    hide *;
    forall x ensures Eval(Mul(p, Add(q, r)), x) == Eval(Add(Mul(p, q), Mul(p, r)), x) {
      EvalAdd(q, r, x);
      EvalMul(p, Add(q, r), x);
      EvalMul(p, q, x);
      EvalMul(p, r, x);
      EvalAdd(Mul(p, q), Mul(p, r), x);
      BySum(Eval(p, x), Eval(q, x), Eval(r, x));
    }
    ByValues(Mul(p, Add(q, r)), Add(Mul(p, q), Mul(p, r)));
    MulCommutes(p, Add(q, r));
    MulCommutes(p, q);
    MulCommutes(p, r);
  }

  lemma MulSub(p: Poly, q: Poly, r: Poly)
    ensures Mul(p, Sub(q, r)) == Sub(Mul(p, q), Mul(p, r)) && Mul(Sub(q, r), p) == Sub(Mul(q, p), Mul(r, p))
  {
    hide *;
    forall x ensures Eval(Mul(p, Sub(q, r)), x) == Eval(Sub(Mul(p, q), Mul(p, r)), x) {
      EvalSub(q, r, x);
      EvalMul(p, Sub(q, r), x);
      EvalMul(p, q, x);
      EvalMul(p, r, x);
      EvalSub(Mul(p, q), Mul(p, r), x);
      BySum(Eval(p, x), Eval(q, x) - Eval(r, x), Eval(r, x));
    }
    ByValues(Mul(p, Sub(q, r)), Sub(Mul(p, q), Mul(p, r)));
    MulCommutes(p, Sub(q, r));
    MulCommutes(p, q);
    MulCommutes(p, r);
  }

  lemma MulOne(p: Poly)
    requires Trimmed(p)
    ensures Mul(p, [1.0]) == p && Mul([1.0], p) == p
  {
    hide *;
    forall x ensures Eval(Mul(p, [1.0]), x) == Eval(p, x) {
      EvalMul(p, [1.0], x);
      EvalConstant(1.0, x);
      ByConstant(Eval(p, x));
    }
    ByValues(Mul(p, [1.0]), p);
    MulCommutes(p, [1.0]);
  }

  lemma MulZero(p: Poly)
    ensures Mul(p, []) == [] && Mul([], p) == []
  {
    hide *;
    EmptyTrimmed();
    forall x ensures Eval(Mul(p, []), x) == Eval([], x) {
      EvalMul(p, [], x);
      EvalConstant(1.0, x);
      ByConstant(Eval(p, x));
    }
    ByValues(Mul(p, []), []);
    MulCommutes(p, []);
  }

  /** c * p as a product of polynomials. */
  lemma ScaledMul(c: real, p: Poly, q: Poly)
    ensures Scaled(c, Mul(p, q)) == Mul(Scaled(c, p), q) && Scaled(c, Mul(p, q)) == Mul(p, Scaled(c, q))
  {
    hide *;
    forall x ensures Eval(Scaled(c, Mul(p, q)), x) == Eval(Mul(Scaled(c, p), q), x)
      && Eval(Scaled(c, Mul(p, q)), x) == Eval(Mul(p, Scaled(c, q)), x)
    {
      EvalMul(p, q, x);
      EvalScaled(c, Mul(p, q), x);
      EvalScaled(c, p, x);
      EvalScaled(c, q, x);
      EvalMul(Scaled(c, p), q, x);
      EvalMul(p, Scaled(c, q), x);
      ByTwice(c, Eval(p, x), Eval(q, x));
      ByTwice(Eval(p, x), c, Eval(q, x));
    }
    ByValues(Scaled(c, Mul(p, q)), Mul(Scaled(c, p), q));
    ByValues(Scaled(c, Mul(p, q)), Mul(p, Scaled(c, q)));
  }

  lemma ScaledAdd(c: real, p: Poly, q: Poly)
    ensures Scaled(c, Add(p, q)) == Add(Scaled(c, p), Scaled(c, q))
  {
    hide *;
    forall x ensures Eval(Scaled(c, Add(p, q)), x) == Eval(Add(Scaled(c, p), Scaled(c, q)), x) {
      EvalAdd(p, q, x);
      EvalScaled(c, Add(p, q), x);
      EvalScaled(c, p, x);
      EvalScaled(c, q, x);
      EvalAdd(Scaled(c, p), Scaled(c, q), x);
      BySum(c, Eval(p, x), Eval(q, x));
    }
    ByValues(Scaled(c, Add(p, q)), Add(Scaled(c, p), Scaled(c, q)));
  }

  lemma ScaledTwice(c: real, d: real, p: Poly)
    requires Trimmed(p)
    ensures Scaled(c, Scaled(d, p)) == Scaled(By(c, d), p) && Scaled(1.0, p) == p
  {
    hide *;
    forall x
      ensures Eval(Scaled(c, Scaled(d, p)), x) == Eval(Scaled(By(c, d), p), x) && Eval(Scaled(1.0, p), x) == Eval(p, x)
    {
      EvalScaled(d, p, x);
      EvalScaled(c, Scaled(d, p), x);
      EvalScaled(By(c, d), p, x);
      EvalScaled(1.0, p, x);
      ByTwice(c, d, Eval(p, x));
      ByConstant(Eval(p, x));
    }
    ByValues(Scaled(c, Scaled(d, p)), Scaled(By(c, d), p));
    ByValues(Scaled(1.0, p), p);
  }

  lemma ScaledLength(c: real, p: Poly)
    requires Trimmed(p) && c != 0.0
    ensures |Scaled(c, p)| == |p| && (p != [] ==> Scaled(c, p)[|p| - 1] == By(c, p[|p| - 1]))
  {
    hide Trim, By;
    if p != [] { ByNonZero(c, p[|p| - 1]); }
    TrimNothing(Scale(c, p));
  }

  // ----- Cancelling -----

  lemma MulNonZero(p: Poly, q: Poly)
    requires Trimmed(p) && Trimmed(q) && p != [] && q != []
    ensures Mul(p, q) != [] && |Mul(p, q)| == |p| + |q| - 1
  {
    MulDegree(p, q);
  }

  lemma MulMonic(p: Poly, q: Poly)
    requires Trimmed(p) && Trimmed(q) && Monic(p)
    ensures Monic(q) <==> Monic(Mul(p, q))
  {
    hide Mul, By;
    if q == [] {
      MulZero(p);
    } else {
      MulDegree(p, q);
      ByConstant(q[|q| - 1]);
    }
  }

  lemma Cancel(d: Poly, p: Poly, q: Poly)
    requires Trimmed(d) && d != [] && Trimmed(p) && Trimmed(q) && Mul(d, p) == Mul(d, q)
    ensures p == q
  {
    hide *;
    var e := Sub(p, q);
    MulSub(d, p, q);
    AddZero(Mul(d, p));
    if e != [] {
      MulNonZero(d, e);
    }
    SubAdd(p, q, []);
    EmptyTrimmed();
    AddZero(q);
  }

  // ----- Divisibility -----

  ghost predicate Divides(d: Poly, p: Poly) {
    exists q :: Trimmed(q) && Mul(d, q) == p
  }

  lemma DividesBy(d: Poly, q: Poly, p: Poly)
    requires Trimmed(q) && Mul(d, q) == p
    ensures Divides(d, p)
  {
  }

  lemma DividesMul(d: Poly, p: Poly, k: Poly)
    requires Divides(d, p)
    ensures Divides(d, Mul(p, k)) && Divides(d, Mul(k, p))
  {
    var q :| Trimmed(q) && Mul(d, q) == p;
    hide *;
    MulAssociative(d, q, k);
    DividesBy(d, Mul(q, k), Mul(p, k));
    MulCommutes(k, p);
  }

  lemma DividesAdd(d: Poly, p: Poly, q: Poly)
    requires Divides(d, p) && Divides(d, q)
    ensures Divides(d, Add(p, q)) && Divides(d, Sub(p, q))
  {
    var u :| Trimmed(u) && Mul(d, u) == p;
    var v :| Trimmed(v) && Mul(d, v) == q;
    hide *;
    MulAdd(d, u, v);
    MulSub(d, u, v);
    DividesBy(d, Add(u, v), Add(p, q));
    DividesBy(d, Sub(u, v), Sub(p, q));
  }

  lemma DividesSelf(p: Poly)
    requires Trimmed(p)
    ensures Divides(p, p) && Divides(p, []) && Divides([1.0], p)
  {
    hide *;
    MulOne(p);
    MulZero(p);
    EmptyTrimmed();
    DividesBy(p, [1.0], p);
    DividesBy(p, [], []);
    DividesBy([1.0], p, p);
  }

  lemma DividesScaled(d: Poly, c: real, p: Poly)
    requires Divides(d, p)
    ensures Divides(d, Scaled(c, p))
  {
    var q :| Trimmed(q) && Mul(d, q) == p;
    hide *;
    ScaledMul(c, d, q);
    DividesBy(d, Scaled(c, q), Scaled(c, p));
  }

  lemma ScaledDivides(d: Poly, c: real, p: Poly)
    requires Divides(d, p) && c != 0.0 && Trimmed(p) && Trimmed(d)
    ensures Divides(Scaled(c, d), p)
  {
    var q :| Trimmed(q) && Mul(d, q) == p;
    hide Divides, Trimmed, Mul, Scaled, By;
    ScaledMul(1.0 / c, d, q);
    ScaledMul(c, d, Scaled(1.0 / c, q));
    ScaledTwice(c, 1.0 / c, p);
    Reciprocal(c);
    DividesBy(Scaled(c, d), Scaled(1.0 / c, q), p);
  }

  lemma Reciprocal(c: real)
    requires c != 0.0
    ensures By(c, 1.0 / c) == 1.0 && By(1.0 / c, c) == 1.0 && 1.0 / c != 0.0
  {
  }

  lemma DividesOne(d: Poly)
    requires Trimmed(d) && Divides(d, [1.0])
    ensures |d| == 1
  {
    var q :| Trimmed(q) && Mul(d, q) == [1.0];
    if d == [] || q == [] {
      MulZero(q);
      MulZero(d);
    } else {
      MulNonZero(d, q);
    }
  }

  lemma DivisorShorter(d: Poly, p: Poly)
    requires Trimmed(d) && Trimmed(p) && Divides(d, p) && p != []
    ensures d != [] && |d| <= |p|
  {
    var q :| Trimmed(q) && Mul(d, q) == p;
    if d == [] || q == [] {
      MulZero(q);
      MulZero(d);
    } else {
      MulNonZero(d, q);
    }
  }

  // ----- Coprime polynomials -----

  ghost function Combination(a: Poly, b: Poly, s: Poly, t: Poly): Poly {
    Add(Mul(s, a), Mul(t, b))
  }

  ghost predicate Coprime(a: Poly, b: Poly) {
    exists s, t :: Combination(a, b, s, t) == [1.0]
  }

  lemma CoprimeBy(a: Poly, b: Poly, s: Poly, t: Poly)
    requires Combination(a, b, s, t) == [1.0]
    ensures Coprime(a, b)
  {
  }

  lemma CoprimeCommutes(a: Poly, b: Poly)
    ensures Coprime(a, b) <==> Coprime(b, a)
  {
    hide Add, Mul;
    if Coprime(a, b) {
      var s, t :| Combination(a, b, s, t) == [1.0];
      AddCommutes(Mul(s, a), Mul(t, b));
      CoprimeBy(b, a, t, s);
    }
    if Coprime(b, a) {
      var s, t :| Combination(b, a, s, t) == [1.0];
      AddCommutes(Mul(s, b), Mul(t, a));
      CoprimeBy(a, b, t, s);
    }
  }

  lemma CoprimeOne(a: Poly)
    ensures Coprime(a, [1.0]) && Coprime([1.0], a)
  {
    hide Add, Mul, Coprime;
    MulZero(a);
    EmptyTrimmed();
    MulOne([1.0]);
    AddZero([1.0]);
    CoprimeBy(a, [1.0], [], [1.0]);
    CoprimeCommutes(a, [1.0]);
  }

  /** A combination that a common divisor divides. */
  lemma DividesCombination(d: Poly, a: Poly, b: Poly, s: Poly, t: Poly)
    requires Divides(d, a) && Divides(d, b)
    ensures Divides(d, Combination(a, b, s, t))
  {
    hide Divides, Add, Mul;
    DividesMul(d, a, s);
    DividesMul(d, b, t);
    DividesAdd(d, Mul(s, a), Mul(t, b));
  }

  /** Only constants divide both. */
  lemma CommonConstant(a: Poly, b: Poly, d: Poly)
    requires Coprime(a, b) && Divides(d, a) && Divides(d, b) && Trimmed(d)
    ensures |d| == 1
  {
    hide Divides, Combination;
    var s, t :| Combination(a, b, s, t) == [1.0];
    DividesCombination(d, a, b, s, t);
    DividesOne(d);
  }

  /** a divides b * c and is coprime to b: it divides c. */
  lemma CoprimeDivides(a: Poly, b: Poly, c: Poly)
    requires Coprime(a, b) && Divides(a, Mul(b, c)) && Trimmed(c)
    ensures Divides(a, c)
  {
    var s, t :| Combination(a, b, s, t) == [1.0];
    hide Divides, Add, Mul;
    MulOne(c);
    MulAdd(c, Mul(s, a), Mul(t, b));
    MulAssociative(s, a, c);
    MulSwap(s, a, c);
    DividesBy(a, Mul(s, c), Mul(a, Mul(s, c)));
    MulAssociative(t, b, c);
    DividesMul(a, Mul(b, c), t);
    DividesAdd(a, Mul(Mul(s, a), c), Mul(Mul(t, b), c));
  }

  lemma CoprimeProduct(a: Poly, b: Poly, c: Poly)
    requires Coprime(a, b) && Coprime(a, c) && Trimmed(c)
    ensures Coprime(a, Mul(b, c))
  {
    var s, t :| Combination(a, b, s, t) == [1.0];
    var u, v :| Combination(a, c, u, v) == [1.0];
    hide Coprime, Add, Mul;
    var k := Mul(s, c);
    assert c == Add(Mul(k, a), Mul(t, Mul(b, c))) by {
      MulOne(c);
      MulAdd(c, Mul(s, a), Mul(t, b));
      MulAssociative(s, a, c);
      MulCommutes(a, c);
      MulAssociative(s, c, a);
      MulAssociative(t, b, c);
    }
    MulAdd(v, Mul(k, a), Mul(t, Mul(b, c)));
    MulAssociative(v, k, a);
    MulAssociative(v, t, Mul(b, c));
    AddAssociative(Mul(u, a), Mul(Mul(v, k), a), Mul(Mul(v, t), Mul(b, c)));
    MulAdd(a, u, Mul(v, k));
    CoprimeBy(a, Mul(b, c), Add(u, Mul(v, k)), Mul(v, t));
  }

  lemma CoprimeFactor(a: Poly, b: Poly, c: Poly)
    requires Coprime(a, Mul(b, c))
    ensures Coprime(a, b) && Coprime(a, c)
  {
    var s, t :| Combination(a, Mul(b, c), s, t) == [1.0];
    hide Coprime, Add, Mul;
    MulAssociative(t, b, c);
    CoprimeBy(a, c, s, Mul(t, b));
    MulCommutes(b, c);
    MulAssociative(t, c, b);
    CoprimeBy(a, b, s, Mul(t, c));
  }

  /** Divisors of coprime polynomials are coprime. */
  lemma CoprimeDivisor(a: Poly, b: Poly, d: Poly)
    requires Coprime(a, b) && Divides(d, b)
    ensures Coprime(a, d)
  {
    var q :| Trimmed(q) && Mul(d, q) == b;
    CoprimeFactor(a, d, q);
  }

  lemma {:induction false} CoprimePower(a: Poly, b: Poly, n: nat)
    requires Coprime(a, b)
    ensures Coprime(a, Power(b, n))
  {
    hide Coprime, Mul;
    if n == 0 {
      CoprimeOne(a);
    } else {
      CoprimePower(a, b, n - 1);
      CoprimeProduct(a, b, Power(b, n - 1));
    }
  }

  lemma CoprimeScaled(a: Poly, b: Poly, c: real)
    requires Coprime(a, b) && c != 0.0 && Trimmed(b)
    ensures Coprime(a, Scaled(c, b))
  {
    hide Coprime, Divides, Scaled, By;
    DividesSelf(b);
    ScaledDivides(b, c, b);
    CoprimeDivisor(a, b, Scaled(c, b));
  }

  /** Adding a multiple of one to the other. */
  lemma CoprimeShift(a: Poly, b: Poly, k: Poly)
    requires Coprime(a, Add(b, Mul(a, k)))
    ensures Coprime(a, b)
  {
    var s, t :| Combination(a, Add(b, Mul(a, k)), s, t) == [1.0];
    hide Coprime, Add, Mul;
    MulAdd(t, b, Mul(a, k));
    MulCommutes(a, k);
    MulAssociative(t, k, a);
    AddCommutes(Mul(t, b), Mul(Mul(t, k), a));
    AddAssociative(Mul(s, a), Mul(Mul(t, k), a), Mul(t, b));
    MulAdd(a, s, Mul(t, k));
    CoprimeBy(a, b, Add(s, Mul(t, k)), t);
  }

  // ----- Division with remainder -----

  lemma AddLength(p: Poly, q: Poly)
    ensures |Add(p, q)| <= if |p| >= |q| then |p| else |q|
    ensures |Sub(p, q)| <= if |p| >= |q| then |p| else |q|
  {
    assert |Plus(p, q)| == if |p| >= |q| then |p| else |q|;
    assert |Plus(p, Scale(-1.0, q))| == if |p| >= |q| then |p| else |q|;
  }

  /** a = b * q + r with r shorter than b. */
  ghost predicate Division(a: Poly, b: Poly, q: Poly, r: Poly) {
    Trimmed(q) && Trimmed(r) && |r| < |b| && a == Add(Mul(b, q), r)
  }

  /** When b divides a, every division finds the cofactor. */
  lemma ExactQuotient(b: Poly, k: Poly, q: Poly, r: Poly)
    requires Trimmed(b) && Trimmed(k) && Division(Mul(b, k), b, q, r)
    ensures q == k && r == []
  {
    hide Add, Sub, Mul, By;
    SubAdd(Mul(b, k), Mul(b, q), r);
    MulSub(b, k, q);
    var e := Sub(k, q);
    if e != [] {
      MulNonZero(b, e);
    }
    MulZero(b);
    EmptyTrimmed();
    SubAdd(k, q, []);
    AddZero(q);
  }

  // ----- Derivatives -----

  lemma DiffProduct(p: Poly, q: Poly)
    ensures Diff(Mul(p, q)) == Add(Mul(Diff(p), q), Mul(p, Diff(q)))
  {
    hide *;
    forall x ensures Eval(Diff(Mul(p, q)), x) == Eval(Add(Mul(Diff(p), q), Mul(p, Diff(q))), x) {
      DiffMul(p, q, x);
      EvalMul(Diff(p), q, x);
      EvalMul(p, Diff(q), x);
      EvalAdd(Mul(Diff(p), q), Mul(p, Diff(q)), x);
    }
    ByValues(Diff(Mul(p, q)), Add(Mul(Diff(p), q), Mul(p, Diff(q))));
  }

  lemma DiffScale(c: real, p: Poly)
    ensures Diff(Scaled(c, p)) == Scaled(c, Diff(p))
  {
    hide *;
    forall x ensures Eval(Diff(Scaled(c, p)), x) == Eval(Scaled(c, Diff(p)), x) {
      DiffScaled(c, p, x);
      EvalScaled(c, Diff(p), x);
    }
    ByValues(Diff(Scaled(c, p)), Scaled(c, Diff(p)));
  }

  // ----- Powers -----

  lemma {:induction false} PowerMul(p: Poly, q: Poly, n: nat)
    ensures Power(Mul(p, q), n) == Mul(Power(p, n), Power(q, n))
  {
    hide Mul;
    if n == 0 {
      EmptyTrimmed();
      MulOne([1.0]);
    } else {
      PowerMul(p, q, n - 1);
      var u, v := Power(p, n - 1), Power(q, n - 1);
      MulAssociative(p, q, Mul(u, v));
      MulSwap(q, u, v);
      MulAssociative(p, u, Mul(q, v));
    }
  }

  lemma {:induction false} PowerOne(n: nat)
    ensures Power([1.0], n) == [1.0]
  {
    hide Mul;
    EmptyTrimmed();
    if n > 0 {
      PowerOne(n - 1);
      MulOne([1.0]);
    }
  }

  lemma {:induction false} PowerLength(p: Poly, n: nat)
    requires Trimmed(p) && p != []
    ensures Power(p, n) != [] && |Power(p, n)| == n * (|p| - 1) + 1 && (Monic(p) ==> Monic(Power(p, n)))
  {
    hide Mul;
    if n > 0 {
      PowerLength(p, n - 1);
      MulNonZero(p, Power(p, n - 1));
      if Monic(p) { MulMonic(p, Power(p, n - 1)); }
      assert n * (|p| - 1) == (n - 1) * (|p| - 1) + (|p| - 1);
    }
  }
}
