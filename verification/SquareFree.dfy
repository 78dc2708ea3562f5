/** Square-free decomposition by Yun's algorithm (src/cas/Symbolic.cpp:5160-5231). */
module SquareFree {
  import opened RealProducts
  import opened RationalPoly
  import opened RationalRing
  import opened RationalDivision

  /** A factor and how often it occurs. */
  datatype Part = Part(factor: Poly, times: nat)

  /** The product of the factors, each as often as it occurs. */
  ghost function Expand(parts: seq<Part>): (r: Poly)
    ensures Trimmed(r)
  {
    if parts == [] then [1.0] else
      Mul(Expand(parts[..|parts| - 1]), Power(parts[|parts| - 1].factor, parts[|parts| - 1].times))
  }

  /** The product of the factors, each once. */
  ghost function Radical(parts: seq<Part>): (r: Poly)
    ensures Trimmed(r)
  {
    if parts == [] then [1.0] else Mul(Radical(parts[..|parts| - 1]), parts[|parts| - 1].factor)
  }

  /** No square of a polynomial of positive degree divides it (NoSquareExactly). */
  ghost predicate HasNoSquare(p: Poly) {
    Coprime(p, Diff(p))
  }

  /** What the callers rely on: repeated factors are not constant and occur in order of their multiplicity. */
  ghost predicate WellFormed(parts: seq<Part>) {
    && (forall j :: 0 <= j < |parts| ==> Trimmed(parts[j].factor) && parts[j].factor != [] && parts[j].times >= 1)
    && (forall j :: 0 <= j < |parts| && parts[j].times >= 2 ==> |parts[j].factor| >= 2)
    && (forall i, j :: 0 <= i < j < |parts| && parts[j].times >= 2 ==> parts[i].times < parts[j].times)
  }

  ghost predicate Decomposes(parts: seq<Part>, p: Poly) {
    WellFormed(parts) && Expand(parts) == p && HasNoSquare(Radical(parts))
  }

  // ----- Squares -----

  /** A square of positive degree leaves a common factor with the derivative. */
  lemma NoSquare(p: Poly, d: Poly, k: Poly)
    requires Trimmed(d) && |d| >= 2 && p == Mul(Mul(d, d), k)
    ensures !HasNoSquare(p)
  {
    if HasNoSquare(p) {
      hide Mul, Add, Coprime, Divides;
      MulAssociative(d, d, k);
      DividesProduct(d, Mul(d, k));
      DiffProduct(d, Mul(d, k));
      DiffProduct(d, k);
      MulCommutes(Diff(d), Mul(d, k));
      MulAssociative(d, k, Diff(d));
      DividesProduct(d, Mul(k, Diff(d)));
      DividesProduct(d, Diff(Mul(d, k)));
      DividesAdd(d, Mul(Diff(d), Mul(d, k)), Mul(d, Diff(Mul(d, k))));
      CommonConstant(p, Diff(p), d);
    }
  }

  lemma DividesProduct(d: Poly, k: Poly)
    requires Trimmed(k)
    ensures Divides(d, Mul(d, k))
  {
  }

  // ----- The quotient by the greatest common divisor with the derivative has no square -----

  /** g * (g^k)' = k * g' * g^k, one power further. */
  lemma NextPower(g: Poly, p: Poly, k: real)
    requires Mul(g, Diff(p)) == Scaled(k, Mul(Diff(g), p))
    ensures Mul(g, Diff(Mul(p, g))) == Scaled(k + 1.0, Mul(Diff(g), Mul(p, g)))
  {
    DiffProduct(p, g);
    hide *;
    var l, r := Mul(g, Add(Mul(Diff(p), g), Mul(p, Diff(g)))), Scaled(k + 1.0, Mul(Diff(g), Mul(p, g)));
    forall x ensures Eval(l, x) == Eval(r, x) {
      EvalMul(g, Add(Mul(Diff(p), g), Mul(p, Diff(g))), x);
      EvalAdd(Mul(Diff(p), g), Mul(p, Diff(g)), x);
      EvalMul(Diff(p), g, x);
      EvalMul(p, Diff(g), x);
      EvalScaled(k + 1.0, Mul(Diff(g), Mul(p, g)), x);
      EvalMul(Diff(g), Mul(p, g), x);
      EvalMul(p, g, x);
      EvalMul(g, Diff(p), x);
      EvalScaled(k, Mul(Diff(g), p), x);
      EvalMul(Diff(g), p, x);
      NextValues(Eval(g, x), Eval(Diff(g), x), Eval(p, x), Eval(Diff(p), x), k);
    }
    ByValues(l, r);
  }

  lemma NextValues(g: real, dg: real, p: real, dp: real, k: real)
    requires By(g, dp) == By(k, By(dg, p))
    ensures By(g, By(dp, g) + By(p, dg)) == By(k + 1.0, By(dg, By(p, g)))
  {
    hide By;
    BySum(g, By(dp, g), By(p, dg));
    ByTwice(g, dp, g);
    ByTwice(k, By(dg, p), g);
    ByTwice(dg, p, g);
    BySwap(p, dg);
    ByTwice(g, dg, p);
    BySwap(By(dg, p), g);
    BySum(By(dg, By(p, g)), k, 1.0);
    BySwap(k, By(dg, By(p, g)));
    BySwap(k + 1.0, By(dg, By(p, g)));
    ByConstant(By(dg, By(p, g)));
  }

  /** If g divides v = g * v2 and v', and v * r' = (w - v') * r with r = p * s and p a power of g, then g divides s. */
  lemma PowerGrows(g: Poly, v2: Poly, u: Poly, w: Poly, r: Poly, p: Poly, s: Poly, k: real)
    requires Trimmed(g) && Trimmed(v2) && Trimmed(u) && Trimmed(w) && Trimmed(s) && Trimmed(p) && p != []
    requires Diff(Mul(g, v2)) == Mul(g, u) && Coprime(g, w) && r == Mul(p, s)
    requires Mul(Mul(g, v2), Diff(r)) == Mul(Sub(w, Diff(Mul(g, v2))), r)
    requires Mul(g, Diff(p)) == Scaled(k, Mul(Diff(g), p))
    ensures Divides(g, s)
  {
    var t := Add(Scaled(k, Mul(Diff(g), s)), Mul(g, Diff(s)));
    var z := Sub(w, Mul(g, u));
    assert Mul(v2, t) == Mul(z, s) by {
      PowerDerivative(g, p, s, k);
      hide *;
      MulCommutes(g, v2);
      MulAssociative(v2, g, Diff(r));
      MulSwap(v2, p, t);
      MulSwap(z, p, s);
      Cancel(p, Mul(v2, t), Mul(z, s));
    }
    hide Mul, Add, Sub, Scaled, Diff, Coprime, Divides, Trimmed;
    // g divides g' * v2, hence v2 * t, hence w * s
    DiffProduct(g, v2);
    AddCommutes(Mul(Diff(g), v2), Mul(g, Diff(v2)));
    SubAdd(Mul(g, u), Mul(g, Diff(v2)), Mul(Diff(g), v2));
    DividesProduct(g, u);
    DividesProduct(g, Diff(v2));
    DividesAdd(g, Mul(g, u), Mul(g, Diff(v2)));
    DividesMul(g, Mul(Diff(g), v2), s);
    MulSwap(v2, Diff(g), s);
    MulAssociative(Diff(g), v2, s);
    DividesScaled(g, k, Mul(v2, Mul(Diff(g), s)));
    ScaledMul(k, v2, Mul(Diff(g), s));
    DividesProduct(g, Diff(s));
    DividesMul(g, Mul(g, Diff(s)), v2);
    MulAdd(v2, Scaled(k, Mul(Diff(g), s)), Mul(g, Diff(s)));
    DividesAdd(g, Mul(v2, Scaled(k, Mul(Diff(g), s))), Mul(v2, Mul(g, Diff(s))));
    MulSub(s, w, Mul(g, u));
    DividesMul(g, Mul(g, u), s);
    SubAdd(Mul(w, s), Mul(Mul(g, u), s), Mul(v2, t));
    DividesAdd(g, Mul(Mul(g, u), s), Mul(v2, t));
    CoprimeDivides(g, w, s);
  }

  /** g * (p * s)' = p * (k * g' * s + g * s') */
  lemma PowerDerivative(g: Poly, p: Poly, s: Poly, k: real)
    requires Mul(g, Diff(p)) == Scaled(k, Mul(Diff(g), p))
    ensures Mul(g, Diff(Mul(p, s))) == Mul(p, Add(Scaled(k, Mul(Diff(g), s)), Mul(g, Diff(s))))
  {
    hide Mul, Add, Scaled, Diff;
    DiffProduct(p, s);
    MulAdd(g, Mul(Diff(p), s), Mul(p, Diff(s)));
    MulAssociative(g, Diff(p), s);
    ScaledMul(k, Mul(Diff(g), p), s);
    MulCommutes(Diff(g), p);
    MulAssociative(p, Diff(g), s);
    ScaledMul(k, p, Mul(Diff(g), s));
    MulSwap(g, p, Diff(s));
    MulAdd(p, Scaled(k, Mul(Diff(g), s)), Mul(g, Diff(s)));
  }

  /** A common divisor of v and v' would divide r arbitrarily often. */
  lemma {:induction false} Absorbed(g: Poly, v2: Poly, u: Poly, w: Poly, r: Poly, p: Poly, s: Poly, k: real)
    requires Trimmed(g) && Trimmed(v2) && Trimmed(u) && Trimmed(w) && Trimmed(s) && Trimmed(p) && p != [] && s != []
    requires Diff(Mul(g, v2)) == Mul(g, u) && Coprime(g, w) && r == Mul(p, s)
    requires Mul(Mul(g, v2), Diff(r)) == Mul(Sub(w, Diff(Mul(g, v2))), r)
    requires Mul(g, Diff(p)) == Scaled(k, Mul(Diff(g), p)) && g != []
    ensures |g| == 1
    decreases |s|
  {
    if |g| >= 2 {
      PowerGrows(g, v2, u, w, r, p, s, k);
      var s2 :| Trimmed(s2) && Mul(g, s2) == s;
      hide *;
      if s2 == [] {
        MulZero(g);
      } else {
        MulNonZero(g, s2);
        MulNonZero(p, g);
        MulAssociative(p, g, s2);
        NextPower(g, p, k);
        Absorbed(g, v2, u, w, r, Mul(p, g), s2, k + 1.0);
      }
    }
  }

  /** v = p / r and w = p' / r coprime: v has no square. */
  lemma QuotientNoSquare(v: Poly, w: Poly, r: Poly)
    requires Trimmed(v) && Trimmed(w) && Trimmed(r) && v != [] && r != []
    requires Diff(Mul(v, r)) == Mul(w, r) && Coprime(v, w)
    ensures HasNoSquare(v)
  {
    var g, s, t := GcdExists(v, Diff(v));
    var v2 :| Trimmed(v2) && Mul(g, v2) == v;
    var u :| Trimmed(u) && Mul(g, u) == Diff(v);
    hide Mul, Add, Sub, Scaled, Diff, Coprime, Divides, Combination;
    QuotientEquation(v, w, r);
    DivisorShorter(g, v);
    CoprimeCommutes(v, w);
    DividesProduct(g, v2);
    CoprimeDivisor(w, v, g);
    CoprimeCommutes(w, g);
    MulOne(r);
    FirstPower(g);
    EmptyTrimmed();
    Absorbed(g, v2, u, w, r, [1.0], r, 0.0);
    UnitCoprime(v, Diff(v), g, s, t);
  }

  /** v * r' = (w - v') * r */
  lemma QuotientEquation(v: Poly, w: Poly, r: Poly)
    requires Diff(Mul(v, r)) == Mul(w, r)
    ensures Mul(v, Diff(r)) == Mul(Sub(w, Diff(v)), r)
  {
    hide Mul, Add, Sub, Diff;
    DiffProduct(v, r);
    SubAdd(Mul(w, r), Mul(Diff(v), r), Mul(v, Diff(r)));
    MulSub(r, w, Diff(v));
  }

  lemma FirstPower(g: Poly)
    ensures Mul(g, Diff([1.0])) == Scaled(0.0, Mul(Diff(g), [1.0]))
  {
    hide Mul;
    assert Derivative([1.0]) == [];
    MulZero(g);
    ScaledZero(Mul(Diff(g), [1.0]));
  }

  lemma {:induction false} ScaledZero(p: Poly)
    ensures Scaled(0.0, p) == []
  {
    hide Trim, By;
    forall i | 0 <= i < |p| ensures Scale(0.0, p)[i] == 0.0 { ByConstant(p[i]); }
    TrimShort(Scale(0.0, p), 0);
  }

  /** A constant combination makes the two coprime. */
  lemma UnitCoprime(a: Poly, b: Poly, g: Poly, s: Poly, t: Poly)
    requires Trimmed(g) && |g| == 1 && Combination(a, b, s, t) == g
    ensures Coprime(a, b)
  {
    hide Combination, Scaled, Coprime;
    CombinationScaled(a, b, s, t, 1.0 / g[0]);
    ScaledIsOne(g);
    CoprimeBy(a, b, Scaled(1.0 / g[0], s), Scaled(1.0 / g[0], t));
  }

  /** Not coprime to the derivative: the square of some polynomial of positive degree is a factor. */
  lemma SquareFactor(p: Poly) returns (d: Poly)
    requires Trimmed(p) && p != [] && !HasNoSquare(p)
    ensures Trimmed(d) && |d| >= 2 && Divides(Mul(d, d), p)
  {
    var r, s, t := GcdExists(p, Diff(p));
    var v :| Trimmed(v) && Mul(r, v) == p;
    var w :| Trimmed(w) && Mul(r, w) == Diff(p);
    hide Mul, Add, Sub, Diff, Coprime, Divides, Combination, Trimmed;
    DivisorShorter(r, p);
    if |r| == 1 {
      UnitCoprime(p, Diff(p), r, s, t);
    } else {
      var a, b;
      d, a, b := GcdExists(v, r);
      if |d| == 1 {
        UnitCoprime(v, r, d, a, b);
        MulCommutes(r, v);
        MulCommutes(r, w);
        QuotientEquation(v, w, r);
        MulCommutes(Sub(w, Diff(v)), r);
        DividesProduct(r, Sub(w, Diff(v)));
        CoprimeCommutes(v, r);
        CoprimeDivides(r, v, Diff(r));
        DividesDerivative(r);
      }
      NotEmptyDivisor(d, r);
      SquareDivides(d, r, v);
    }
  }

  lemma NotEmptyDivisor(d: Poly, r: Poly)
    requires Trimmed(d) && Trimmed(r) && r != [] && Divides(d, r)
    ensures d != []
  {
    DivisorShorter(d, r);
  }

  lemma SquareDivides(d: Poly, r: Poly, v: Poly)
    requires Divides(d, r) && Divides(d, v)
    ensures Divides(Mul(d, d), Mul(r, v))
  {
    var a :| Trimmed(a) && Mul(d, a) == r;
    var b :| Trimmed(b) && Mul(d, b) == v;
    hide Mul, Divides;
    MulAssociative(d, a, Mul(d, b));
    MulSwap(a, d, b);
    MulAssociative(d, d, Mul(a, b));
    DividesProduct(Mul(d, d), Mul(a, b));
  }

  /** A polynomial of positive degree does not divide its derivative. */
  lemma DividesDerivative(r: Poly)
    requires Trimmed(r) && r != [] && Divides(r, Diff(r))
    ensures |r| == 1
  {
    DiffDegree(r);
    if |r| > 1 { DivisorShorter(r, Diff(r)); }
  }

  /** Coprime to the derivative means without a square of positive degree. */
  lemma NoSquareExactly(p: Poly)
    requires Trimmed(p) && p != []
    ensures HasNoSquare(p) <==> forall d :: Trimmed(d) && |d| >= 2 ==> !Divides(Mul(d, d), p)
  {
    if HasNoSquare(p) {
      forall d | Trimmed(d) && |d| >= 2 ensures !Divides(Mul(d, d), p) {
        if Divides(Mul(d, d), p) {
          var k :| Trimmed(k) && Mul(Mul(d, d), k) == p;
          NoSquare(p, d, k);
        }
      }
    } else {
      var d := SquareFactor(p);
    }
  }

  // ----- The loop -----

  /** The remaining v * r and its derivative w * r, with v and w coprime. */
  ghost predicate Remaining(v: Poly, w: Poly, r: Poly) {
    && Trimmed(v) && Trimmed(w) && Trimmed(r) && Monic(v) && Monic(r)
    && Diff(Mul(v, r)) == Mul(w, r) && Coprime(v, w)
  }

  /** Taking y = gcd(v, w - v') out: r itself is what remains next. */
  lemma YunStep(v: Poly, w: Poly, r: Poly, y: Poly, s: Poly, t: Poly) returns (v2: Poly, w2: Poly, r2: Poly)
    requires Remaining(v, w, r) && IsGcd(y, v, Sub(w, Diff(v)), s, t) && Monic(y)
    ensures Remaining(v2, w2, r2) && v == Mul(y, v2) && Sub(w, Diff(v)) == Mul(y, w2) && r == Mul(v2, r2)
  {
    var z := Sub(w, Diff(v));
    v2 :| Trimmed(v2) && Mul(y, v2) == v;
    w2 :| Trimmed(w2) && Mul(y, w2) == z;
    assert y != [] && r != [] && v != [];
    hide Mul, Add, Sub, Diff, Coprime, Divides, Trimmed, Monic;
    QuotientEquation(v, w, r);
    // v2 * r' = w2 * r
    MulAssociative(y, v2, Diff(r));
    MulAssociative(y, w2, r);
    Cancel(y, Mul(v2, Diff(r)), Mul(w2, r));
    // v2 and w2 are coprime
    assert Coprime(v2, w2) by {
      MulSwap(s, y, v2);
      MulSwap(t, y, w2);
      MulAdd(y, Mul(s, v2), Mul(t, w2));
      MulOne(y);
      EmptyTrimmed();
      Cancel(y, Combination(v2, w2, s, t), [1.0]);
      CoprimeBy(v2, w2, s, t);
    }
    // so v2 divides r
    DividesProduct(v2, Diff(r));
    CoprimeDivides(v2, w2, r);
    r2 := Cofactor(v2, r);
    MulSwap(w2, v2, r2);
    NonEmpty(y, v2);
    Cancel(v2, Diff(r), Mul(w2, r2));
    MulMonic(y, v2);
    MulMonic(v2, r2);
  }

  lemma NonEmpty(y: Poly, v2: Poly)
    requires Mul(y, v2) != []
    ensures v2 != []
  {
    MulZero(y);
  }

  lemma Cofactor(d: Poly, p: Poly) returns (q: Poly)
    requires Divides(d, p)
    ensures Trimmed(q) && p == Mul(d, q)
  {
    q :| Trimmed(q) && Mul(d, q) == p;
  }

  /** The part of `p` that has been found, and what is left of it in round `i`. */
  ghost predicate Progress(p: Poly, v1: Poly, parts: seq<Part>, v: Poly, r: Poly, i: nat) {
    p == Mul(Expand(parts), Mul(Power(v, i), r)) && v1 == Mul(Radical(parts), v)
  }

  ghost predicate Found(parts: seq<Part>, i: nat) {
    && (forall j :: 0 <= j < |parts| ==> Trimmed(parts[j].factor) && |parts[j].factor| >= 2 && 1 <= parts[j].times < i)
    && (forall j, k :: 0 <= j < k < |parts| ==> parts[j].times < parts[k].times)
  }

  /** One more part, or none when `y` is constant. */
  ghost function Extended(parts: seq<Part>, y: Poly, i: nat): seq<Part> {
    if |y| >= 2 then parts + [Part(y, i)] else parts
  }

  lemma ExtendedProducts(parts: seq<Part>, y: Poly, i: nat)
    requires Trimmed(y) && Monic(y)
    ensures Expand(Extended(parts, y, i)) == Mul(Expand(parts), Power(y, i))
    ensures Radical(Extended(parts, y, i)) == Mul(Radical(parts), y)
  {
    hide Mul, Power;
    if |y| >= 2 {
      assert (parts + [Part(y, i)])[..|parts|] == parts;
    } else {
      assert y == [1.0];
      PowerOne(i);
      MulOne(Expand(parts));
      MulOne(Radical(parts));
    }
  }

  lemma ProgressStep(p: Poly, v1: Poly, parts: seq<Part>, v: Poly, r: Poly, i: nat, y: Poly, v2: Poly, r2: Poly)
    requires Progress(p, v1, parts, v, r, i) && v == Mul(y, v2) && r == Mul(v2, r2) && Trimmed(y) && Monic(y)
    ensures Progress(p, v1, Extended(parts, y, i), v2, r2, i + 1)
  {
    var e, a, b := Expand(parts), Power(y, i), Power(v2, i);
    ExtendedProducts(parts, y, i);
    assert Power(v2, i + 1) == Mul(v2, b) by { hide Mul; }
    hide *;
    PowerMul(y, v2, i);
    // e * ((a * b) * (v2 * r2)) = (e * a) * ((v2 * b) * r2)
    MulAssociative(a, b, Mul(v2, r2));
    MulAssociative(b, v2, r2);
    MulCommutes(b, v2);
    MulAssociative(e, a, Mul(Mul(v2, b), r2));
    MulAssociative(Radical(parts), y, v2);
  }

  /** Nothing is left when `v` is constant. */
  lemma NothingLeft(v: Poly, w: Poly, r: Poly)
    requires Remaining(v, w, r) && |v| <= 1
    ensures v == [1.0] && r == [1.0]
  {
    assert v == [1.0];
    hide Mul, Diff, Coprime;
    MulOne(r);
    DiffDegree(r);
    if w == [] {
      MulZero(r);
    } else {
      MulNonZero(w, r);
    }
  }

  lemma FirstRemaining(p: Poly, r: Poly, s: Poly, t: Poly) returns (v: Poly, w: Poly)
    requires Trimmed(p) && Monic(p) && IsGcd(r, p, Diff(p), s, t) && Monic(r)
    ensures Remaining(v, w, r) && p == Mul(r, v) && Diff(p) == Mul(r, w)
  {
    hide Mul, Add, Diff, Coprime, Divides;
    v := Cofactor(r, p);
    w := Cofactor(r, Diff(p));
    MulCommutes(r, v);
    MulCommutes(r, w);
    MulMonic(r, v);
    MulSwap(s, r, v);
    MulSwap(t, r, w);
    MulAdd(r, Mul(s, v), Mul(t, w));
    MulOne(r);
    EmptyTrimmed();
    Cancel(r, Combination(v, w, s, t), [1.0]);
    CoprimeBy(v, w, s, t);
  }

  // ----- The leading coefficient -----

  lemma MulConstant(c: real, p: Poly)
    requires Trimmed(p) && c != 0.0
    ensures Mul(p, [c]) == Scaled(c, p)
  {
    assert Scale(c, [1.0]) == [c] by { ByConstant(c); }
    TrimNothing([c]);
    EmptyTrimmed();
    assert Scaled(c, [1.0]) == [c];
    hide Mul, Scaled;
    ScaledMul(c, p, [1.0]);
    MulOne(p);
  }

  lemma {:induction false} ScaleFirst(parts: seq<Part>, c: real)
    requires parts != [] && parts[0].times == 1 && Trimmed(parts[0].factor)
    ensures var next := parts[0 := Part(Scaled(c, parts[0].factor), 1)];
      Expand(next) == Scaled(c, Expand(parts)) && Radical(next) == Scaled(c, Radical(parts))
  {
    var f, last := parts[0].factor, |parts| - 1;
    var next := parts[0 := Part(Scaled(c, f), 1)];
    hide Mul, Scaled, Power;
    if |parts| == 1 {
      SingleProducts(parts);
      SingleProducts(next);
      ScaledMul(c, [1.0], f);
    } else {
      ScaleFirst(parts[..last], c);
      assert next[..last] == parts[..last][0 := Part(Scaled(c, f), 1)];
      ScaledMul(c, Expand(parts[..last]), Power(parts[last].factor, parts[last].times));
      ScaledMul(c, Radical(parts[..last]), parts[last].factor);
    }
  }

  lemma SingleProducts(parts: seq<Part>)
    requires |parts| == 1 && parts[0].times == 1 && Trimmed(parts[0].factor)
    ensures Expand(parts) == Mul([1.0], parts[0].factor) && Radical(parts) == Mul([1.0], parts[0].factor)
  {
    hide Mul, Power;
    assert parts[..|parts| - 1] == [];
    PowerSingle(parts[0].factor);
    assert Radical(parts[..|parts| - 1]) == [1.0] && Expand(parts[..|parts| - 1]) == [1.0];
  }

  lemma PowerSingle(f: Poly)
    requires Trimmed(f)
    ensures Power(f, 1) == f
  {
    hide Mul;
    assert Power(f, 1) == Mul(f, Power(f, 0));
    MulOne(f);
  }

  lemma AppendConstant(parts: seq<Part>, c: real)
    requires c != 0.0
    ensures var next := parts + [Part([c], 1)];
      Expand(next) == Scaled(c, Expand(parts)) && Radical(next) == Scaled(c, Radical(parts))
  {
    var next := parts + [Part([c], 1)];
    assert next[..|parts|] == parts;
    hide Mul, Scaled, Power;
    PowerSingle([c]);
    MulConstant(c, Expand(parts));
    MulConstant(c, Radical(parts));
  }

  lemma ScaledNoSquare(c: real, p: Poly)
    requires Trimmed(p) && HasNoSquare(p) && c != 0.0
    ensures HasNoSquare(Scaled(c, p))
  {
    hide Coprime, Scaled, Diff;
    DiffScale(c, p);
    CoprimeScaled(p, Diff(p), c);
    CoprimeCommutes(p, Scaled(c, Diff(p)));
    CoprimeScaled(Scaled(c, Diff(p)), p, c);
    CoprimeCommutes(Scaled(c, p), Scaled(c, Diff(p)));
  }

  /** One factor that occurs once. */
  lemma SinglePart(p: Poly)
    requires Trimmed(p) && p != [] && HasNoSquare(p)
    ensures Decomposes([Part(p, 1)], p)
  {
    var parts := [Part(p, 1)];
    hide Mul, Power, Coprime, Diff;
    SingleProducts(parts);
    MulOne(p);
  }

  lemma ConstantNoSquare(p: Poly)
    requires Trimmed(p) && |p| == 1
    ensures HasNoSquare(p)
  {
    hide Mul, Diff, Coprime;
    CombinationEnds(p, Diff(p));
    UnitCoprime(p, Diff(p), p, [1.0], []);
  }

  /** p / c is monic for the leading coefficient c. */
  lemma MonicPart(p: Poly) returns (c: real)
    requires Trimmed(p) && p != []
    ensures c == p[|p| - 1] && c != 0.0 && Monic(Scaled(1.0 / c, p)) && Scaled(c, Scaled(1.0 / c, p)) == p
    ensures Scaled(1.0 / c, p) == Scale(1.0 / c, p) && |Scaled(1.0 / c, p)| == |p|
    ensures (c == 1.0 ==> Scaled(1.0 / c, p) == p)
  {
    c := p[|p| - 1];
    hide Scaled, By;
    Normalised(p);
    Reciprocal(c);
    ScaledIsScale(1.0 / c, p);
    ScaledTwice(c, 1.0 / c, p);
  }

  /** The constant goes to the first part if that occurs once, else it becomes a part of its own. */
  method WithConstant(parts: seq<Part>, c: real, ghost p: Poly) returns (result: seq<Part>)
    requires c != 0.0 && Found(parts, |p|) && Expand(parts) == p && HasNoSquare(Radical(parts))
    ensures Decomposes(result, Scaled(c, p))
  {
    hide Expand, Radical, HasNoSquare, Scaled, Scale;
    result := parts;
    if c != 1.0 {
      ScaledNoSquare(c, Radical(parts));
      if result != [] && result[0].times == 1 {
        ScaleFirst(parts, c);
        ScaledIsScale(c, parts[0].factor);
        ScaledLength(c, parts[0].factor);
        var scaled := ScaleRow(c, result[0].factor);
        result := result[0 := Part(scaled, 1)];
      } else {
        AppendConstant(parts, c);
        result := result + [Part([c], 1)];
      }
    } else {
      ScaledTwice(1.0, 1.0, p);
    }
  }

  /** polySquareFree: the parts multiply to `p0` exactly; repeated parts are not constant and come in order of
      their multiplicity; the product of all factors has no square. The deadlock check never fires. */
  method Decompose(p0: Poly) returns (parts: seq<Part>)
    requires Trimmed(p0)
    ensures p0 == [] ==> parts == []
    ensures p0 != [] ==> Decomposes(parts, p0)
  {
    if p0 == [] {
      return [];
    }
    var maxI := |p0| - 1;
    if maxI <= 0 {
      ConstantNoSquare(p0);
      SinglePart(p0);
      return [Part(p0, 1)];
    }
    hide *;
    var c := p0[|p0| - 1];
    ghost var _ := MonicPart(p0);
    var p := p0;
    if c != 1.0 {
      p := ScaleRow(1.0 / c, p0);
    }
    var dp := Diff(p);
    var r, s, t := PolyGcd(p, dp);
    DiffDegree(p);
    ghost var v0, w0 := FirstRemaining(p, r, s, t);
    IsNotEmpty(r);
    var v := DivideOut(r, v0, p);
    if |r| == 1 {
      OnlyPart(v, w0, r, c);
      var sf := v;
      if c != 1.0 {
        sf := ScaleRow(c, v);
      }
      return [Part(sf, 1)];
    }
    var w := DivideOut(r, w0, dp);
    parts := Rounds(p, v, w, r, maxI);
    parts := WithConstant(parts, c, p);
  }

  lemma IsNotEmpty(p: Poly)
    requires Monic(p)
    ensures p != []
  {
  }

  /** The polynomial is its own decomposition when the gcd with the derivative is constant. */
  lemma OnlyPart(v: Poly, w: Poly, r: Poly, c: real)
    requires Remaining(v, w, r) && |r| == 1 && c != 0.0
    ensures r == [1.0] && Mul(r, v) == v && Scale(c, v) == Scaled(c, v)
    ensures Decomposes([Part(Scaled(c, v), 1)], Scaled(c, v))
    ensures c == 1.0 ==> Scaled(c, v) == v
  {
    assert r == [1.0] && v != [];
    hide Mul, Diff, Coprime, Scaled, Decomposes;
    MulOne(v);
    QuotientNoSquare(v, w, r);
    ScaledNoSquare(c, v);
    ScaledIsScale(c, v);
    ScaledLength(c, v);
    SinglePart(Scaled(c, v));
    ScaledTwice(1.0, 1.0, v);
  }

  lemma RemainingTrimmed(v: Poly, w: Poly, r: Poly)
    requires Remaining(v, w, r)
    ensures Trimmed(v) && Trimmed(w) && Trimmed(r) && Monic(v) && v != [] && r != []
  {
  }

  lemma RemainingNoSquare(v: Poly, w: Poly, r: Poly)
    requires Remaining(v, w, r)
    ensures HasNoSquare(v)
  {
    hide Mul, Diff, Coprime;
    QuotientNoSquare(v, w, r);
  }

  lemma FirstProgress(p: Poly, v: Poly, w: Poly, r: Poly)
    requires Remaining(v, w, r) && p == Mul(r, v)
    ensures Progress(p, v, [], v, r, 1) && |p| == |v| + |r| - 1
  {
    hide Mul, Diff, Coprime, Power;
    PowerSingle(v);
    MulCommutes(r, v);
    MulNonZero(r, v);
    MulOne(p);
    MulOne(v);
  }

  lemma LastProgress(p: Poly, v1: Poly, parts: seq<Part>, i: nat)
    requires Progress(p, v1, parts, [1.0], [1.0], i)
    ensures p == Expand(parts) && v1 == Radical(parts)
  {
    hide Mul, Power, Expand, Radical;
    PowerOne(i);
    EmptyTrimmed();
    MulOne([1.0]);
    MulOne(Expand(parts));
    MulOne(Radical(parts));
  }

  lemma FoundStep(parts: seq<Part>, y: Poly, i: nat)
    requires Found(parts, i) && Trimmed(y) && i >= 1
    ensures Found(Extended(parts, y, i), i + 1)
  {
  }

  lemma FoundMore(parts: seq<Part>, i: nat, n: nat)
    requires Found(parts, i) && i <= n
    ensures Found(parts, n)
  {
  }

  /** Round `i` of the loop: what is found so far and what remains. */
  ghost predicate Round(p: Poly, v1: Poly, parts: seq<Part>, v: Poly, w: Poly, r: Poly, i: nat) {
    && Remaining(v, w, r) && Progress(p, v1, parts, v, r, i) && Found(parts, i)
    && i >= 1 && |v| + |r| + i <= |p| + 2
  }

  lemma RoundStep(p: Poly, v1: Poly, parts: seq<Part>, v: Poly, w: Poly, r: Poly, i: nat, y: Poly, s: Poly, t: Poly)
    returns (v2: Poly, w2: Poly, r2: Poly)
    requires Round(p, v1, parts, v, w, r, i) && IsGcd(y, v, Sub(w, Diff(v)), s, t) && Monic(y) && |v| > 1
    ensures Round(p, v1, Extended(parts, y, i), v2, w2, r2, i + 1) && |v2| + |r2| < |v| + |r|
    ensures Trimmed(y) && Trimmed(v2) && Trimmed(w2) && v == Mul(y, v2) && Sub(w, Diff(v)) == Mul(y, w2)
  {
    hide Mul, Sub, Diff, Coprime, Progress, Divides, Combination;
    v2, w2, r2 := YunStep(v, w, r, y, s, t);
    ProgressStep(p, v1, parts, v, r, i, y, v2, r2);
    FoundStep(parts, y, i);
    MulNonZero(v2, r2);
  }

  lemma RoundStart(p: Poly, v: Poly, w: Poly, r: Poly)
    requires Remaining(v, w, r) && p == Mul(r, v)
    ensures Round(p, v, [], v, w, r, 1)
  {
    hide Mul, Diff, Coprime, Progress;
    FirstProgress(p, v, w, r);
  }

  lemma RoundFacts(p: Poly, v1: Poly, parts: seq<Part>, v: Poly, w: Poly, r: Poly, i: nat)
    requires Round(p, v1, parts, v, w, r, i)
    ensures Trimmed(v) && Trimmed(w) && Monic(v) && v != [] && r != [] && i < |p| + 2
  {
    RemainingTrimmed(v, w, r);
  }

  lemma RoundEnd(p: Poly, v1: Poly, parts: seq<Part>, v: Poly, w: Poly, r: Poly, i: nat)
    requires Round(p, v1, parts, v, w, r, i) && |v| <= 1
    ensures Found(parts, |p|) && p == Expand(parts) && v1 == Radical(parts)
  {
    hide Mul, Diff, Coprime, Progress;
    NothingLeft(v, w, r);
    FoundMore(parts, i, |p|);
    LastProgress(p, v1, parts, i);
  }

  /** The loop over the multiplicities. */
  method Rounds(ghost p: Poly, v0: Poly, w0: Poly, ghost r0: Poly, maxI: nat) returns (parts: seq<Part>)
    requires Remaining(v0, w0, r0) && p == Mul(r0, v0) && |p| == maxI + 1
    ensures Found(parts, |p|) && Expand(parts) == p && HasNoSquare(Radical(parts))
  {
    hide *;
    parts := [];
    var v, w, i := v0, w0, 1;
    ghost var r := r0;
    RoundStart(p, v, w, r);
    while |v| > 1
      invariant Round(p, v0, parts, v, w, r, i)
      decreases |v| + |r|
    {
      RoundFacts(p, v0, parts, v, w, r, i);
      assert i <= maxI + 2;
      var dv := Diff(v);
      var z := Sub(w, dv);
      var y, s, t := PolyGcd(v, z);
      ghost var v2, w2, r2 := RoundStep(p, v0, parts, v, w, r, i, y, s, t);
      ExtendedIs(parts, y, i);
      IsNotEmpty(y);
      if |y| - 1 > 0 {
        parts := parts + [Part(y, i)];
      }
      v := DivideOut(y, v2, v);
      w := DivideOut(y, w2, z);
      r := r2;
      i := i + 1;
    }
    RoundEnd(p, v0, parts, v, w, r, i);
    RemainingNoSquare(v0, w0, r0);
  }

  lemma ExtendedIs(parts: seq<Part>, y: Poly, i: nat)
    ensures Extended(parts, y, i) == if |y| >= 2 then parts + [Part(y, i)] else parts
  {
  }
}
