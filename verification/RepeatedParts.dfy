/** Repeated parts of a denominator: when it is one power times a square-free rest (src/cas/Integration.cpp:831-866). */
module RepeatedParts {
  import opened RealProducts
  import opened RationalPoly
  import opened RationalRing
  import opened RationalDivision
  import opened SquareFree

  // ----- The parts of the denominator -----

  ghost function Without(parts: seq<Part>, k: nat): seq<Part>
    requires k < |parts|
  {
    parts[..k] + parts[k + 1..]
  }

  lemma {:induction false} PickOut(parts: seq<Part>, k: nat)
    requires k < |parts| && forall j :: 0 <= j < |parts| ==> Trimmed(parts[j].factor)
    ensures Expand(parts) == Mul(Power(parts[k].factor, parts[k].times), Expand(Without(parts, k)))
    ensures Radical(parts) == Mul(parts[k].factor, Radical(Without(parts, k)))
  {
    var last := |parts| - 1;
    var front, part := parts[..last], parts[last];
    assert parts == front + [part];
    if k == last {
      assert Without(parts, k) == front;
      hide *;
      ProductsAppend(front, part);
      MulCommutes(Expand(front), Power(part.factor, part.times));
      MulCommutes(Radical(front), part.factor);
    } else {
      var rest := Without(front, k);
      assert Without(parts, k) == rest + [part];
      hide *;
      ProductsAppend(front, part);
      ProductsAppend(rest, part);
      PickOut(front, k);
      MulAssociative(Power(parts[k].factor, parts[k].times), Expand(rest), Power(part.factor, part.times));
      MulAssociative(parts[k].factor, Radical(rest), part.factor);
    }
  }

  lemma ProductsAppend(parts: seq<Part>, part: Part)
    ensures Expand(parts + [part]) == Mul(Expand(parts), Power(part.factor, part.times))
    ensures Radical(parts + [part]) == Mul(Radical(parts), part.factor)
  {
    hide Mul, Power;
    assert (parts + [part])[..|parts|] == parts;
  }

  lemma {:induction false} CoprimeExpand(v: Poly, parts: seq<Part>)
    requires Coprime(v, Radical(parts))
    ensures Coprime(v, Expand(parts))
  {
    hide Coprime, Mul, Power;
    if parts != [] {
      var front, last := parts[..|parts| - 1], parts[|parts| - 1];
      CoprimeFactor(v, Radical(front), last.factor);
      CoprimeExpand(v, front);
      CoprimePower(v, last.factor, last.times);
      CoprimeProduct(v, Expand(front), Power(last.factor, last.times));
    }
  }

  /** The factors of a product without squares have none and are coprime. */
  lemma NoSquareFactors(v: Poly, u: Poly)
    requires HasNoSquare(Mul(v, u))
    ensures Coprime(v, u) && HasNoSquare(v)
  {
    hide Coprime, Mul, Add, Diff;
    DiffProduct(v, u);
    CoprimeCommutes(Mul(v, u), Diff(Mul(v, u)));
    CoprimeFactor(Diff(Mul(v, u)), v, u);
    CoprimeCommutes(Diff(Mul(v, u)), v);
    CoprimeShift(v, Mul(Diff(v), u), Diff(u));
    CoprimeFactor(v, Diff(v), u);
  }

  /** Any factor of the decomposition: what the extended Euclidean algorithm needs. */
  lemma FactorCoprime(parts: seq<Part>, d: Poly, k: nat)
    requires Decomposes(parts, d) && k < |parts|
    ensures var v, u := parts[k].factor, Expand(Without(parts, k));
      d == Mul(Power(v, parts[k].times), u) && Coprime(Mul(u, Diff(v)), v)
  {
    var v, rest := parts[k].factor, Without(parts, k);
    hide Mul, Power, Expand, Radical, Coprime, Diff;
    PickOut(parts, k);
    NoSquareFactors(v, Radical(rest));
    CoprimeExpand(v, rest);
    CoprimeProduct(v, Expand(rest), Diff(v));
    CoprimeCommutes(v, Mul(Expand(rest), Diff(v)));
  }

  /** No two factors are repeated. */
  ghost predicate AtMostOneRepeated(parts: seq<Part>) {
    forall i, j :: 0 <= i < j < |parts| ==> parts[i].times < 2 || parts[j].times < 2
  }

  /** Without repeated factors the product is the radical. */
  lemma {:induction false} ExpandIsRadical(parts: seq<Part>)
    requires forall j :: 0 <= j < |parts| ==> parts[j].times == 1 && Trimmed(parts[j].factor)
    ensures Expand(parts) == Radical(parts)
  {
    hide Mul, Power;
    if parts != [] {
      ExpandIsRadical(parts[..|parts| - 1]);
      PowerSingle(parts[|parts| - 1].factor);
    }
  }

  /** A repeated factor: the product has a square. */
  lemma RepeatedSquare(parts: seq<Part>, j: nat, v: Poly)
    requires j < |parts| && parts[j].times >= 2 && |parts[j].factor| >= 2
    requires forall j :: 0 <= j < |parts| ==> Trimmed(parts[j].factor)
    ensures !HasNoSquare(Mul(v, Expand(parts)))
  {
    var f, n := parts[j].factor, parts[j].times;
    PickOut(parts, j);
    PowerTwice(f, n);
    hide *;
    var rest, tail := Expand(Without(parts, j)), Power(f, n - 2);
    MulAssociative(f, f, tail);
    MulAssociative(Mul(f, f), tail, rest);
    MulSwap(v, Mul(f, f), Mul(tail, rest));
    NoSquare(Mul(v, Expand(parts)), f, Mul(v, Mul(tail, rest)));
  }

  lemma PowerTwice(f: Poly, n: nat)
    requires n >= 2
    ensures Power(f, n) == Mul(f, Mul(f, Power(f, n - 2)))
  {
    hide Mul;
  }

  /** Taking all but one copy of the most frequent factor away leaves a square unless it was the only repeated one. */
  lemma ReducedExactly(parts: seq<Part>, d: Poly, k: nat)
    requires Decomposes(parts, d) && k < |parts| && parts[k].times >= 2
    ensures HasNoSquare(Mul(parts[k].factor, Expand(Without(parts, k)))) <==> AtMostOneRepeated(parts)
  {
    hide Mul, Expand, Radical, HasNoSquare;
    WithoutAt(parts, k);
    if AtMostOneRepeated(parts) {
      OthersOnce(parts, k);
      ExpandIsRadical(Without(parts, k));
      PickOut(parts, k);
    } else {
      var h := OtherRepeated(parts, k);
      RepeatedSquare(Without(parts, k), h, parts[k].factor);
    }
  }

  lemma WithoutAt(parts: seq<Part>, k: nat)
    requires k < |parts|
    ensures |Without(parts, k)| == |parts| - 1
    ensures forall j :: 0 <= j < |parts| - 1 ==> Without(parts, k)[j] == if j < k then parts[j] else parts[j + 1]
  {
  }

  lemma OthersOnce(parts: seq<Part>, k: nat)
    requires WellFormed(parts) && k < |parts| && parts[k].times >= 2 && AtMostOneRepeated(parts)
    ensures forall j :: 0 <= j < |parts| - 1 ==> Without(parts, k)[j].times == 1
  {
    WithoutAt(parts, k);
    hide Without;
    forall j | 0 <= j < |parts| - 1 ensures Without(parts, k)[j].times == 1 {
      var h := if j < k then j else j + 1;
      assert parts[h].times >= 1 && Without(parts, k)[j] == parts[h];
    }
  }

  lemma OtherRepeated(parts: seq<Part>, k: nat) returns (h: nat)
    requires k < |parts| && !AtMostOneRepeated(parts)
    ensures h < |parts| - 1 && Without(parts, k)[h].times >= 2
  {
    WithoutAt(parts, k);
    hide Without;
    var i, j :| 0 <= i < j < |parts| && parts[i].times >= 2 && parts[j].times >= 2;
    h := if i == k then j - 1 else if i < k then i else i - 1;
  }

  // ----- The same condition without a decomposition -----

  /** One power times a rest, where the base and the rest have no square and nothing in common. */
  ghost predicate OnePower(d: Poly) {
    exists v: Poly, k: nat, u: Poly :: OnePowerOf(d, v, k, u)
  }

  ghost predicate OnePowerOf(d: Poly, v: Poly, k: nat, u: Poly) {
    Trimmed(v) && Trimmed(u) && d == Mul(Power(v, k), u) && HasNoSquare(Mul(v, u))
  }

  /** A square-free factor whose square divides such a product divides the base. */
  lemma SquareInBase(f: Poly, v: Poly, k: nat, u: Poly)
    requires Trimmed(f) && f != [] && HasNoSquare(f) && Trimmed(v) && Trimmed(u) && Mul(v, u) != []
    requires HasNoSquare(Mul(v, u)) && Divides(Mul(f, f), Mul(Power(v, k), u))
    ensures Divides(f, v)
  {
    hide *;
    var g, s, t := GcdExists(f, v);
    GcdFacts(g, f, v, s, t);
    var w := Cofactor(g, f);
    NoSquareFactors(g, w);
    RestCoprime(f, v, g, w, s, t);
    CoprimePower(w, v, k);
    SquareOfFactor(g, w, f, Mul(Power(v, k), u));
    CoprimeCommutes(w, Power(v, k));
    CoprimeProduct(Power(v, k), w, w);
    CoprimeCommutes(Mul(w, w), Power(v, k));
    CoprimeDivides(Mul(w, w), Power(v, k), u);
    DividesMul(Mul(w, w), u, v);
    NoSquareExactly(Mul(v, u));
    MulZero(g);
    assert |w| == 1;
    ConstantCofactor(g, w, f, v);
  }

  lemma GcdFacts(g: Poly, a: Poly, b: Poly, s: Poly, t: Poly)
    requires IsGcd(g, a, b, s, t)
    ensures Trimmed(g) && Combination(a, b, s, t) == g && Divides(g, a) && Divides(g, b)
  {
  }

  /** What is left of f without its common factor with v has nothing in common with v. */
  lemma RestCoprime(f: Poly, v: Poly, g: Poly, w: Poly, s: Poly, t: Poly)
    requires Trimmed(f) && Trimmed(v) && Trimmed(w) && Combination(f, v, s, t) == g && f == Mul(g, w) && Coprime(g, w)
    ensures Coprime(w, v)
  {
    hide *;
    var x, y, z := GcdExists(w, v);
    GcdFacts(x, w, v, y, z);
    DividesMul(x, w, g);
    DividesCombination(x, f, v, s, t);
    CommonConstant(g, w, x);
    UnitCoprime(w, v, x, y, z);
  }

  lemma SquareOfFactor(g: Poly, w: Poly, f: Poly, d: Poly)
    requires f == Mul(g, w) && Divides(Mul(f, f), d)
    ensures Divides(Mul(w, w), d)
  {
    hide *;
    var q := Cofactor(Mul(f, f), d);
    MulAssociative(f, f, q);
    MulAssociative(g, w, Mul(f, q));
    MulAssociative(g, w, q);
    MulSwap(w, g, Mul(w, q));
    MulAssociative(w, w, q);
    DividesProduct(Mul(w, w), q);
    DividesMul(Mul(w, w), Mul(Mul(w, w), q), g);
    DividesMul(Mul(w, w), Mul(g, Mul(Mul(w, w), q)), g);
  }

  lemma ConstantCofactor(g: Poly, w: Poly, f: Poly, v: Poly)
    requires Trimmed(g) && Trimmed(w) && |w| == 1 && f == Mul(g, w) && Divides(g, v) && Trimmed(v)
    ensures Divides(f, v)
  {
    hide Mul, Divides, Scaled;
    MulConstant(w[0], g);
    assert w == [w[0]];
    ScaledDivides(g, w[0], v);
  }

  /** The exponent of a factor that the rest is coprime to is determined. */
  lemma {:induction false} UniqueExponent(f: Poly, a: nat, r: Poly, k: nat, q: Poly)
    requires Trimmed(f) && |f| >= 2 && Trimmed(r) && Trimmed(q) && Coprime(f, r) && Coprime(f, q)
    requires Mul(Power(f, a), r) == Mul(Power(f, k), q)
    ensures a == k
  {
    hide *;
    if a > 0 && k > 0 {
      PowerTail(f, a, r);
      PowerTail(f, k, q);
      Cancel(f, Mul(Power(f, a - 1), r), Mul(Power(f, k - 1), q));
      UniqueExponent(f, a - 1, r, k - 1, q);
    } else if a > 0 {
      NoPowerOf(f, a, r, q);
    } else if k > 0 {
      NoPowerOf(f, k, q, r);
    }
  }

  lemma PowerTail(f: Poly, n: nat, r: Poly)
    requires n > 0
    ensures Mul(Power(f, n), r) == Mul(f, Mul(Power(f, n - 1), r))
  {
    hide Mul;
    MulAssociative(f, Power(f, n - 1), r);
  }

  lemma NoPowerOf(f: Poly, n: nat, r: Poly, q: Poly)
    requires n > 0 && Trimmed(f) && Trimmed(q) && Coprime(f, q)
    requires Mul(Power(f, n), r) == Mul(Power(f, 0), q)
    ensures |f| == 1
  {
    assert Power(f, 0) == [1.0];
    PowerTail(f, n, r);
    hide *;
    MulOne(q);
    DividesProduct(f, Mul(Power(f, n - 1), r));
    DividesSelf(f);
    CommonConstant(f, q, f);
  }

  /** The exponent of a factor of the base is the exponent of the base. */
  lemma ExponentOfBase(f: Poly, a: nat, r: Poly, v: Poly, k: nat, u: Poly)
    requires Trimmed(f) && |f| >= 2 && Trimmed(r) && Coprime(f, r) && Trimmed(u) && Divides(f, v)
    requires HasNoSquare(Mul(v, u)) && Mul(Power(f, a), r) == Mul(Power(v, k), u)
    ensures a == k
  {
    hide *;
    var s := Cofactor(f, v);
    MulAssociative(f, s, u);
    NoSquareFactors(f, Mul(s, u));
    CoprimeFactor(f, s, u);
    CoprimePower(f, s, k);
    CoprimeProduct(f, Power(s, k), u);
    PowerMul(f, s, k);
    MulAssociative(Power(f, k), Power(s, k), u);
    UniqueExponent(f, a, r, k, Mul(Power(s, k), u));
  }

  /** A repeated part is part of the base, with its exponent. */
  lemma RepeatedInBase(parts: seq<Part>, d: Poly, i: nat, v: Poly, k: nat, u: Poly)
    requires Decomposes(parts, d) && d != [] && i < |parts| && parts[i].times >= 2 && OnePowerOf(d, v, k, u)
    ensures parts[i].times == k
  {
    var f, a, r := parts[i].factor, parts[i].times, Expand(Without(parts, i));
    assert Trimmed(f) && |f| >= 2 && Trimmed(r);
    PowerTwice(f, a);
    hide *;
    FactorCoprime(parts, d, i);
    CoprimeCommutes(Mul(r, Diff(f)), f);
    CoprimeFactor(f, r, Diff(f));
    DerivativeCoprime(f);
    MulAssociative(f, f, Power(f, a - 2));
    MulAssociative(Mul(f, f), Power(f, a - 2), r);
    DividesProduct(Mul(f, f), Mul(Power(f, a - 2), r));
    OnePowerFacts(d, v, k, u);
    SquareInBase(f, v, k, u);
    ExponentOfBase(f, a, r, v, k, u);
  }

  lemma DerivativeCoprime(f: Poly)
    requires Coprime(f, Diff(f))
    ensures HasNoSquare(f)
  {
  }

  lemma OnePowerFacts(d: Poly, v: Poly, k: nat, u: Poly)
    requires OnePowerOf(d, v, k, u) && d != []
    ensures Trimmed(v) && Trimmed(u) && d == Mul(Power(v, k), u) && HasNoSquare(Mul(v, u)) && Mul(v, u) != []
  {
    assert Derivative([]) == [] && Diff([]) == [];
    hide Mul, Power, Coprime, Diff;
    if Mul(v, u) == [] { NothingCoprime(); }
  }

  lemma NothingCoprime()
    ensures !Coprime([], [])
  {
    hide Mul, Add;
    if Coprime([], []) {
      var s, t :| Combination([], [], s, t) == [1.0];
      MulZero(s);
      MulZero(t);
      AddZero([]);
    }
  }

  /** Whatever decomposition is found, at most one part is repeated exactly when the polynomial is one power. */
  lemma OnePowerExactly(parts: seq<Part>, d: Poly)
    requires Decomposes(parts, d) && d != []
    ensures AtMostOneRepeated(parts) <==> OnePower(d)
  {
    hide OnePowerOf, Expand, Radical, HasNoSquare;
    if OnePower(d) {
      var v: Poly, k: nat, u: Poly :| OnePowerOf(d, v, k, u);
      forall i, j | 0 <= i < j < |parts| ensures parts[i].times < 2 || parts[j].times < 2 {
        if parts[i].times >= 2 && parts[j].times >= 2 {
          RepeatedInBase(parts, d, i, v, k, u);
          RepeatedInBase(parts, d, j, v, k, u);
        }
      }
    }
    if AtMostOneRepeated(parts) {
      if k: nat :| k < |parts| && parts[k].times >= 2 {
        OnlyRepeated(parts, d, k);
      } else {
        ExpandIsRadical(parts);
        NoSquareIsOnePower(d);
      }
    }
  }

  lemma OnlyRepeated(parts: seq<Part>, d: Poly, k: nat)
    requires Decomposes(parts, d) && k < |parts| && parts[k].times >= 2 && AtMostOneRepeated(parts)
    ensures OnePower(d)
  {
    hide Mul, Expand, Radical, HasNoSquare, Power;
    ReducedExactly(parts, d, k);
    PickOut(parts, k);
    assert OnePowerOf(d, parts[k].factor, parts[k].times, Expand(Without(parts, k)));
  }

  lemma NoSquareIsOnePower(d: Poly)
    requires Trimmed(d) && HasNoSquare(d)
    ensures OnePower(d)
  {
    assert Power([1.0], 0) == [1.0];
    hide Mul, HasNoSquare, Power;
    MulOne(d);
    assert OnePowerOf(d, [1.0], 0, d);
  }
}
