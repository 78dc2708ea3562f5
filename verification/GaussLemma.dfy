/** Contents of integer polynomials, and Gauss's lemma (used at src/cas/Factorization.cpp:1089-1095, 1238-1268). */
module GaussLemma {
  import opened IntegerGcd
  import opened IntPoly

  /** The gcd of the coefficients, as the loop over them computes it. */
  function Content(a: Poly): nat {
    if a == [] then 0 else Gcd(Content(a[..|a| - 1]), Abs(a[|a| - 1]))
  }

  function Scaled(c: int, a: Poly): (r: Poly)
    ensures |r| == |a| && forall i :: 0 <= i < |a| ==> r[i] == c * a[i]
  {
    seq(|a|, i requires 0 <= i < |a| => c * a[i])
  }

  lemma ScaledTwice(x: int, y: int, a: Poly)
    ensures Scaled(x, Scaled(y, a)) == Scaled(x * y, a)
  {
    forall i | 0 <= i < |a| ensures Scaled(x, Scaled(y, a))[i] == Scaled(x * y, a)[i] {
      assert x * (y * a[i]) == (x * y) * a[i];
    }
  }

  /** `d` divides every coefficient. */
  ghost predicate DividesAll(d: int, a: Poly) {
    forall i :: 0 <= i < |a| ==> Divides(d, a[i])
  }

  lemma {:induction false} ContentDivides(a: Poly)
    ensures DividesAll(Content(a), a)
    ensures Content(a) == 0 <==> forall i :: 0 <= i < |a| ==> a[i] == 0
  {
    hide Divides, Gcd;
    if a != [] {
      var front, last := a[..|a| - 1], a[|a| - 1];
      ContentDivides(front);
      GcdDivides(Content(front), Abs(last));
      DividesAbs(Content(a), last);
      forall i | 0 <= i < |a| ensures Divides(Content(a), a[i]) {
        if i < |a| - 1 {
          assert front[i] == a[i];
          DividesTransitive(Content(a), Content(front), a[i]);
        }
      }
      assert forall i :: 0 <= i < |front| ==> front[i] == a[i];
    }
  }

  /** What divides every c * a[i] divides c times the content. */
  lemma {:induction false} ContentGreatest(d: int, c: int, a: Poly)
    requires DividesAll(d, Scaled(c, a))
    ensures Divides(d, c * Content(a))
  {
    hide Divides, Gcd;
    if a == [] {
      DividesSelf(d);
    } else {
      var front, last := a[..|a| - 1], a[|a| - 1];
      forall i | 0 <= i < |front| ensures Divides(d, Scaled(c, front)[i]) { assert Scaled(c, a)[i] == c * front[i]; }
      ContentGreatest(d, c, front);
      assert Divides(d, Scaled(c, a)[|a| - 1]);
      var x, y := Bezout(Content(front), Abs(last));
      var z := if last < 0 then -y else y;
      assert x * Content(front) + z * last == Content(a);
      DividesSum(d, c * Content(front), c * last, x, z);
      Factored(x, c, Content(front), z, last);
    }
  }

  lemma Factored(x: int, c: int, p: int, z: int, q: int)
    ensures x * (c * p) + z * (c * q) == c * (x * p + z * q)
  {
    assert x * (c * p) == c * (x * p);
    assert z * (c * q) == c * (z * q);
  }

  /** Scaling a primitive polynomial. */
  lemma ContentScaled(c: int, a: Poly)
    requires Content(a) == 1
    ensures Content(Scaled(c, a)) == Abs(c)
  {
    hide Divides, Gcd, Content;
    var d := Content(Scaled(c, a));
    ContentDivides(Scaled(c, a));
    ContentGreatest(d, c, a);
    DividesAbs(d, c);
    var b := Scaled(c, a);
    forall i | 0 <= i < |b| ensures Divides(Abs(c), Scaled(1, b)[i]) {
      DividesSelf(Abs(c));
      DividesAbs(Abs(c), c);
      DividesTimes(Abs(c), c, a[i]);
    }
    ContentGreatest(Abs(c), 1, b);
    MutualDivisors(d, Abs(c));
  }

  lemma MutualDivisors(x: nat, y: nat)
    requires Divides(x, y) && Divides(y, x)
    ensures x == y
  {
    hide Divides;
    if x == 0 || y == 0 {
      ZeroDivides(x, y);
      ZeroDivides(y, x);
    } else {
      DivisorBound(x, y);
      DivisorBound(y, x);
    }
  }

  lemma ZeroDivides(x: int, y: int)
    requires Divides(x, y)
    ensures x == 0 ==> y == 0
  {
  }

  // ----- The product of primitive polynomials is primitive -----

  /** Up to position `i` the coefficients are multiples of `p`. */
  ghost predicate FirstNot(p: int, a: Poly, i: nat) {
    i < |a| && !Divides(p, a[i]) && forall k :: 0 <= k < i ==> Divides(p, a[k])
  }

  lemma {:induction false} FindFirstNot(p: int, a: Poly, from: nat) returns (i: nat)
    requires from <= |a| && (forall k :: 0 <= k < from ==> Divides(p, a[k])) && !DividesAll(p, a)
    ensures FirstNot(p, a, i)
    decreases |a| - from
  {
    hide Divides;
    if from == |a| {
      assert false;
    } else if Divides(p, a[from]) {
      i := FindFirstNot(p, a, from + 1);
    } else {
      i := from;
    }
  }

  /** In the coefficient at i + j only a[i] * b[j] is not a multiple of `p`. */
  lemma {:induction false} OneTermSurvives(p: int, a: Poly, i: nat, b: Poly, j: nat, m: nat)
    requires FirstNot(p, a, i) && FirstNot(p, b, j) && m <= |a|
    ensures Divides(p, Conv(a[..m], b, i + j) - if m > i then a[i] * b[j] else 0)
  {
    hide Divides, Conv;
    if m == 0 {
      EmptyConv(a[..0], b, i + j);
      DividesSelf(p);
    } else {
      OneTermSurvives(p, a, i, b, j, m - 1);
      ConvNext(a, m - 1, b, i + j);
      var before := Conv(a[..m - 1], b, i + j) - if m - 1 > i then a[i] * b[j] else 0;
      var x, y := a[m - 1], At(b, i + j - (m - 1));
      assert a[..m - 1 + 1] == a[..m];
      if m - 1 < i {
        DividesTimes(p, x, y);
        DividesSum(p, before, x * y, 1, 1);
      } else if m - 1 > i {
        if i + j - (m - 1) >= 0 { assert Divides(p, b[i + j - (m - 1)]); } else { DividesSelf(p); }
        DividesTimes(p, y, x);
        DividesSum(p, before, x * y, 1, 1);
      }
    }
  }

  lemma EmptyConv(a: Poly, b: Poly, k: int)
    requires a == []
    ensures Conv(a, b, k) == 0
  {
  }

  lemma NotAll(p: nat, a: Poly)
    requires Prime(p) && Content(a) == 1
    ensures !DividesAll(p, a)
  {
    hide Divides, Content;
    if DividesAll(p, a) {
      assert Scaled(1, a) == a;
      ContentGreatest(p, 1, a);
      DivisorBound(p, 1);
    }
  }

  lemma SomePrime(c: nat) returns (p: nat)
    requires c != 1
    ensures Prime(p) && Divides(p, c)
  {
    if c == 0 {
      p := PrimeDivisor(2);
      DividesSelf(p);
    } else {
      p := PrimeDivisor(c);
    }
  }

  /** Gauss's lemma. */
  lemma GaussPrimitive(a: Poly, b: Poly)
    requires Content(a) == 1 && Content(b) == 1
    ensures Content(Times(a, b)) == 1
  {
    hide Divides, Conv, Content, Prime;
    var c := Content(Times(a, b));
    if c != 1 {
      var p := SomePrime(c);
      NotAll(p, a);
      NotAll(p, b);
      var i := FindFirstNot(p, a, 0);
      var j := FindFirstNot(p, b, 0);
      OneTermSurvives(p, a, i, b, j, |a|);
      assert a[..|a|] == a;
      TimesAt(a, b);
      var whole := Conv(a, b, i + j);
      ContentDivides(Times(a, b));
      assert Times(a, b)[i + j] == whole;
      DividesTransitive(p, c, whole);
      DividesSum(p, whole, whole - a[i] * b[j], 1, -1);
      assert Divides(p, a[i] * b[j]);
      PrimeDividesProduct(p, a[i], b[j]);
    }
  }

  lemma {:induction false} ProductPrimitive(fs: seq<Poly>)
    requires forall f :: f in fs ==> Content(f) == 1
    ensures Content(Product(fs)) == 1
  {
    hide Content, Times;
    if fs == [] {
      OnePrimitive();
    } else {
      ProductPrimitive(fs[..|fs| - 1]);
      GaussPrimitive(Product(fs[..|fs| - 1]), fs[|fs| - 1]);
    }
  }

  lemma OnePrimitive()
    ensures Content([1]) == 1
  {
    assert [1][..0] == [];
    assert Content([1]) == Gcd(Content([]), 1);
    assert Gcd(0, 1) == Gcd(1, 0);
  }
}
