/** Univariate polynomials with integer coefficients, lowest first, and their ring laws
    (the vectors of src/cas/Factorization.cpp:609). */
module IntPoly {

  type Poly = seq<int>

  function At(a: Poly, k: int): int {
    if 0 <= k < |a| then a[k] else 0
  }

  /** No leading zero. */
  predicate Trimmed(a: Poly) {
    a != [] ==> a[|a| - 1] != 0
  }

  /** The same polynomial, up to leading zeros. */
  ghost predicate Same(a: Poly, b: Poly) {
    forall k :: At(a, k) == At(b, k)
  }

  /** b = b1 + x * X^n * b2 */
  ghost predicate Combines(b: Poly, b1: Poly, x: int, n: int, b2: Poly) {
    forall k :: At(b, k) == At(b1, k) + x * At(b2, k - n)
  }

  /** The coefficient of X^k in the product. */
  ghost function Conv(a: Poly, b: Poly, k: int): int {
    if a == [] then 0 else Conv(a[..|a| - 1], b, k) + a[|a| - 1] * At(b, k - (|a| - 1))
  }

  ghost function Times(a: Poly, b: Poly): (r: Poly)
    ensures |r| == if a == [] || b == [] then 0 else |a| + |b| - 1
  {
    if a == [] || b == [] then [] else seq(|a| + |b| - 1, k requires 0 <= k => Conv(a, b, k))
  }

  lemma AtNothing(k: int)
    ensures At([], k) == 0
  {
  }

  lemma LongerDiffers(a: Poly, b: Poly)
    requires Trimmed(a) && |a| > |b|
    ensures !Same(a, b)
  {
    assert At(a, |a| - 1) != At(b, |a| - 1);
  }

  lemma TrimmedSame(a: Poly, b: Poly)
    requires Trimmed(a) && Trimmed(b) && Same(a, b)
    ensures a == b
  {
    if |a| > |b| {
      LongerDiffers(a, b);
    } else if |b| > |a| {
      LongerDiffers(b, a);
    } else {
      forall k | 0 <= k < |a| ensures a[k] == b[k] { assert At(a, k) == At(b, k); }
    }
  }

  lemma ConvAppend(a: Poly, x: int, b: Poly, k: int)
    ensures Conv(a + [x], b, k) == Conv(a, b, k) + x * At(b, k - |a|)
  {
    assert (a + [x])[..|a|] == a;
  }

  lemma ConvNext(a: Poly, i: nat, b: Poly, k: int)
    requires i < |a|
    ensures Conv(a[..i + 1], b, k) == Conv(a[..i], b, k) + a[i] * At(b, k - i)
  {
    assert a[..i + 1] == a[..i] + [a[i]];
    ConvAppend(a[..i], a[i], b, k);
  }

  lemma {:induction false} ConvOutside(a: Poly, b: Poly, k: int)
    requires k < 0 || k >= |a| + |b| - 1
    ensures Conv(a, b, k) == 0
  {
    if a != [] {
      ConvOutside(a[..|a| - 1], b, k);
      assert a[|a| - 1] * 0 == 0;
    }
  }

  lemma {:induction false} ConvEmpty(a: Poly, k: int)
    ensures Conv(a, [], k) == 0
  {
    if a != [] {
      ConvEmpty(a[..|a| - 1], k);
      assert a[|a| - 1] * 0 == 0;
    }
  }

  lemma TimesAt(a: Poly, b: Poly)
    ensures forall k :: At(Times(a, b), k) == Conv(a, b, k)
  {
    forall k ensures At(Times(a, b), k) == Conv(a, b, k) {
      if b == [] {
        ConvEmpty(a, k);
      } else if k < 0 || k >= |a| + |b| - 1 {
        ConvOutside(a, b, k);
      }
    }
  }

  /** Multiplication is linear in the second factor. */
  lemma {:induction false} ConvCombines(a: Poly, b: Poly, b1: Poly, x: int, n: int, b2: Poly, k: int)
    requires Combines(b, b1, x, n, b2)
    ensures Conv(a, b, k) == Conv(a, b1, k) + x * Conv(a, b2, k - n)
  {
    if a != [] {
      var front, y, i := a[..|a| - 1], a[|a| - 1], |a| - 1;
      ConvCombines(front, b, b1, x, n, b2, k);
      assert k - n - i == k - i - n;
      Expand(y, At(b1, k - i), x, At(b2, k - i - n), Conv(front, b2, k - n));
    }
  }

  lemma Expand(y: int, b: int, x: int, c: int, d: int)
    ensures y * (b + x * c) == y * b + x * (y * c)
    ensures x * (d + y * c) == x * d + x * (y * c)
  {
  }

  lemma {:induction false} ConvSecondAppend(b: Poly, a: Poly, x: int, k: int)
    ensures Conv(b, a + [x], k) == Conv(b, a, k) + x * At(b, k - |a|)
  {
    if b != [] {
      var front, y, i := b[..|b| - 1], b[|b| - 1], |b| - 1;
      ConvSecondAppend(front, a, x, k);
      assert At(a + [x], k - i) == At(a, k - i) + if k - i == |a| then x else 0;
      assert At(b, k - |a|) == At(front, k - |a|) + if k - |a| == i then y else 0;
      Expand(y, At(a, k - i), x, if k - i == |a| then 1 else 0, At(front, k - |a|));
    }
  }

  lemma {:induction false} ConvCommutes(a: Poly, b: Poly, k: int)
    ensures Conv(a, b, k) == Conv(b, a, k)
  {
    if a == [] {
      ConvEmpty(b, k);
    } else {
      var front, x := a[..|a| - 1], a[|a| - 1];
      ConvCommutes(front, b, k);
      assert a == front + [x];
      ConvSecondAppend(b, front, x, k);
    }
  }

  /** Multiplication is linear in the first factor. */
  lemma CombinesConv(b: Poly, b1: Poly, x: int, n: int, b2: Poly, a: Poly, k: int)
    requires Combines(b, b1, x, n, b2)
    ensures Conv(b, a, k) == Conv(b1, a, k) + x * Conv(b2, a, k - n)
  {
    hide Conv, Combines;
    ConvCombines(a, b, b1, x, n, b2, k);
    ConvCommutes(a, b, k);
    ConvCommutes(a, b1, k);
    ConvCommutes(a, b2, k - n);
  }

  lemma {:induction false} ConvAssociative(a: Poly, b: Poly, c: Poly, k: int)
    ensures Conv(Times(a, b), c, k) == Conv(a, Times(b, c), k)
  {
    hide Conv, At;
    if a == [] {
      ConvNothing(Times(a, b), c, k);
      ConvNothing(a, Times(b, c), k);
    } else {
      var front, x, n := a[..|a| - 1], a[|a| - 1], |a| - 1;
      assert a == front + [x];
      ConvAssociative(front, b, c, k);
      TimesFront(front, x, b);
      CombinesConv(Times(a, b), Times(front, b), x, n, b, c, k);
      ConvAppend(front, x, Times(b, c), k);
      TimesAt(b, c);
      assert At(Times(b, c), k - n) == Conv(b, c, k - n);
    }
  }

  lemma ConvNothing(a: Poly, c: Poly, k: int)
    requires a == []
    ensures Conv(a, c, k) == 0
  {
  }

  lemma TimesFront(front: Poly, x: int, b: Poly)
    ensures Combines(Times(front + [x], b), Times(front, b), x, |front|, b)
  {
    hide Conv, At;
    TimesAt(front + [x], b);
    TimesAt(front, b);
    forall k ensures At(Times(front + [x], b), k) == At(Times(front, b), k) + x * At(b, k - |front|) {
      ConvAppend(front, x, b, k);
    }
  }

  // ----- The laws on polynomials -----

  lemma TimesCommutes(a: Poly, b: Poly)
    ensures Times(a, b) == Times(b, a)
  {
    hide Conv;
    forall k: nat | k < |Times(a, b)| ensures Times(a, b)[k] == Times(b, a)[k] { ConvCommutes(a, b, k); }
  }

  lemma TimesAssociative(a: Poly, b: Poly, c: Poly)
    ensures Times(Times(a, b), c) == Times(a, Times(b, c))
  {
    hide Conv;
    var l, r := Times(Times(a, b), c), Times(a, Times(b, c));
    assert |l| == |r|;
    forall k: nat | k < |l| ensures l[k] == r[k] { ConvAssociative(a, b, c, k); }
  }

  lemma TimesOne(a: Poly)
    ensures Times([1], a) == a && Times(a, [1]) == a
  {
    TimesCommutes(a, [1]);
    forall k: nat | k < |a| ensures Times([1], a)[k] == a[k] {
      assert Conv([1][..0], a, k) == 0;
    }
  }

  /** The leading coefficient of a product. */
  lemma TimesLead(a: Poly, b: Poly)
    requires a != [] && b != []
    ensures Times(a, b)[|a| + |b| - 2] == a[|a| - 1] * b[|b| - 1]
  {
    ConvOutside(a[..|a| - 1], b, |a| + |b| - 2);
  }

  lemma TimesTrimmed(a: Poly, b: Poly)
    requires Trimmed(a) && Trimmed(b)
    ensures Trimmed(Times(a, b))
  {
    if a != [] && b != [] {
      TimesLead(a, b);
      NonZeroTimes(a[|a| - 1], b[|b| - 1]);
    }
  }

  lemma NonZeroTimes(x: int, y: int)
    requires x != 0 && y != 0
    ensures x * y != 0
  {
  }

  // ----- Products of lists -----

  ghost function Product(fs: seq<Poly>): Poly {
    if fs == [] then [1] else Times(Product(fs[..|fs| - 1]), fs[|fs| - 1])
  }

  lemma ProductAppend(fs: seq<Poly>, f: Poly)
    ensures Product(fs + [f]) == Times(Product(fs), f)
  {
    assert (fs + [f])[..|fs|] == fs;
  }

  lemma {:induction false} ProductConcat(fs: seq<Poly>, gs: seq<Poly>)
    ensures Product(fs + gs) == Times(Product(fs), Product(gs))
  {
    hide Times;
    if gs == [] {
      assert fs + gs == fs;
      TimesOne(Product(fs));
    } else {
      var front, g := gs[..|gs| - 1], gs[|gs| - 1];
      ProductConcat(fs, front);
      assert fs + gs == (fs + front) + [g];
      ProductAppend(fs + front, g);
      TimesAssociative(Product(fs), Product(front), g);
    }
  }
}
