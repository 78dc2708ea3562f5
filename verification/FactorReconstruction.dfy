/** The substitution y = a_n * x that makes a polynomial monic, and its undoing on the factors
    (src/cas/Factorization.cpp:1089-1107, 1230-1272). */
module FactorReconstruction {
  import opened IntegerGcd
  import opened IntPoly
  import opened GaussLemma
  import opened IntegerPower

  lemma Associate(x: int, y: int, z: int)
    ensures x * (y * z) == (x * y) * z && x * y == y * x
  {
  }

  lemma {:induction false} PowSign(x: int, k: nat)
    requires x != 0
    ensures Pow(x, k) != 0 && Pow(x, k) == (if x < 0 && k % 2 == 1 then 0 - Abs(Pow(x, k)) else Abs(Pow(x, k)))
  {
    if k > 0 {
      PowSign(x, k - 1);
      NonZeroTimes(x, Pow(x, k - 1));
      SignOfTimes(x, Pow(x, k - 1));
    }
  }

  lemma SignOfTimes(x: int, y: int)
    requires x != 0 && y != 0
    ensures x * y > 0 <==> (x > 0 <==> y > 0)
  {
  }

  /** a(c * x) */
  function Substituted(a: Poly, c: int): (r: Poly)
    ensures |r| == |a| && forall i :: 0 <= i < |a| ==> r[i] == a[i] * Pow(c, i)
  {
    seq(|a|, i requires 0 <= i < |a| => a[i] * Pow(c, i))
  }

  lemma {:induction false} ConvSubstituted(a: Poly, b: Poly, c: int, k: nat)
    ensures Conv(Substituted(a, c), Substituted(b, c), k) == Conv(a, b, k) * Pow(c, k)
  {
    hide Pow;
    if a != [] {
      var front, i := a[..|a| - 1], |a| - 1;
      ConvSubstituted(front, b, c, k);
      assert Substituted(a, c)[..i] == Substituted(front, c);
      var q := if 0 <= k - i < |b| then Pow(c, k - i) else Pow(c, k);
      if 0 <= k - i < |b| { PowAdd(c, i, k - i); }
      SubstitutedTerm(a[i], Pow(c, i), At(b, k - i), q, Conv(front, b, k), Substituted(a, c)[i],
        At(Substituted(b, c), k - i), Pow(c, k));
    }
  }

  lemma SubstitutedTerm(a: int, p: int, b: int, q: int, s: int, ap: int, bq: int, pq: int)
    requires ap == a * p && bq == b * q && (pq == p * q || b == 0)
    ensures s * pq + ap * bq == (s + a * b) * pq
  {
    if b == 0 {
      assert bq == 0 && a * b == 0 && ap * bq == 0;
    } else {
      assert ap * bq == (a * b) * pq;
    }
  }

  lemma FourFactors(a: int, p: int, b: int, q: int, s: int)
    ensures s * (p * q) + (a * p) * (b * q) == (s + a * b) * (p * q)
    ensures (a * p) * 0 == 0
  {
    assert (a * p) * (b * q) == (a * b) * (p * q);
  }

  lemma TimesSubstituted(a: Poly, b: Poly, c: int)
    ensures Times(Substituted(a, c), Substituted(b, c)) == Substituted(Times(a, b), c)
  {
    hide Conv, Pow;
    var l, r := Times(Substituted(a, c), Substituted(b, c)), Substituted(Times(a, b), c);
    forall k: nat | k < |l| ensures l[k] == r[k] { ConvSubstituted(a, b, c, k); }
  }

  lemma {:induction false} ConvScaled(x: int, a: Poly, y: int, b: Poly, k: int)
    ensures Conv(Scaled(x, a), Scaled(y, b), k) == (x * y) * Conv(a, b, k)
  {
    if a != [] {
      var front, i := a[..|a| - 1], |a| - 1;
      ConvScaled(x, front, y, b, k);
      assert Scaled(x, a)[..i] == Scaled(x, front);
      assert At(Scaled(y, b), k - i) == y * At(b, k - i);
      FourFactors(a[i], x, At(b, k - i), y, Conv(front, b, k));
      Associate(x, a[i], 0);
      Associate(y, At(b, k - i), 0);
      Associate(x * y, Conv(a, b, k), 0);
      Associate(Conv(front, b, k), x * y, 0);
    }
  }

  lemma TimesScaled(x: int, a: Poly, y: int, b: Poly)
    ensures Times(Scaled(x, a), Scaled(y, b)) == Scaled(x * y, Times(a, b))
  {
    hide Conv;
    var l, r := Times(Scaled(x, a), Scaled(y, b)), Scaled(x * y, Times(a, b));
    forall k: nat | k < |l| ensures l[k] == r[k] { ConvScaled(x, a, y, b, k); }
  }

  // ----- The monic transform -----

  /** g(y) = a_n^(n-1) * f(y / a_n) */
  ghost function Monic(f: Poly): (g: Poly)
    requires f != []
    ensures |g| == |f|
  {
    var n, lead := |f| - 1, f[|f| - 1];
    seq(|f|, i requires 0 <= i < |f| => if i == n then 1 else f[i] * Pow(lead, n - 1 - i))
  }

  method MonicTransform(f: Poly) returns (g: Poly)
    requires f != []
    ensures g == Monic(f)
  {
    var n, lead := |f| - 1, f[|f| - 1];
    g := seq(n + 1, _ => 0);
    var power := 1;
    g := g[n := 1];
    var i := n - 1;
    while i >= 0
      invariant -1 <= i <= n - 1 && |g| == |f| && g[n] == 1
      invariant i >= 0 ==> power == Pow(lead, n - 1 - i)
      invariant forall k :: i < k < n ==> g[k] == f[k] * Pow(lead, n - 1 - k)
    {
      g := g[i := f[i] * power];
      power := power * lead;
      Associate(lead, power, 0);
      i := i - 1;
    }
  }

  /** g(a_n * x) = a_n^(n-1) * f(x): the transform loses nothing. */
  lemma MonicUndone(f: Poly)
    requires |f| > 1
    ensures Substituted(Monic(f), f[|f| - 1]) == Scaled(Pow(f[|f| - 1], |f| - 2), f)
  {
    hide Pow, Monic;
    var n, lead := |f| - 1, f[|f| - 1];
    var l, r := Substituted(Monic(f), lead), Scaled(Pow(lead, n - 1), f);
    forall i: nat | i < |f| ensures l[i] == r[i] { MonicUndoneAt(f, i); }
  }

  lemma MonicUndoneAt(f: Poly, i: nat)
    requires |f| > 1 && i < |f|
    ensures var lead := f[|f| - 1]; Monic(f)[i] * Pow(lead, i) == Pow(lead, |f| - 2) * f[i]
  {
    hide Pow;
    var n, lead := |f| - 1, f[|f| - 1];
    if i == n {
      PowNext(lead, n - 1);
    } else {
      PowAdd(lead, n - 1 - i, i);
      ThreeFactors(f[i], Pow(lead, n - 1 - i), Pow(lead, i), Pow(lead, n - 1));
    }
  }

  lemma ThreeFactors(x: int, y: int, z: int, w: int)
    requires w == y * z
    ensures (x * y) * z == w * x
  {
    assert (x * y) * z == x * (y * z);
  }

  // ----- Undoing it on one factor -----

  /** A common divisor divided out exactly. */
  lemma ExactQuotient(c: int, x: int)
    requires c > 0 && Divides(c, x)
    ensures c * (x / c) == x
  {
    var q :| x == c * q;
    ModDivides(c, x);
  }

  ghost predicate Restores(h: Poly, monic: Poly, lead: int, c: int) {
    c > 0 && Scaled(c, h) == Substituted(monic, lead) && Content(h) == 1
  }

  lemma PrimitivePart(c: nat, h: Poly)
    requires c > 0 && Content(Scaled(c, h)) == c
    ensures Content(h) == 1
  {
    hide Content, Divides;
    var e := Content(h);
    ContentDivides(h);
    var b := Scaled(c, h);
    forall i | 0 <= i < |b| ensures Divides(c * e, Scaled(1, b)[i]) { DividesScaled(c, e, h[i]); }
    ContentGreatest(c * e, 1, b);
    OnlyUnit(c, e);
  }

  lemma DividesScaled(c: int, e: int, x: int)
    requires Divides(e, x)
    ensures Divides(c * e, c * x)
  {
    var q :| x == e * q;
    assert c * (e * q) == (c * e) * q;
  }

  lemma OnlyUnit(c: nat, e: nat)
    requires c > 0 && Divides(c * e, c)
    ensures e == 1
  {
    var q :| c == (c * e) * q;
    assert c * (e * q) == (c * e) * q;
    assert e * q == 1;
    assert Divides(e, 1);
    DivisorBound(e, 1);
  }

  /** H(a_n * x), divided by its content. */
  method BackSubstitute(monic: Poly, lead: int) returns (h: Poly, ghost c: int)
    requires monic != [] && monic[|monic| - 1] != 0 && lead != 0
    ensures Restores(h, monic, lead, c) && |h| == |monic|
  {
    hide Content, Pow;
    var hx, content := SubstituteAndMeasure(monic, lead);
    ContentDivides(hx);
    PowSign(lead, |monic| - 1);
    NonZeroTimes(monic[|monic| - 1], Pow(lead, |monic| - 1));
    assert hx[|monic| - 1] != 0;
    h := DivideContent(hx, content);
    c := content;
    PrimitivePart(c, h);
  }

  method SubstituteAndMeasure(monic: Poly, lead: int) returns (hx: Poly, content: nat)
    ensures hx == Substituted(monic, lead) && content == Content(hx)
  {
    assert Pow(lead, 0) == 1 && Content([]) == 0;
    hide Content, Pow, Gcd;
    hx := seq(|monic|, _ => 0);
    ghost var target := Substituted(monic, lead);
    var power := 1;
    content := 0;
    for i := 0 to |monic|
      invariant |hx| == |monic| && power == Pow(lead, i)
      invariant forall k :: 0 <= k < i ==> hx[k] == target[k]
      invariant content == Content(target[..i])
    {
      hx := hx[i := monic[i] * power];
      ContentNext(target, i);
      if hx[i] != 0 {
        content := Gcd(content, Abs(hx[i]));
      } else {
        GcdZero(content);
      }
      PowNext(lead, i);
      power := power * lead;
    }
    assert target[..|monic|] == hx == target;
  }

  method DivideContent(hx: Poly, content: nat) returns (h: Poly)
    requires content > 0 && DividesAll(content, hx)
    ensures Scaled(content, h) == hx
  {
    hide Divides;
    h := seq(|hx|, _ => 0);
    for i := 0 to |hx|
      invariant |h| == |hx| && forall k :: 0 <= k < i ==> content * h[k] == hx[k]
      invariant forall k :: i <= k < |h| ==> h[k] == 0
    {
      if hx[i] != 0 {
        ExactQuotient(content, hx[i]);
        h := h[i := hx[i] / content];
      } else {
        assert content * 0 == 0;
      }
    }
    assert Scaled(content, h) == hx;
  }

  lemma ContentNext(a: Poly, i: nat)
    requires i < |a|
    ensures Content(a[..i + 1]) == Gcd(Content(a[..i]), Abs(a[i]))
  {
    assert a[..i + 1][..i] == a[..i];
  }

  lemma GcdZero(x: nat)
    ensures Gcd(x, Abs(0)) == x
  {
  }

  lemma PowNext(x: int, i: nat)
    ensures Pow(x, i + 1) == Pow(x, i) * x
  {
  }

  // ----- Undoing it on all factors -----

  ghost predicate AllRestored(hs: seq<Poly>, monics: seq<Poly>, lead: int, cs: seq<int>) {
    |hs| == |monics| == |cs| && forall j :: 0 <= j < |monics| ==> Restores(hs[j], monics[j], lead, cs[j])
  }

  ghost function ProductOf(cs: seq<int>): int {
    if cs == [] then 1 else ProductOf(cs[..|cs| - 1]) * cs[|cs| - 1]
  }

  /** The contents come out of the product. */
  lemma {:induction false} ProductRestored(hs: seq<Poly>, monics: seq<Poly>, lead: int, cs: seq<int>)
    requires AllRestored(hs, monics, lead, cs)
    ensures Substituted(Product(monics), lead) == Scaled(ProductOf(cs), Product(hs)) && ProductOf(cs) > 0
  {
    hide Times, Content;
    if monics == [] {
      assert Substituted([1], lead) == [1] == Scaled(1, [1]);
    } else {
      var m := |monics| - 1;
      ProductRestored(hs[..m], monics[..m], lead, cs[..m]);
      TimesSubstituted(Product(monics[..m]), monics[m], lead);
      TimesScaled(ProductOf(cs[..m]), Product(hs[..m]), cs[m], hs[m]);
      assert ProductOf(cs[..m]) * cs[m] > 0;
    }
  }

  /** The sign that the positive contents lose. */
  function LostSign(f: Poly): int
    requires f != []
  {
    if f[|f| - 1] < 0 && (|f| - 1) % 2 == 0 then -1 else 1
  }

  /** If the factors of the monic transform multiply to it exactly, the restored ones multiply to the polynomial. */
  lemma ReconstructionExact(f: Poly, monics: seq<Poly>, hs: seq<Poly>, cs: seq<int>)
    requires |f| > 1 && Trimmed(f) && Content(f) == 1
    requires Product(monics) == Monic(f) && AllRestored(hs, monics, f[|f| - 1], cs)
    ensures Scaled(LostSign(f), Product(hs)) == f
    ensures Product(hs) == f <==> LostSign(f) == 1
  {
    hide Times, Content, Product, Monic, Substituted, Pow;
    var lead, n := f[|f| - 1], |f| - 1;
    var power, c, p := Pow(lead, n - 1), ProductOf(cs), Product(hs);
    MonicUndone(f);
    ProductRestored(hs, monics, lead, cs);
    assert Scaled(power, f) == Scaled(c, p);
    ProductPrimitive(hs);
    ContentScaled(power, f);
    ContentScaled(c, p);
    assert Abs(power) == c;
    PowSign(lead, n - 1);
    assert power == LostSign(f) * c;
    forall i | 0 <= i < |f| ensures Scaled(LostSign(f), p)[i] == f[i] {
      assert Scaled(power, f)[i] == power * f[i] && Scaled(c, p)[i] == c * p[i];
      CancelSign(LostSign(f), c, f[i], p[i]);
    }
  }

  lemma CancelSign(s: int, c: int, x: int, y: int)
    requires (s == 1 || s == -1) && c > 0 && (s * c) * x == c * y
    ensures s * y == x
  {
    assert c * (s * x) == c * y;
    assert c * (s * x - y) == 0;
    if s * x - y != 0 { NonZeroTimes(c, s * x - y); }
  }
}
