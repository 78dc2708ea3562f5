/** Divisibility, greatest common divisors and primes. */
module IntegerGcd {

  ghost predicate Divides(d: int, x: int) {
    exists q :: x == d * q
  }

  lemma DividesSum(d: int, x: int, y: int, a: int, b: int)
    requires Divides(d, x) && Divides(d, y)
    ensures Divides(d, a * x + b * y)
  {
    var p :| x == d * p;
    var q :| y == d * q;
    assert a * (d * p) + b * (d * q) == d * (a * p + b * q);
  }

  lemma DividesTimes(d: int, x: int, a: int)
    requires Divides(d, x)
    ensures Divides(d, a * x) && Divides(d, x * a)
  {
    var p :| x == d * p;
    assert a * (d * p) == d * (a * p);
    assert x * a == a * x;
  }

  lemma DividesTransitive(d: int, e: int, x: int)
    requires Divides(d, e) && Divides(e, x)
    ensures Divides(d, x)
  {
    var p :| e == d * p;
    var q :| x == e * q;
    assert (d * p) * q == d * (p * q);
  }

  lemma DividesSelf(x: int)
    ensures Divides(x, x) && Divides(1, x) && Divides(x, 0) && Divides(-1, x)
  {
    assert x == x * 1 && x == 1 * x && 0 == x * 0 && x == -1 * -x;
  }

  lemma ModDivides(d: int, x: int)
    requires d != 0
    ensures Divides(d, x) <==> x % d == 0
  {
    if x % d == 0 {
      assert x == d * (x / d);
    }
    if Divides(d, x) {
      var q :| x == d * q;
      ModOfMultiple(d, q);
    }
  }

  lemma MultipleFar(d: int, k: int)
    requires k != 0 && d != 0
    ensures d * k >= Abs(d) || d * k <= 0 - Abs(d)
  {
    if k > 0 {
      if d > 0 { assert d * k >= d; } else { assert d * k <= d; }
    } else {
      if d > 0 { assert d * k <= -d; } else { assert d * k >= -d; }
    }
  }

  lemma ModOfMultiple(d: int, q: int)
    requires d != 0
    ensures (d * q) % d == 0
  {
    var r, k := (d * q) % d, q - (d * q) / d;
    assert d * q == d * ((d * q) / d) + r;
    assert r == d * k;
    if k != 0 {
      MultipleFar(d, k);
    }
  }

  lemma DivisorBound(d: int, x: int)
    requires Divides(d, x) && x != 0
    ensures 0 - Abs(x) <= d <= Abs(x) && d != 0
  {
    var q :| x == d * q;
    MultipleFar(d, q);
  }

  function Abs(x: int): nat {
    if x < 0 then -x else x
  }

  /** The gcd of the absolute values, by Euclid's algorithm. */
  function Gcd(x: nat, y: nat): nat
    decreases y
  {
    if y == 0 then x else Gcd(y, x % y)
  }

  lemma {:induction false} GcdDivides(x: nat, y: nat)
    ensures Divides(Gcd(x, y), x) && Divides(Gcd(x, y), y)
    ensures Gcd(x, y) == 0 <==> x == 0 && y == 0
    decreases y
  {
    if y == 0 {
      DividesSelf(x);
    } else {
      var g := Gcd(y, x % y);
      GcdDivides(y, x % y);
      DividesSum(g, y, x % y, x / y, 1);
      assert (x / y) * y + 1 * (x % y) == x;
    }
  }

  lemma {:induction false} Bezout(x: nat, y: nat) returns (a: int, b: int)
    ensures a * x + b * y == Gcd(x, y)
    decreases y
  {
    if y == 0 {
      a, b := 1, 0;
    } else {
      var c, d := Bezout(y, x % y);
      a, b := d, c - d * (x / y);
      BezoutStep(c, d, x, y, x / y, x % y);
    }
  }

  lemma BezoutStep(c: int, d: int, x: int, y: int, q: int, r: int)
    requires x == q * y + r
    ensures c * y + d * r == d * x + (c - d * q) * y
  {
    assert d * x == d * (q * y) + d * r;
    assert (d * q) * y == d * (q * y);
  }

  // ----- Primes -----

  ghost predicate Prime(p: int) {
    p > 1 && forall d :: 1 < d < p ==> !Divides(d, p)
  }

  /** Something greater than one has a prime divisor. */
  lemma {:induction false} PrimeDivisor(x: nat) returns (p: nat)
    requires x > 1
    ensures Prime(p) && Divides(p, x)
    decreases x
  {
    if Prime(x) {
      p := x;
      DividesSelf(x);
    } else {
      var d: nat :| 1 < d < x && Divides(d, x);
      p := PrimeDivisor(d);
      DividesTransitive(p, d, x);
    }
  }

  /** A prime is coprime to what it does not divide. */
  lemma PrimeCoprime(p: nat, x: nat)
    requires Prime(p) && !Divides(p, x)
    ensures Gcd(p, x) == 1
  {
    var g := Gcd(p, x);
    GcdDivides(p, x);
    DivisorBound(g, p);
  }

  lemma DividesAbs(d: int, x: int)
    ensures Divides(d, x) <==> Divides(d, Abs(x))
  {
    if Divides(d, x) { DividesTimes(d, x, -1); }
    if Divides(d, Abs(x)) { DividesTimes(d, Abs(x), -1); }
  }

  /** Euclid's lemma. */
  lemma PrimeDividesProduct(p: nat, x: int, y: int)
    requires Prime(p) && Divides(p, x * y)
    ensures Divides(p, x) || Divides(p, y)
  {
    if !Divides(p, x) {
      DividesAbs(p, x);
      PrimeCoprime(p, Abs(x));
      var a, b := Bezout(p, Abs(x));
      var s := if x < 0 then -b else b;
      assert a * p + s * x == 1;
      DividesSelf(p);
      DividesTimes(p, p, a * y);
      DividesSum(p, (a * y) * p, x * y, 1, s);
      UnitCombination(a, p, s, x, y);
    }
  }

  lemma UnitCombination(a: int, p: int, s: int, x: int, y: int)
    requires a * p + s * x == 1
    ensures 1 * ((a * y) * p) + s * (x * y) == y
  {
    assert (a * y) * p == y * (a * p);
    assert s * (x * y) == y * (s * x);
    assert y * (a * p) + y * (s * x) == y * (a * p + s * x);
  }
}
