/** Exact roots of integers and of products of powers (src/cas/Factorization.cpp:1413-1476). */
module ExactRoot {
  import opened Options
  import opened IntegerPower
  import opened RealProducts

  // ----- Integers -----

  lemma {:induction false} PowGrows(a: nat, b: nat, k: nat)
    requires a < b && k > 0
    ensures Pow(a, k) < Pow(b, k) && Pow(a, k) >= 0
  {
    if k > 1 {
      PowGrows(a, b, k - 1);
      var p, q := Pow(a, k - 1), Pow(b, k - 1);
      assert a * p <= a * q && a * q < b * q;
    }
  }

  lemma {:induction false} PowOne(k: nat)
    ensures Pow(1, k) == 1
  {
    if k > 0 { PowOne(k - 1); }
  }

  lemma {:induction false} PowAbove(b: nat, k: nat)
    requires b > 0 && k > 0
    ensures Pow(b, k) >= b
  {
    if k > 1 {
      PowAbove(b, k - 1);
      assert b * Pow(b, k - 1) >= b;
    }
  }

  /** ipowBig */
  method IntegerPow(b: int, k: nat) returns (r: int)
    ensures r == Pow(b, k)
  {
    r := 1;
    for i := 0 to k
      invariant r == Pow(b, i)
    {
      assert Pow(b, i + 1) == b * Pow(b, i);
      r := r * b;
    }
  }

  ghost predicate IsRoot(r: int, n: int, k: int) {
    r > 0 && k > 0 && Pow(r, k) == n
  }

  /** Between consecutive powers there is no other one. */
  lemma OnlyLow(lo: nat, n: int, k: nat)
    requires k > 0 && lo > 0 && Pow(lo, k) <= n < Pow(lo + 1, k)
    ensures forall r :: IsRoot(r, n, k) ==> r == lo
  {
    forall r | IsRoot(r, n, k) ensures r == lo {
      if r < lo {
        PowGrows(r, lo, k);
      } else if r > lo + 1 {
        PowGrows(lo + 1, r, k);
      }
    }
  }

  /** exactIntRoot: for k >= 2 finds the positive root of a perfect power, and fails for everything else. */
  method IntegerRoot(n: int, k: int) returns (root: Option<int>)
    ensures root.Some? <==> k >= 2 && exists r :: IsRoot(r, n, k)
    ensures root.Some? ==> IsRoot(root.value, n, k) && forall r :: IsRoot(r, n, k) ==> r == root.value
  {
    if n <= 0 || k < 2 {
      if k >= 2 {
        forall r | r > 0 ensures Pow(r, k) > 0 { PowAbove(r, k); }
      }
      return None;
    }
    if n == 1 {
      PowOne(k);
      PowGrows(1, 2, k);
      OnlyLow(1, 1, k);
      assert IsRoot(1, n, k);
      return Some(1);
    }
    var lo, hi := 1, 2;
    PowOne(k);
    var power := IntegerPow(hi, k);
    while power <= n
      invariant hi >= 2 && power == Pow(hi, k)
      decreases n - hi
    {
      PowAbove(hi, k);
      hi := hi * 2;
      power := IntegerPow(hi, k);
    }
    while hi - lo > 1
      invariant 1 <= lo < hi && Pow(lo, k) <= n < Pow(hi, k)
    {
      var mid := (lo + hi) / 2;
      power := IntegerPow(mid, k);
      if power <= n {
        lo := mid;
      } else {
        hi := mid;
      }
    }
    OnlyLow(lo, n, k);
    power := IntegerPow(lo, k);
    if power == n {
      assert IsRoot(lo, n, k);
      return Some(lo);
    }
    return None;
  }

  // ----- Expressions -----

  datatype Expr =
    | Number(value: int)
    | Fraction(num: int, den: int)
    | Power(base: Expr, exponent: int)
    | Product(factors: Factors)
    | Other(id: nat)

  datatype Factors = Nil | Cons(head: Expr, tail: Factors)

  function RealPow(e: real, n: nat): real {
    if n == 0 then 1.0 else By(e, RealPow(e, n - 1))
  }

  /** The value of an expression; `env` gives symbols, sums and calls, `root` powers that are not natural. */
  ghost function Value(e: Expr, env: nat -> real, irregular: (real, int) -> real): real
    decreases e
  {
    match e
    case Number(n) => n as real
    case Fraction(n, d) => if d == 0 then 0.0 else n as real / d as real
    case Power(b, x) => if x >= 0 then RealPow(Value(b, env, irregular), x) else irregular(Value(b, env, irregular), x)
    case Product(fs) => ValueAll(fs, env, irregular)
    case Other(id) => env(id)
  }

  ghost function ValueAll(fs: Factors, env: nat -> real, irregular: (real, int) -> real): real
    decreases fs
  {
    match fs
    case Nil => 1.0
    case Cons(e, rest) => By(Value(e, env, irregular), ValueAll(rest, env, irregular))
  }

  /** `root` is a k-th root of `e` whatever the symbols stand for. */
  ghost predicate RootOf(root: Expr, e: Expr, k: nat) {
    forall env, irregular :: RealPow(Value(root, env, irregular), k) == Value(e, env, irregular)
  }

  ghost predicate RootsOf(roots: Factors, fs: Factors, k: nat) {
    forall env, irregular :: RealPow(ValueAll(roots, env, irregular), k) == ValueAll(fs, env, irregular)
  }

  ghost predicate PerfectPower(n: int, k: int) {
    exists r :: IsRoot(r, n, k)
  }

  /** Perfect powers, exponents that k divides, and products of such. */
  ghost predicate Recognised(e: Expr, k: int)
    requires k >= 2
    decreases e
  {
    match e
    case Number(n) => PerfectPower(n, k)
    case Fraction(n, d) => PerfectPower(n, k) && PerfectPower(d, k)
    case Power(_, x) => x > 0 && x % k == 0
    case Product(fs) => AllRecognised(fs, k)
    case Other(_) => false
  }

  ghost predicate AllRecognised(fs: Factors, k: int)
    requires k >= 2
    decreases fs
  {
    match fs
    case Nil => true
    case Cons(e, rest) => Recognised(e, k) && AllRecognised(rest, k)
  }

  lemma {:induction false} PowOfProduct(a: real, b: real, k: nat)
    ensures RealPow(By(a, b), k) == By(RealPow(a, k), RealPow(b, k))
  {
    hide By;
    if k == 0 {
      ByConstant(1.0);
    } else {
      PowOfProduct(a, b, k - 1);
      var p, q := RealPow(a, k - 1), RealPow(b, k - 1);
      ByTwice(a, b, By(p, q));
      ByTwice(b, p, q);
      ByTwice(a, p, By(b, q));
    }
  }

  lemma {:induction false} PowOfPow(a: real, m: nat, k: nat)
    ensures RealPow(RealPow(a, m), k) == RealPow(a, m * k)
  {
    hide By;
    if m == 0 {
      OnePow(k);
    } else {
      PowOfPow(a, m - 1, k);
      PowOfProduct(a, RealPow(a, m - 1), k);
      assert m * k == k + (m - 1) * k;
      PowPlus(a, k, (m - 1) * k);
    }
  }

  lemma {:induction false} OnePow(k: nat)
    ensures RealPow(1.0, k) == 1.0
  {
    hide By;
    if k > 0 {
      OnePow(k - 1);
      ByConstant(1.0);
    }
  }

  lemma {:induction false} PowPlus(a: real, m: nat, n: nat)
    ensures RealPow(a, m + n) == By(RealPow(a, m), RealPow(a, n))
  {
    hide By;
    if m == 0 {
      ByConstant(RealPow(a, n));
    } else {
      PowPlus(a, m - 1, n);
      ByTwice(a, RealPow(a, m - 1), RealPow(a, n));
    }
  }

  lemma {:induction false} IntegerPowAsReal(r: int, k: nat)
    ensures RealPow(r as real, k) == Pow(r, k) as real
  {
    if k > 0 {
      IntegerPowAsReal(r, k - 1);
      MulAsReal(r, Pow(r, k - 1));
    }
  }

  lemma MulAsReal(a: int, b: int)
    ensures By(a as real, b as real) == (a * b) as real
  {
  }

  lemma FractionRoot(rn: int, rd: int, n: int, d: int, k: nat)
    requires IsRoot(rn, n, k) && IsRoot(rd, d, k)
    ensures d != 0 && RealPow(rn as real / rd as real, k) == n as real / d as real
  {
    hide By, Pow, RealPow;
    var q := rn as real / rd as real;
    IntegerPowAsReal(rn, k);
    IntegerPowAsReal(rd, k);
    assert By(q, rd as real) == rn as real by { Redivide(rn as real, rd as real); }
    PowOfProduct(q, rd as real, k);
    PowAbove(rd, k);
    Divide(RealPow(q, k), d as real, n as real);
  }

  lemma Redivide(a: real, b: real)
    requires b != 0.0
    ensures By(a / b, b) == a
  {
  }

  lemma Divide(q: real, d: real, n: real)
    requires d != 0.0 && By(q, d) == n
    ensures q == n / d
  {
  }

  /** tryExactRoot: finds a root exactly for what it recognises, and what it returns is one for every value of the
      symbols. */
  method ExpressionRoot(e: Expr, k: int) returns (root: Option<Expr>)
    ensures root.Some? <==> k >= 2 && Recognised(e, k)
    ensures root.Some? ==> RootOf(root.value, e, k)
    decreases e
  {
    if k < 2 {
      return None;
    }
    hide RealPow, By, Pow;
    match e {
      case Number(n) =>
        var r := IntegerRoot(n, k);
        if r.None? {
          return None;
        }
        IntegerPowAsReal(r.value, k);
        return Some(Number(r.value));
      case Fraction(n, d) =>
        var rn := IntegerRoot(n, k);
        if rn.None? {
          return None;
        }
        var rd := IntegerRoot(d, k);
        if rd.None? {
          return None;
        }
        FractionRoot(rn.value, rd.value, n, d, k);
        return Some(Fraction(rn.value, rd.value));
      case Power(b, x) =>
        if x <= 0 || x % k != 0 {
          return None;
        }
        PowerRoot(b, x, k);
        return Some(Power(b, x / k));
      case Product(fs) =>
        var roots := FactorRoots(fs, k);
        if roots.None? {
          return None;
        }
        ProductRoot(roots.value, fs, k);
        return Some(Product(roots.value));
      case Other(_) =>
        return None;
    }
  }

  /** The factors one by one; all must have roots. */
  method FactorRoots(fs: Factors, k: int) returns (roots: Option<Factors>)
    requires k >= 2
    ensures roots.Some? <==> AllRecognised(fs, k)
    ensures roots.Some? ==> RootsOf(roots.value, fs, k)
    decreases fs
  {
    hide By, RootOf, RootsOf, RealPow;
    match fs {
      case Nil =>
        NoRoots(k);
        return Some(Nil);
      case Cons(e, rest) =>
        var head := ExpressionRoot(e, k);
        if head.None? {
          return None;
        }
        var tail := FactorRoots(rest, k);
        if tail.None? {
          return None;
        }
        MoreRoots(head.value, tail.value, e, rest, k);
        return Some(Cons(head.value, tail.value));
    }
  }

  lemma NoRoots(k: nat)
    ensures RootsOf(Nil, Nil, k)
  {
    OnePow(k);
  }

  lemma MoreRoots(head: Expr, tail: Factors, e: Expr, rest: Factors, k: nat)
    requires RootOf(head, e, k) && RootsOf(tail, rest, k)
    ensures RootsOf(Cons(head, tail), Cons(e, rest), k)
  {
    hide By, RealPow;
    forall env, irregular
      ensures RealPow(ValueAll(Cons(head, tail), env, irregular), k) == ValueAll(Cons(e, rest), env, irregular)
    {
      PowOfProduct(Value(head, env, irregular), ValueAll(tail, env, irregular), k);
    }
  }

  lemma ProductRoot(roots: Factors, fs: Factors, k: nat)
    requires RootsOf(roots, fs, k)
    ensures RootOf(Product(roots), Product(fs), k)
  {
    hide RealPow;
    forall env, irregular
      ensures RealPow(Value(Product(roots), env, irregular), k) == Value(Product(fs), env, irregular)
    {
      assert RealPow(ValueAll(roots, env, irregular), k) == ValueAll(fs, env, irregular);
    }
  }

  lemma PowerRoot(b: Expr, x: int, k: nat)
    requires x > 0 && k >= 2 && x % k == 0
    ensures x / k >= 0 && RootOf(Power(b, x / k), Power(b, x), k)
  {
    hide RealPow;
    var m := x / k;
    assert m * k == x;
    forall env, irregular ensures RealPow(Value(Power(b, m), env, irregular), k) == Value(Power(b, x), env, irregular) {
      PowOfPow(Value(b, env, irregular), m, k);
    }
  }
}
