/** Products of square matrices and their laws (src/cas/SymMatrix.cpp:117-155, 311-315). */
module MatrixProduct {
  import opened LinearAlgebra
  import opened RealProducts

  // ----- Products -----

  /** The first `upTo` products of row `l` with column `c` of `u`. */
  ghost function Sum(l: Vector, u: Matrix, c: nat, upTo: nat): real
    requires upTo <= |l| && upTo <= |u| && forall k :: 0 <= k < upTo ==> c < |u[k]|
  {
    if upTo == 0 then 0.0 else Sum(l, u, c, upTo - 1) + By(l[upTo - 1], u[upTo - 1][c])
  }

  ghost function Product(a: Matrix, b: Matrix, n: nat): (m: Matrix)
    requires Shape(a, n, n) && Shape(b, n, n)
    ensures Shape(m, n, n)
    ensures forall r, c :: 0 <= r < n && 0 <= c < n ==> m[r][c] == Sum(a[r], b, c, n)
  {
    seq(n, r requires 0 <= r < n => seq(n, c requires 0 <= c < n => Sum(a[r], b, c, n)))
  }

  ghost function Identity(n: nat): (m: Matrix)
    ensures Shape(m, n, n)
    ensures forall r, c :: 0 <= r < n && 0 <= c < n ==> m[r][c] == Delta(r, c)
  {
    seq(n, r requires 0 <= r < n => seq(n, c requires 0 <= c < n => Delta(r, c)))
  }

  lemma SameEntries(a: Matrix, b: Matrix, n: nat)
    requires Shape(a, n, n) && Shape(b, n, n)
    requires forall r, c :: 0 <= r < n && 0 <= c < n ==> a[r][c] == b[r][c]
    ensures a == b
  {
    forall r | 0 <= r < n ensures a[r] == b[r] {
      assert |a[r]| == n && |b[r]| == n;
      forall c | 0 <= c < n ensures a[r][c] == b[r][c] { }
    }
  }

  // ----- Laws -----

  /** Only the entries that are read matter. */
  lemma {:induction false} SumSame(l: Vector, u: Matrix, m: Vector, v: Matrix, c: nat, upTo: nat)
    requires upTo <= |l| && upTo <= |u| && upTo <= |m| && upTo <= |v|
    requires forall k :: 0 <= k < upTo ==> c < |u[k]| && c < |v[k]| && l[k] == m[k] && u[k][c] == v[k][c]
    ensures Sum(l, u, c, upTo) == Sum(m, v, c, upTo)
  {
    if upTo > 0 { SumSame(l, u, m, v, c, upTo - 1); }
  }

  /** Nothing comes from entries that are zero. */
  lemma {:induction false} SumShort(l: Vector, u: Matrix, c: nat, mid: nat, upTo: nat)
    requires mid <= upTo <= |l| && upTo <= |u| && forall k :: 0 <= k < upTo ==> c < |u[k]|
    requires forall k :: mid <= k < upTo ==> l[k] == 0.0 || u[k][c] == 0.0
    ensures Sum(l, u, c, upTo) == Sum(l, u, c, mid)
  {
    if upTo > mid { SumShort(l, u, c, mid, upTo - 1); }
  }

  lemma {:induction false} SumZero(l: Vector, u: Matrix, c: nat, upTo: nat)
    requires upTo <= |l| && upTo <= |u| && forall k :: 0 <= k < upTo ==> c < |u[k]|
    requires forall k :: 0 <= k < upTo ==> l[k] == 0.0 || u[k][c] == 0.0
    ensures Sum(l, u, c, upTo) == 0.0
  {
    if upTo > 0 {
      SumZero(l, u, c, upTo - 1);
      ByConstant(l[upTo - 1]);
      ByConstant(u[upTo - 1][c]);
    }
  }

  lemma {:induction false} SumSingle(l: Vector, u: Matrix, c: nat, upTo: nat, k: nat)
    requires k < upTo <= |l| && upTo <= |u| && forall k :: 0 <= k < upTo ==> c < |u[k]|
    requires forall j :: 0 <= j < upTo && j != k ==> l[j] == 0.0 || u[j][c] == 0.0
    ensures Sum(l, u, c, upTo) == By(l[k], u[k][c])
  {
    if k == upTo - 1 {
      SumZero(l, u, c, upTo - 1);
    } else {
      SumSingle(l, u, c, upTo - 1, k);
      ByConstant(l[upTo - 1]);
      ByConstant(u[upTo - 1][c]);
    }
  }

  lemma ProductIdentity(a: Matrix, n: nat)
    requires Shape(a, n, n)
    ensures Product(a, Identity(n), n) == a && Product(Identity(n), a, n) == a
  {
    hide By, Product, Identity;
    forall r, c | 0 <= r < n && 0 <= c < n
      ensures Product(a, Identity(n), n)[r][c] == a[r][c] && Product(Identity(n), a, n)[r][c] == a[r][c]
    {
      SumSingle(a[r], Identity(n), c, n, c);
      SumSingle(Identity(n)[r], a, c, n, r);
      ByConstant(a[r][c]);
    }
    SameEntries(Product(a, Identity(n), n), a, n);
    SameEntries(Product(Identity(n), a, n), a, n);
  }

  /** Multiplying every summand of an entry of a * b by the same number. */
  lemma {:induction false} SumScaled(l: Vector, b: Matrix, m: nat, z: real, scaled: Matrix, upTo: nat)
    requires upTo <= |l| && upTo <= |b| && upTo <= |scaled|
    requires forall k :: 0 <= k < upTo ==> m < |b[k]| && 0 < |scaled[k]| && scaled[k][0] == By(b[k][m], z)
    ensures By(Sum(l, b, m, upTo), z) == Sum(l, scaled, 0, upTo)
  {
    hide By;
    if upTo == 0 {
      ByConstant(z);
    } else {
      SumScaled(l, b, m, z, scaled, upTo - 1);
      BySum(z, Sum(l, b, m, upTo - 1), By(l[upTo - 1], b[upTo - 1][m]));
      ByTwice(l[upTo - 1], b[upTo - 1][m], z);
    }
  }

  /** Sums of columns. */
  lemma {:induction false} SumAdded(l: Vector, x: Matrix, y: Matrix, both: Matrix, upTo: nat)
    requires upTo <= |l| && upTo <= |x| && upTo <= |y| && upTo <= |both|
    requires forall k :: 0 <= k < upTo ==> 0 < |x[k]| && 0 < |y[k]| && 0 < |both[k]| && both[k][0] == x[k][0] + y[k][0]
    ensures Sum(l, both, 0, upTo) == Sum(l, x, 0, upTo) + Sum(l, y, 0, upTo)
  {
    hide By;
    if upTo > 0 {
      SumAdded(l, x, y, both, upTo - 1);
      BySum(l[upTo - 1], x[upTo - 1][0], y[upTo - 1][0]);
    }
  }

  /** One column: the first `m` summands of every entry of column `c` of b * d. */
  ghost function Front(b: Matrix, d: Matrix, n: nat, c: nat, m: nat): (x: Matrix)
    requires Shape(b, n, n) && Shape(d, n, n) && c < n && m <= n
    ensures |x| == n && forall k :: 0 <= k < n ==> |x[k]| == 1 && x[k][0] == Sum(b[k], d, c, m)
  {
    seq(n, k requires 0 <= k < n => [Sum(b[k], d, c, m)])
  }

  /** Summing the first `m` products of (a * b) * d is summing fronts of a * (b * d). */
  lemma {:induction false} Exchange(a: Matrix, b: Matrix, d: Matrix, n: nat, r: nat, c: nat, m: nat)
    requires Shape(a, n, n) && Shape(b, n, n) && Shape(d, n, n) && r < n && c < n && m <= n
    ensures Sum(Product(a, b, n)[r], d, c, m) == Sum(a[r], Front(b, d, n, c, m), 0, n)
  {
    hide By, Product, Front;
    if m == 0 {
      SumZero(a[r], Front(b, d, n, c, 0), 0, n);
    } else {
      Exchange(a, b, d, n, r, c, m - 1);
      var z := d[m - 1][c];
      var scaled := seq(n, k requires 0 <= k < n => [By(b[k][m - 1], z)]);
      SumScaled(a[r], b, m - 1, z, scaled, n);
      SumAdded(a[r], Front(b, d, n, c, m - 1), scaled, Front(b, d, n, c, m), n);
    }
  }

  lemma {:induction false} SumOfColumn(l: Vector, x: Matrix, y: Matrix, c: nat, upTo: nat)
    requires upTo <= |l| && upTo <= |x| && upTo <= |y|
    requires forall k :: 0 <= k < upTo ==> 0 < |x[k]| && c < |y[k]| && x[k][0] == y[k][c]
    ensures Sum(l, x, 0, upTo) == Sum(l, y, c, upTo)
  {
    if upTo > 0 { SumOfColumn(l, x, y, c, upTo - 1); }
  }

  lemma ProductAssociative(a: Matrix, b: Matrix, d: Matrix, n: nat)
    requires Shape(a, n, n) && Shape(b, n, n) && Shape(d, n, n)
    ensures Product(Product(a, b, n), d, n) == Product(a, Product(b, d, n), n)
  {
    hide By, Product, Front, Sum;
    forall r, c | 0 <= r < n && 0 <= c < n
      ensures Product(Product(a, b, n), d, n)[r][c] == Product(a, Product(b, d, n), n)[r][c]
    {
      Exchange(a, b, d, n, r, c, n);
      SumOfColumn(a[r], Front(b, d, n, c, n), Product(b, d, n), c, n);
    }
    SameEntries(Product(Product(a, b, n), d, n), Product(a, Product(b, d, n), n), n);
  }

  // ----- Products as dot products -----

  lemma {:induction false} SumIsDot(l: Vector, u: Matrix, c: nat, upTo: nat)
    requires upTo <= |l| && upTo <= |u| && forall k :: 0 <= k < |u| ==> c < |u[k]|
    ensures Sum(l, u, c, upTo) == Dot(l, Column(u, c), upTo)
  {
    if upTo > 0 { SumIsDot(l, u, c, upTo - 1); }
  }

  lemma IdentityProduct(a: Matrix, b: Matrix, n: nat)
    requires Shape(a, n, n) && Shape(b, n, n)
    ensures ProductIsIdentity(a, b, n) <==> Product(a, b, n) == Identity(n)
  {
    hide Product, Identity, Sum;
    forall r, c | 0 <= r < n && 0 <= c < n ensures Product(a, b, n)[r][c] == Dot(a[r], Column(b, c), n) {
      SumIsDot(a[r], b, c, n);
    }
    if ProductIsIdentity(a, b, n) {
      SameEntries(Product(a, b, n), Identity(n), n);
    }
    if Product(a, b, n) == Identity(n) {
      forall r, c | 0 <= r < n && 0 <= c < n ensures Dot(a[r], Column(b, c), n) == Delta(r, c) {
        assert Identity(n)[r][c] == Delta(r, c);
      }
    }
  }
}
