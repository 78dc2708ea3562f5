/** SymMatrix::lu: elimination without row exchanges (src/cas/SymMatrix.cpp:752-769). */
module LuFactors {
  import opened LinearAlgebra
  import opened MatrixProduct
  import opened RealProducts

  datatype Factors = ZeroPivot | Factored(lower: Matrix, upper: Matrix)

  ghost predicate UnitLower(l: Matrix, n: nat)
    requires Shape(l, n, n)
  {
    forall i, j :: 0 <= i < n && i <= j < n ==> l[i][j] == Delta(i, j)
  }

  /** Upper triangular without a zero on the diagonal. */
  ghost predicate RegularUpper(u: Matrix, n: nat)
    requires Shape(u, n, n)
  {
    && (forall i, j :: 0 <= j < i < n ==> u[i][j] == 0.0)
    && (forall i :: 0 <= i < n ==> u[i][i] != 0.0)
  }

  /** a = l * u */
  ghost predicate IsProduct(a: Matrix, l: Matrix, u: Matrix, n: nat)
    requires Shape(a, n, n) && Shape(l, n, n) && Shape(u, n, n)
  {
    forall r, c :: 0 <= r < n && 0 <= c < n ==> ProductEntry(a, l, u, n, r, c)
  }

  ghost predicate ProductEntry(a: Matrix, l: Matrix, u: Matrix, n: nat, r: nat, c: nat)
    requires Shape(a, n, n) && Shape(l, n, n) && Shape(u, n, n) && r < n && c < n
  {
    a[r][c] == Sum(l[r], u, c, n)
  }

  ghost predicate Factorises(a: Matrix, l: Matrix, u: Matrix, n: nat)
    requires Shape(a, n, n)
  {
    Shape(l, n, n) && Shape(u, n, n) && UnitLower(l, n) && RegularUpper(u, n) && IsProduct(a, l, u, n)
  }

  // ----- Elimination -----

  ghost function Least(i: nat, j: nat): nat {
    if i <= j then i else j
  }

  /** After `i` columns: what is left in `u` plus the products taken out is the matrix. */
  ghost predicate Eliminated(a: Matrix, l: Matrix, u: Matrix, n: nat, i: nat) {
    && Shape(a, n, n) && Shape(l, n, n) && Shape(u, n, n) && i <= n
    && (forall r, k :: 0 <= r < n && i <= k < n ==> l[r][k] == Delta(r, k))
    && (forall r, k :: 0 <= r <= k < n ==> l[r][k] == Delta(r, k))
    && (forall r, k :: 0 <= k < r < n && k < i ==> u[r][k] == 0.0)
    && (forall k :: 0 <= k < i ==> u[k][k] != 0.0)
    && (forall r, c :: 0 <= r < n && 0 <= c < n ==> Balanced(a, l, u, n, i, r, c))
  }

  ghost predicate Balanced(a: Matrix, l: Matrix, u: Matrix, n: nat, i: nat, r: nat, c: nat)
    requires Shape(a, n, n) && Shape(l, n, n) && Shape(u, n, n) && r < n && c < n
  {
    a[r][c] == u[r][c] + Sum(l[r], u, c, Least(i, r))
  }

  /** Row `j` of the next matrices, `f` the factor. */
  ghost predicate RowDone(l: Matrix, u: Matrix, l2: Matrix, u2: Matrix, n: nat, i: nat, j: nat)
    requires Shape(l, n, n) && Shape(u, n, n) && Shape(l2, n, n) && Shape(u2, n, n) && i < j < n && u[i][i] != 0.0
  {
    && l2[j] == l[j][i := u[j][i] / u[i][i]]
    && forall k :: 0 <= k < n ==> u2[j][k] == if k < i then u[j][k] else u[j][k] - By(u[j][i] / u[i][i], u[i][k])
  }

  lemma PivotCancels(x: real, p: real)
    requires p != 0.0
    ensures x - By(x / p, p) == 0.0
  {
  }

  lemma NextColumn(a: Matrix, l: Matrix, u: Matrix, l2: Matrix, u2: Matrix, n: nat, i: nat)
    requires Eliminated(a, l, u, n, i) && i < n && u[i][i] != 0.0 && Shape(l2, n, n) && Shape(u2, n, n)
    requires forall j :: 0 <= j <= i ==> l2[j] == l[j] && u2[j] == u[j]
    requires forall j :: i < j < n ==> RowDone(l, u, l2, u2, n, i, j)
    ensures Eliminated(a, l2, u2, n, i + 1)
  {
    hide Balanced;
    var next := i + 1;
    forall r, c | 0 <= r < n && 0 <= c < n ensures Balanced(a, l2, u2, n, next, r, c) {
      NextEntry(a, l, u, l2, u2, n, i, r, c);
    }
    forall r, k | 0 <= k < r < n && k < i + 1 ensures u2[r][k] == 0.0 {
      if r > i {
        assert RowDone(l, u, l2, u2, n, i, r);
        if k == i { PivotCancels(u[r][i], u[i][i]); }
      }
    }
    forall r, k | 0 <= r < n && 0 <= k < n && (r <= k || i + 1 <= k) ensures l2[r][k] == Delta(r, k) {
      if r > i { assert RowDone(l, u, l2, u2, n, i, r); }
    }
  }

  lemma NextEntry(a: Matrix, l: Matrix, u: Matrix, l2: Matrix, u2: Matrix, n: nat, i: nat, r: nat, c: nat)
    requires Eliminated(a, l, u, n, i) && i < n && u[i][i] != 0.0 && Shape(l2, n, n) && Shape(u2, n, n) && r < n
    requires c < n
    requires forall j :: 0 <= j <= i ==> l2[j] == l[j] && u2[j] == u[j]
    requires forall j :: i < j < n ==> RowDone(l, u, l2, u2, n, i, j)
    ensures Balanced(a, l2, u2, n, i + 1, r, c)
  {
    hide By;
    assert Balanced(a, l, u, n, i, r, c);
    if r <= i {
      SumSame(l[r], u, l2[r], u2, c, r);
    } else {
      assert RowDone(l, u, l2, u2, n, i, r);
      SumSame(l[r], u, l2[r], u2, c, i);
      ByConstant(u[r][i] / u[i][i]);
      if c < i { assert u[i][c] == 0.0; }
    }
  }

  /** The first `k` rows of the upper factor and columns of the lower one agree. */
  ghost predicate Agree(l: Matrix, u: Matrix, l2: Matrix, u2: Matrix, n: nat, k: nat)
    requires Shape(l, n, n) && Shape(u, n, n) && Shape(l2, n, n) && Shape(u2, n, n) && k <= n
  {
    && (forall m, c :: 0 <= m < k && 0 <= c < n ==> u2[m][c] == u[m][c])
    && (forall r, m :: 0 <= r < n && 0 <= m < k ==> l2[r][m] == l[r][m])
  }

  /** The first `i` columns of any factorisation are the ones found. */
  lemma {:induction false} SameFactors(a: Matrix, l: Matrix, u: Matrix, n: nat, i: nat, l2: Matrix, u2: Matrix, k: nat)
    requires Eliminated(a, l, u, n, i) && Factorises(a, l2, u2, n) && k <= i
    ensures Agree(l, u, l2, u2, n, k)
  {
    if k > 0 {
      var m := k - 1;
      SameFactors(a, l, u, n, i, l2, u2, m);
      hide Eliminated, Factorises;
      forall c | 0 <= c < n ensures u2[m][c] == u[m][c] {
        NextRow(a, l, u, n, i, l2, u2, m, c);
      }
      forall r | 0 <= r < n ensures l2[r][m] == l[r][m] {
        NextLower(a, l, u, n, i, l2, u2, m, r);
      }
    }
  }

  /** Row `m` of the upper factor follows from the earlier ones. */
  lemma NextRow(a: Matrix, l: Matrix, u: Matrix, n: nat, i: nat, l2: Matrix, u2: Matrix, m: nat, c: nat)
    requires Eliminated(a, l, u, n, i) && Factorises(a, l2, u2, n) && m <= i && m < n && c < n
    requires Agree(l, u, l2, u2, n, m)
    ensures u2[m][c] == u[m][c]
  {
    hide By;
    assert ProductEntry(a, l2, u2, n, m, c) && Balanced(a, l, u, n, i, m, c);
    assert l2[m][m] == Delta(m, m) && forall k :: m < k < n ==> l2[m][k] == Delta(m, k);
    SumShort(l2[m], u2, c, m + 1, n);
    SumSame(l[m], u, l2[m], u2, c, m);
    ByConstant(u2[m][c]);
  }

  /** And then column `m` of the lower factor. */
  lemma NextLower(a: Matrix, l: Matrix, u: Matrix, n: nat, i: nat, l2: Matrix, u2: Matrix, m: nat, r: nat)
    requires Eliminated(a, l, u, n, i) && Factorises(a, l2, u2, n) && m < i && r < n && Agree(l, u, l2, u2, n, m)
    requires u2[m][m] == u[m][m]
    ensures l2[r][m] == l[r][m]
  {
    hide By;
    if r <= m {
      assert l2[r][m] == Delta(r, m) && l[r][m] == Delta(r, m);
    } else {
      assert ProductEntry(a, l2, u2, n, r, m) && Balanced(a, l, u, n, i, r, m);
      SumShort(l2[r], u2, m, m + 1, n);
      SumShort(l[r], u, m, m + 1, Least(i, r));
      SumSame(l[r], u, l2[r], u2, m, m);
      CancelPivot(l2[r][m], l[r][m], u[m][m]);
    }
  }

  lemma CancelPivot(x: real, y: real, p: real)
    requires p != 0.0 && By(x, p) == By(y, p)
    ensures x == y
  {
    BySum(p, x - y, y);
    if x != y { ByNonZero(x - y, p); }
  }

  /** A zero pivot: there is no factorisation. */
  lemma NoFactors(a: Matrix, l: Matrix, u: Matrix, n: nat, i: nat, l2: Matrix, u2: Matrix)
    requires Eliminated(a, l, u, n, i) && i < n && u[i][i] == 0.0
    ensures !Factorises(a, l2, u2, n)
  {
    if Factorises(a, l2, u2, n) {
      SameFactors(a, l, u, n, i, l2, u2, i);
      NextRow(a, l, u, n, i, l2, u2, i, i);
    }
  }

  /** After all columns. */
  lemma AllEliminated(a: Matrix, l: Matrix, u: Matrix, n: nat)
    requires Eliminated(a, l, u, n, n)
    ensures Factorises(a, l, u, n)
  {
    hide Balanced, ProductEntry;
    forall r, c | 0 <= r < n && 0 <= c < n ensures ProductEntry(a, l, u, n, r, c) {
      LastEntry(a, l, u, n, r, c);
    }
  }

  lemma LastEntry(a: Matrix, l: Matrix, u: Matrix, n: nat, r: nat, c: nat)
    requires Eliminated(a, l, u, n, n) && r < n && c < n
    ensures ProductEntry(a, l, u, n, r, c)
  {
    hide By;
    assert Balanced(a, l, u, n, n, r, c);
    assert l[r][r] == Delta(r, r) && forall k :: r < k < n ==> l[r][k] == Delta(r, k);
    SumShort(l[r], u, c, r + 1, n);
    ByConstant(u[r][c]);
  }

  /** The factorisation is unique. */
  lemma Unique(a: Matrix, l: Matrix, u: Matrix, n: nat, l2: Matrix, u2: Matrix)
    requires Eliminated(a, l, u, n, n) && Factorises(a, l2, u2, n)
    ensures l2 == l && u2 == u
  {
    SameFactors(a, l, u, n, n, l2, u2, n);
    forall r | 0 <= r < n ensures l2[r] == l[r] && u2[r] == u[r] {
      assert |l2[r]| == |l[r]| && |u2[r]| == |u[r]|;
    }
  }

  method IdentityMatrix(n: nat) returns (m: Matrix)
    ensures Shape(m, n, n) && forall i, j :: 0 <= i < n && 0 <= j < n ==> m[i][j] == Delta(i, j)
  {
    m := seq(n, i => seq(n, j => Delta(i, j)));
  }

  /** The factor of row `j`, and the row reduced by it. */
  method ReduceRow(row: Vector, pivotRow: Vector, i: nat) returns (f: real, next: Vector)
    requires |row| == |pivotRow| && i < |row| && pivotRow[i] != 0.0
    ensures f == row[i] / pivotRow[i] && |next| == |row|
    ensures forall k :: 0 <= k < |row| ==> next[k] == if k < i then row[k] else row[k] - f * pivotRow[k]
  {
    f := row[i] / pivotRow[i];
    next := row;
    for k := i to |row|
      invariant |next| == |row|
      invariant forall h :: 0 <= h < |row| ==> next[h] == if i <= h < k then row[h] - f * pivotRow[h] else row[h]
    {
      next := next[k := next[k] - f * pivotRow[k]];
    }
  }

  /** All rows below row `i`. */
  method ReduceColumn(l: Matrix, u: Matrix, n: nat, i: nat) returns (l2: Matrix, u2: Matrix)
    requires Shape(l, n, n) && Shape(u, n, n) && i < n && u[i][i] != 0.0
    ensures Shape(l2, n, n) && Shape(u2, n, n)
    ensures forall j :: 0 <= j <= i ==> l2[j] == l[j] && u2[j] == u[j]
    ensures forall j :: i < j < n ==> RowDone(l, u, l2, u2, n, i, j)
  {
    l2, u2 := l, u;
    for j := i + 1 to n
      invariant Shape(l2, n, n) && Shape(u2, n, n)
      invariant forall h :: (0 <= h <= i || j <= h < n) ==> l2[h] == l[h] && u2[h] == u[h]
      invariant forall h :: i < h < j ==> RowDone(l, u, l2, u2, n, i, h)
    {
      var f, row := ReduceRow(u2[j], u2[i], i);
      ghost var before, above := l2, u2;
      l2 := l2[j := l2[j][i := f]];
      u2 := u2[j := row];
      forall h | i < h < j ensures RowDone(l, u, l2, u2, n, i, h) {
        assert RowDone(l, u, before, above, n, i, h);
      }
    }
  }

  /** A factorisation, unless there is none. */
  method Factorise(a: Matrix, n: nat) returns (r: Factors)
    requires Shape(a, n, n)
    ensures r.ZeroPivot? <==> forall l, u :: !Factorises(a, l, u, n)
    ensures r.Factored? ==> Factorises(a, r.lower, r.upper, n)
    ensures r.Factored? ==> forall l, u :: Factorises(a, l, u, n) ==> l == r.lower && u == r.upper
  {
    var l := IdentityMatrix(n);
    var u := a;
    for i := 0 to n
      invariant Eliminated(a, l, u, n, i)
    {
      if u[i][i] == 0.0 {
        forall l2, u2 ensures !Factorises(a, l2, u2, n) {
          NoFactors(a, l, u, n, i, l2, u2);
        }
        return ZeroPivot;
      }
      var l2, u2 := ReduceColumn(l, u, n, i);
      NextColumn(a, l, u, l2, u2, n, i);
      l, u := l2, u2;
    }
    AllEliminated(a, l, u, n);
    forall l2, u2 | Factorises(a, l2, u2, n) ensures l2 == l && u2 == u {
      Unique(a, l, u, n, l2, u2);
    }
    r := Factored(l, u);
  }
}
