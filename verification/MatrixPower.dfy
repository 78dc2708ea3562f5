/** SymMatrix::power: repeated squaring (src/cas/SymMatrix.cpp:117-155, 471-484). */
module MatrixPower {
  import opened LinearAlgebra
  import opened MatrixProduct
  import opened RealProducts
  import MatrixInverse

  datatype Result = Failed | Ok(matrix: Matrix)

  // ----- Powers -----

  ghost function Power(a: Matrix, n: nat, e: nat): (m: Matrix)
    requires Shape(a, n, n)
    ensures Shape(m, n, n)
  {
    if e == 0 then Identity(n) else Product(a, Power(a, n, e - 1), n)
  }

  lemma {:induction false} PowerAdds(a: Matrix, n: nat, e: nat, f: nat)
    requires Shape(a, n, n)
    ensures Power(a, n, e + f) == Product(Power(a, n, e), Power(a, n, f), n)
  {
    hide Product, Identity;
    if e == 0 {
      ProductIdentity(Power(a, n, f), n);
    } else {
      PowerAdds(a, n, e - 1, f);
      assert Power(a, n, e + f) == Product(a, Power(a, n, e + f - 1), n);
      ProductAssociative(a, Power(a, n, e - 1), Power(a, n, f), n);
    }
  }

  /** (a * a)^e = a^(2 * e) */
  lemma {:induction false} PowerSquares(a: Matrix, n: nat, e: nat)
    requires Shape(a, n, n)
    ensures Power(Product(a, a, n), n, e) == Power(a, n, 2 * e)
  {
    hide Product, Identity;
    if e > 0 {
      PowerSquares(a, n, e - 1);
      assert Power(a, n, 2 * e) == Product(a, Power(a, n, 2 * e - 1), n);
      assert Power(a, n, 2 * e - 1) == Product(a, Power(a, n, 2 * (e - 1)), n);
      ProductAssociative(a, a, Power(a, n, 2 * (e - 1)), n);
    }
  }

  /** The powers of inverse matrices are inverse. */
  lemma {:induction false} PowersInverse(a: Matrix, b: Matrix, n: nat, e: nat)
    requires Shape(a, n, n) && Shape(b, n, n) && Product(a, b, n) == Identity(n)
    ensures Product(Power(a, n, e), Power(b, n, e), n) == Identity(n)
  {
    hide Product, Identity;
    if e == 0 {
      ProductIdentity(Identity(n), n);
    } else {
      // a^(e-1) * (a * (b * b^(e-1))) with a and b cancelling in the middle
      var x, y := Power(a, n, e - 1), Power(b, n, e - 1);
      PowersInverse(a, b, n, e - 1);
      PowerAdds(a, n, e - 1, 1);
      PowerSingle(a, n);
      ProductAssociative(x, a, Product(b, y, n), n);
      ProductAssociative(a, b, y, n);
      ProductIdentity(y, n);
    }
  }

  lemma PowerSingle(a: Matrix, n: nat)
    requires Shape(a, n, n)
    ensures Power(a, n, 1) == a
  {
    hide Product, Identity;
    assert Power(a, n, 1) == Product(a, Power(a, n, 0), n);
    ProductIdentity(a, n);
  }

  // ----- The loops -----

  /** operator*: row by row, skipping zeros. */
  method Multiply(a: Matrix, b: Matrix, n: nat) returns (m: Matrix)
    requires Shape(a, n, n) && Shape(b, n, n)
    ensures m == Product(a, b, n)
  {
    m := [];
    for i := 0 to n
      invariant |m| == i && forall r :: 0 <= r < i ==> |m[r]| == n
      invariant forall r, c :: 0 <= r < i && 0 <= c < n ==> m[r][c] == Sum(a[r], b, c, n)
    {
      var row := MultiplyRow(a[i], b, n);
      m := m + [row];
    }
    SameEntries(m, Product(a, b, n), n);
  }

  method MultiplyRow(l: Vector, b: Matrix, n: nat) returns (row: Vector)
    requires |l| == n && Shape(b, n, n)
    ensures |row| == n && forall c :: 0 <= c < n ==> row[c] == Sum(l, b, c, n)
  {
    row := seq(n, _ => 0.0);
    for k := 0 to n
      invariant |row| == n && forall c :: 0 <= c < n ==> row[c] == Sum(l, b, c, k)
    {
      var before := row;
      ByConstant(l[k]);
      if l[k] != 0.0 {
        for j := 0 to n
          invariant |row| == n
          invariant forall c :: 0 <= c < n ==> row[c] == if c < j then before[c] + By(l[k], b[k][c]) else before[c]
        {
          ByConstant(l[k]);
          if b[k][j] != 0.0 {
            row := row[j := row[j] + By(l[k], b[k][j])];
          }
        }
      } else {
        forall c | 0 <= c < n ensures row[c] == Sum(l, b, c, k + 1) {
          ByConstant(b[k][c]);
        }
      }
    }
  }

  method IdentityMatrix(n: nat) returns (m: Matrix)
    ensures m == Identity(n)
  {
    m := seq(n, r => seq(n, c => Delta(r, c)));
    SameEntries(m, Identity(n), n);
  }

  /** Repeated squaring. */
  method Raise(start: Matrix, n: nat, e: nat) returns (result: Matrix)
    requires Shape(start, n, n)
    ensures result == Power(start, n, e)
  {
    hide Product, Identity, Power;
    var base, exp := start, e;
    result := IdentityMatrix(n);
    ProductIdentity(Power(start, n, e), n);
    while exp > 0
      invariant Shape(result, n, n) && Shape(base, n, n)
      invariant Product(result, Power(base, n, exp), n) == Power(start, n, e)
    {
      SquareStep(result, base, n, exp, exp / 2);
      if exp % 2 == 1 {
        result := Multiply(result, base, n);
      }
      base := Multiply(base, base, n);
      exp := exp / 2;
    }
    PowerOfZero(base, n);
    ProductIdentity(result, n);
  }

  lemma PowerOfZero(a: Matrix, n: nat)
    requires Shape(a, n, n)
    ensures Power(a, n, 0) == Identity(n)
  {
  }

  /** result * base^exp stays the same. */
  lemma SquareStep(result: Matrix, base: Matrix, n: nat, exp: nat, half: nat)
    requires Shape(result, n, n) && Shape(base, n, n) && (exp == 2 * half || exp == 2 * half + 1)
    ensures var next := if exp == 2 * half then result else Product(result, base, n);
      Product(next, Power(Product(base, base, n), n, half), n) == Product(result, Power(base, n, exp), n)
  {
    hide Product, Identity;
    PowerSquares(base, n, half);
    if exp == 2 * half + 1 {
      var even := Power(base, n, 2 * half);
      assert Power(base, n, exp) == Product(base, even, n);
      hide Power;
      ProductAssociative(result, base, even, n);
    }
  }

  /** power: the power, or for a negative exponent the inverse of the positive power; fails exactly when an inverse
      is needed and there is none. */
  method RaiseSigned(a: Matrix, n: nat, e: int) returns (r: Result)
    requires Shape(a, n, n)
    ensures r.Failed? <==> e < 0 && Singular(a, n)
    ensures r.Ok? && e >= 0 ==> r.matrix == Power(a, n, e)
    ensures r.Ok? ==> Shape(r.matrix, n, n)
    ensures r.Ok? && e < 0 ==>
      Product(Power(a, n, -e), r.matrix, n) == Identity(n) && Product(r.matrix, Power(a, n, -e), n) == Identity(n)
  {
    hide Power, Identity;
    if e == 0 {
      var id := IdentityMatrix(n);
      PowerOfZero(a, n);
      return Ok(id);
    }
    var base := a;
    if e < 0 {
      var inv := MatrixInverse.Invert(a, n);
      if inv.SingularMatrix? {
        return Failed;
      }
      base := inv.matrix;
      IdentityProduct(a, base, n);
      IdentityProduct(base, a, n);
      PowersInverse(a, base, n, -e);
      PowersInverse(base, a, n, -e);
    }
    var result := Raise(base, n, if e < 0 then -e else e);
    return Ok(result);
  }
}
