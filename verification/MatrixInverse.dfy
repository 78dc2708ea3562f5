/** SymMatrix::inverse: the fraction-free Gauss-Jordan elimination (src/cas/SymMatrix.cpp:408-468). */
module MatrixInverse {
  import opened LinearAlgebra

  datatype Inverse = SingularMatrix | Inverted(matrix: Matrix)

  /** The augmented matrix [A | I]. */
  function Augment(a: Matrix, n: nat): (r: Matrix)
    requires Shape(a, n, n)
    ensures Shape(r, n, 2 * n)
    ensures forall i, j :: 0 <= i < n && 0 <= j < 2 * n ==> r[i][j] == if j < n then a[i][j] else Delta(i, j - n)
  {
    seq(n, i requires 0 <= i < n => a[i] + seq(n, j => Delta(i, j)))
  }

  function Unit(x: real, i: int, j: int): real {
    if i == j then x else 0.0
  }

  /** The matrix the table stands for after `k` steps: the first `k` columns are no longer stored,
      they are `prev` times the unit columns. */
  function Full(aug: Matrix, n: nat, k: nat, prev: real): (r: Matrix)
    requires Shape(aug, n, 2 * n) && k <= n
    ensures Shape(r, n, 2 * n)
    ensures forall i, j :: 0 <= i < n && 0 <= j < 2 * n ==> r[i][j] == if j < k then Unit(prev, i, j) else aug[i][j]
  {
    seq(n, i requires 0 <= i < n =>
      seq(2 * n, j requires 0 <= j < 2 * n => if j < k then Unit(prev, i, j) else aug[i][j]))
  }

  /** Both systems have the same solutions. */
  ghost predicate SameKernel(a: Matrix, b: Matrix) {
    forall z: Vector :: InKernel(a, z) <==> InKernel(b, z)
  }

  method FindPivot(aug: Matrix, n: nat, k: nat) returns (row: nat)
    requires Shape(aug, n, 2 * n) && k < n
    ensures k <= row <= n && (row < n ==> aug[row][k] != 0.0)
    ensures forall i :: k <= i < row ==> aug[i][k] == 0.0
  {
    row := k;
    while row < n && aug[row][k] == 0.0
      invariant k <= row <= n && forall i :: k <= i < row ==> aug[i][k] == 0.0
    {
      row := row + 1;
    }
  }

  /** The entry `x` after the pivot row, scaled, is subtracted and the previous pivot divided out. */
  function Cleared(x: real, pivot: real, f: real, y: real, prev: real): real
    requires prev != 0.0
  {
    (x * pivot - f * y) / prev
  }

  ghost predicate RowCleared(next: Vector, row: Vector, pivotRow: Vector, k: nat, upTo: nat, prev: real)
    requires k < |row| && |next| == |row| == |pivotRow| && prev != 0.0
  {
    forall j :: 0 <= j < |row| ==>
      next[j] == if k < j < upTo then Cleared(row[j], pivotRow[k], row[k], pivotRow[j], prev) else row[j]
  }

  /** The table after the step: every row but the pivot row is cleared behind column `k`. */
  ghost predicate StepDone(aug0: Matrix, aug: Matrix, n: nat, k: nat, upTo: nat, prev: real)
    requires Shape(aug0, n, 2 * n) && Shape(aug, n, 2 * n) && k < n && prev != 0.0
  {
    forall i :: 0 <= i < n ==>
      if i < upTo && i != k then RowCleared(aug[i], aug0[i], aug0[k], k, 2 * n, prev) else aug[i] == aug0[i]
  }

  /** One step: clears column `k` in every row but the pivot row, dividing by the previous pivot. */
  method Eliminate(aug0: Matrix, n: nat, k: nat, prev: real) returns (aug: Matrix)
    requires Shape(aug0, n, 2 * n) && k < n && prev != 0.0
    ensures Shape(aug, n, 2 * n) && StepDone(aug0, aug, n, k, n, prev)
  {
    hide Cleared;
    aug := aug0;
    var pivot := aug[k][k];
    for i := 0 to n
      invariant Shape(aug, n, 2 * n) && StepDone(aug0, aug, n, k, i, prev)
    {
      if i == k {
        continue;
      }
      for j := k + 1 to 2 * n
        invariant Shape(aug, n, 2 * n) && RowCleared(aug[i], aug0[i], aug0[k], k, j, prev)
        invariant StepDone(aug0, aug[i := aug0[i]], n, k, i, prev)
      {
        ghost var old' := aug;
        aug := aug[i := aug[i][j := Cleared(aug[i][j], pivot, aug[i][k], aug[k][j], prev)]];
        assert aug[i := aug0[i]] == old'[i := aug0[i]];
      }
      forall r | 0 <= r < n && r != i ensures aug[r] == aug[i := aug0[i]][r] { }
    }
  }

  /** A row of the cleared matrix is a combination of the old row and the pivot row. */
  lemma RowCombines(full: Matrix, next: Matrix, n: nat, i: nat, k: nat, p: real, prev: real, z: Vector)
    requires Shape(full, n, 2 * n) && Shape(next, n, 2 * n) && i < n && k < n && |z| == 2 * n && prev != 0.0
    requires forall j :: 0 <= j < 2 * n ==> next[i][j] == Cleared(full[i][j], p, full[i][k], full[k][j], prev)
    ensures Dot(next[i], z, 2 * n) ==
      (p / prev) * Dot(full[i], z, 2 * n) + (-full[i][k] / prev) * Dot(full[k], z, 2 * n)
  {
    var s, t := p / prev, -full[i][k] / prev;
    forall j | 0 <= j < 2 * n ensures next[i][j] == s * full[i][j] + t * full[k][j] {
      Quotient(full[i][j], p, full[i][k], full[k][j], prev);
    }
    DotCombine(full[i], full[k], next[i], z, s, t, 2 * n);
  }

  lemma Quotient(x: real, p: real, f: real, y: real, prev: real)
    requires prev != 0.0
    ensures Cleared(x, p, f, y, prev) == (p / prev) * x + (-f / prev) * y
  {
    var q := 1.0 / prev;
    assert (x * p - f * y) / prev == (x * p - f * y) * q;
    assert p / prev == p * q && -f / prev == -f * q;
  }

  /** Clearing a column keeps the solutions. */
  lemma ClearKeepsKernel(full: Matrix, next: Matrix, n: nat, k: nat, p: real, prev: real)
    requires Shape(full, n, 2 * n) && Shape(next, n, 2 * n) && k < n && p != 0.0 && prev != 0.0
    requires next[k] == full[k]
    requires forall i, j :: 0 <= i < n && i != k && 0 <= j < 2 * n ==>
      next[i][j] == Cleared(full[i][j], p, full[i][k], full[k][j], prev)
    ensures SameKernel(full, next)
  {
    forall z: Vector ensures InKernel(full, z) <==> InKernel(next, z) {
      if |z| == 2 * n {
        forall i | 0 <= i < n && i != k
          ensures Dot(next[i], z, 2 * n) ==
            (p / prev) * Dot(full[i], z, 2 * n) + (-full[i][k] / prev) * Dot(full[k], z, 2 * n)
        {
          RowCombines(full, next, n, i, k, p, prev, z);
        }
        if InKernel(full, z) {
          forall i | 0 <= i < n ensures Dot(next[i], z, 2 * n) == 0.0 { }
        }
        if InKernel(next, z) {
          assert Dot(full[k], z, 2 * n) == 0.0;
          forall i | 0 <= i < n ensures Dot(full[i], z, 2 * n) == 0.0 {
            if i != k {
              Cancel(p / prev, Dot(full[i], z, 2 * n), -full[i][k] / prev);
            }
          }
        }
      } else {
        assert |full[k]| != |z| && |next[k]| != |z|;
      }
    }
  }

  lemma Cancel(s: real, d: real, t: real)
    requires s != 0.0 && s * d + t * 0.0 == 0.0
    ensures d == 0.0
  {
  }

  lemma SwapKeepsKernel(m: Matrix, k: nat, r: nat)
    requires k < |m| && r < |m|
    ensures SameKernel(m, m[k := m[r]][r := m[k]])
  {
    var s := m[k := m[r]][r := m[k]];
    forall z: Vector ensures InKernel(m, z) <==> InKernel(s, z) {
      if InKernel(s, z) {
        forall i | 0 <= i < |m| ensures |m[i]| == |z| && Dot(m[i], z, |z|) == 0.0 {
          assert m[i] == if i == k then s[r] else if i == r then s[k] else s[i];
        }
      }
    }
  }

  // ----- The elimination -----

  /** Clearing column `k` of the table is clearing column `k` of the full matrix, whose pivot columns become unit
   * columns. */
  lemma FullAdvances(aug0: Matrix, aug: Matrix, n: nat, k: nat, prev: real)
    requires Shape(aug0, n, 2 * n) && Shape(aug, n, 2 * n) && k < n && aug0[k][k] != 0.0 && prev != 0.0
    requires StepDone(aug0, aug, n, k, n, prev)
    ensures SameKernel(Full(aug0, n, k, prev), Full(aug, n, k + 1, aug0[k][k]))
  {
    var full, next, p := Full(aug0, n, k, prev), Full(aug, n, k + 1, aug0[k][k]), aug0[k][k];
    forall j | 0 <= j < 2 * n ensures next[k][j] == full[k][j] { }
    assert next[k] == full[k];
    forall i, j | 0 <= i < n && i != k && 0 <= j < 2 * n
      ensures next[i][j] == Cleared(full[i][j], p, full[i][k], full[k][j], prev)
    {
      assert RowCleared(aug[i], aug0[i], aug0[k], k, 2 * n, prev);
      if j < k {
        assert full[k][j] == 0.0;
        if i == j { UnitStays(prev, p, full[i][k]); }
      }
    }
    ClearKeepsKernel(full, next, n, k, p, prev);
  }

  lemma UnitStays(prev: real, p: real, f: real)
    requires prev != 0.0
    ensures Cleared(prev, p, f, 0.0, prev) == p
  {
    assert f * 0.0 == 0.0;
  }

  /** The general case. */
  method GaussJordan(a: Matrix, n: nat) returns (r: Inverse)
    requires Shape(a, n, n) && n > 0
    ensures r.Inverted? ==>
      Shape(r.matrix, n, n) && ProductIsIdentity(a, r.matrix, n) && ProductIsIdentity(r.matrix, a, n)
    ensures r.SingularMatrix? <==> Singular(a, n)
  {
    hide Cleared, Full, Augment, SameKernel;
    var aug := Augment(a, n);
    var prev := 1.0;
    StartsFull(aug, n);
    for k := 0 to n
      invariant Shape(aug, n, 2 * n) && prev != 0.0
      invariant SameKernel(Augment(a, n), Full(aug, n, k, prev))
      invariant k == n ==> aug[n - 1][n - 1] == prev
    {
      var row := FindPivot(aug, n, k);
      if row == n {
        DeadColumn(a, aug, n, k, prev);
        return SingularMatrix;
      }
      ghost var before := aug;
      aug := aug[k := aug[row]][row := aug[k]];
      SwapFull(before, n, k, row, prev);
      var pivot := aug[k][k];
      ghost var swapped := aug;
      aug := Eliminate(aug, n, k, prev);
      FullAdvances(swapped, aug, n, k, prev);
      KernelChain(Augment(a, n), Full(before, n, k, prev), Full(swapped, n, k, prev));
      KernelChain(Augment(a, n), Full(swapped, n, k, prev), Full(aug, n, k + 1, pivot));
      prev := pivot;
    }
    var det := aug[n - 1][n - 1];
    var x := seq(n, i requires 0 <= i < n => seq(n, j requires 0 <= j < n => aug[i][n + j] / det));
    RightInverse(a, aug, x, n, prev);
    LeftInverse(a, aug, x, n, prev);
    NotSingular(a, aug, n, prev);
    r := Inverted(x);
  }

  lemma StartsFull(aug: Matrix, n: nat)
    requires Shape(aug, n, 2 * n)
    ensures SameKernel(aug, Full(aug, n, 0, 1.0))
  {
    var full := Full(aug, n, 0, 1.0);
    forall i | 0 <= i < n ensures full[i] == aug[i] { }
    assert full == aug;
  }

  lemma KernelChain(a: Matrix, b: Matrix, c: Matrix)
    requires SameKernel(a, b) && SameKernel(b, c)
    ensures SameKernel(a, c)
  {
    hide InKernel;
  }

  lemma SwapFull(aug: Matrix, n: nat, k: nat, r: nat, prev: real)
    requires Shape(aug, n, 2 * n) && k <= r < n
    ensures Shape(aug[k := aug[r]][r := aug[k]], n, 2 * n)
    ensures SameKernel(Full(aug, n, k, prev), Full(aug[k := aug[r]][r := aug[k]], n, k, prev))
  {
    var full, swapped := Full(aug, n, k, prev), Full(aug[k := aug[r]][r := aug[k]], n, k, prev);
    SwapKeepsKernel(full, k, r);
    forall i | 0 <= i < n ensures swapped[i] == full[k := full[r]][r := full[k]][i] {
      forall j | 0 <= j < 2 * n ensures swapped[i][j] == full[k := full[r]][r := full[k]][i][j] { }
    }
    assert swapped == full[k := full[r]][r := full[k]];
  }

  // ----- What the final table says -----

  /** The vector made of `x` on top of `y`. */
  lemma AugmentDot(a: Matrix, n: nat, i: nat, x: Vector, y: Vector)
    requires Shape(a, n, n) && i < n && |x| == |y| == n
    ensures Dot(Augment(a, n)[i], x + y, 2 * n) == Dot(a[i], x, n) + y[i]
  {
    hide Dot;
    var row := Augment(a, n)[i];
    DotSplit(row, x + y, n, 2 * n);
    assert (x + y)[n..] == y && |row| == 2 * n;
    DotSame(row, a[i], x + y, x, n);
    UnitTailDot(row, n, i, y);
  }

  lemma UnitTailDot(row: Vector, n: nat, i: nat, y: Vector)
    requires |row| == 2 * n && i < n && |y| == n && forall j :: 0 <= j < n ==> row[n + j] == Delta(i, j)
    ensures Dot(row[n..], y, n) == y[i]
  {
    hide Dot;
    var tail := row[n..];
    forall j | 0 <= j < n ensures tail[j] == Delta(i, j) { assert tail[j] == row[n + j]; }
    DotSingle(tail, y, n, i);
  }

  /** A row that starts with `p` times a unit vector. */
  lemma UnitRowDot(row: Vector, n: nat, p: real, i: nat, x: Vector, y: Vector)
    requires |row| == 2 * n && i < n && |x| == |y| == n
    requires forall j :: 0 <= j < n ==> row[j] == Unit(p, i, j)
    ensures Dot(row, x + y, 2 * n) == p * x[i] + Dot(row[n..], y, n)
  {
    hide Dot;
    DotSplit(row, x + y, n, 2 * n);
    DotSame(row, row, x + y, x, n);
    DotSingle(row, x, n, i);
    assert (x + y)[n..] == y;
  }

  lemma FullDot(aug: Matrix, n: nat, prev: real, i: nat, x: Vector, y: Vector)
    requires Shape(aug, n, 2 * n) && i < n && |x| == |y| == n
    ensures Dot(Full(aug, n, n, prev)[i], x + y, 2 * n) == prev * x[i] + Dot(aug[i][n..], y, n)
  {
    hide Dot, Full;
    var row := Full(aug, n, n, prev)[i];
    UnitRowDot(row, n, prev, i, x, y);
    assert row[n..] == aug[i][n..];
  }

  lemma RightInverse(a: Matrix, aug: Matrix, x: Matrix, n: nat, prev: real)
    requires Shape(a, n, n) && Shape(aug, n, 2 * n) && Shape(x, n, n) && prev != 0.0
    requires SameKernel(Augment(a, n), Full(aug, n, n, prev))
    requires forall i, j :: 0 <= i < n && 0 <= j < n ==> x[i][j] == aug[i][n + j] / prev
    ensures ProductIsIdentity(a, x, n)
  {
    forall i, c | 0 <= i < n && 0 <= c < n ensures Dot(a[i], Column(x, c), n) == Delta(i, c) {
      RightEntry(a, aug, x, n, prev, i, c);
    }
  }

  /** Column `c` of the result, on top of the negated unit vector, solves the final system, so it solves the first
   * one. */
  lemma RightEntry(a: Matrix, aug: Matrix, x: Matrix, n: nat, prev: real, i: nat, c: nat)
    requires Shape(a, n, n) && Shape(aug, n, 2 * n) && Shape(x, n, n) && prev != 0.0 && i < n && c < n
    requires SameKernel(Augment(a, n), Full(aug, n, n, prev))
    requires forall i, j :: 0 <= i < n && 0 <= j < n ==> x[i][j] == aug[i][n + j] / prev
    ensures Dot(a[i], Column(x, c), n) == Delta(i, c)
  {
    hide Dot, Augment, Full;
    var top := Column(x, c);
    var bottom := seq(n, r => -Delta(r, c));
    var z := top + bottom;
    forall r | 0 <= r < n ensures Dot(Full(aug, n, n, prev)[r], z, 2 * n) == 0.0 {
      FullDot(aug, n, prev, r, top, bottom);
      DotSingle(aug[r][n..], bottom, n, c);
      Undivide(prev, aug[r][n + c]);
    }
    assert InKernel(Full(aug, n, n, prev), z);
    assert InKernel(Augment(a, n), z);
    AugmentDot(a, n, i, top, bottom);
  }

  lemma Redivide(p: real, x: real)
    requires p != 0.0
    ensures (p * x) / p == x
  {
  }

  lemma Undivide(p: real, x: real)
    requires p != 0.0
    ensures p * (x / p) == x
  {
  }

  /** The matrix applied to a vector. */
  ghost function Apply(a: Matrix, x: Vector): (y: Vector)
    requires forall i :: 0 <= i < |a| ==> |a[i]| == |x|
    ensures |y| == |a| && forall i :: 0 <= i < |a| ==> y[i] == Dot(a[i], x, |x|)
  {
    seq(|a|, i requires 0 <= i < |a| => Dot(a[i], x, |x|))
  }

  /** The returned matrix undoes the input on every vector. */
  lemma Undoes(a: Matrix, aug: Matrix, n: nat, prev: real, x: Vector, i: nat)
    requires Shape(a, n, n) && Shape(aug, n, 2 * n) && prev != 0.0 && |x| == n && i < n
    requires SameKernel(Augment(a, n), Full(aug, n, n, prev))
    ensures prev * x[i] == Dot(aug[i][n..], Apply(a, x), n)
  {
    hide Dot, Augment, Full;
    var y := seq(n, r requires 0 <= r < n => -Apply(a, x)[r]);
    forall r | 0 <= r < n ensures Dot(Augment(a, n)[r], x + y, 2 * n) == 0.0 {
      AugmentDot(a, n, r, x, y);
      assert y[r] == -Apply(a, x)[r];
    }
    assert InKernel(Augment(a, n), x + y);
    assert InKernel(Full(aug, n, n, prev), x + y);
    FullDot(aug, n, prev, i, x, y);
    DotNegate(aug[i][n..], Apply(a, x), y, n);
  }

  lemma {:induction false} DotNegate(a: Vector, y: Vector, z: Vector, upTo: nat)
    requires upTo <= |a| && upTo <= |y| && upTo <= |z| && forall j :: 0 <= j < upTo ==> z[j] == -y[j]
    ensures Dot(a, z, upTo) == -Dot(a, y, upTo)
  {
    if upTo > 0 {
      DotNegate(a, y, z, upTo - 1);
    }
  }

  lemma LeftInverse(a: Matrix, aug: Matrix, x: Matrix, n: nat, prev: real)
    requires Shape(a, n, n) && Shape(aug, n, 2 * n) && Shape(x, n, n) && prev != 0.0
    requires SameKernel(Augment(a, n), Full(aug, n, n, prev))
    requires forall i, j :: 0 <= i < n && 0 <= j < n ==> x[i][j] == aug[i][n + j] / prev
    ensures ProductIsIdentity(x, a, n)
  {
    hide Dot, Augment, Full;
    forall i, c | 0 <= i < n && 0 <= c < n ensures Dot(x[i], Column(a, c), n) == Delta(i, c) {
      var unit := seq(n, r => Delta(r, c));
      Undoes(a, aug, n, prev, unit, i);
      forall r | 0 <= r < n ensures Apply(a, unit)[r] == Column(a, c)[r] {
        DotSingle(a[r], unit, n, c);
      }
      DotSame(aug[i][n..], aug[i][n..], Apply(a, unit), Column(a, c), n);
      DotScaled(x[i], aug[i][n..], Column(a, c), prev, n);
      Redivide(prev, Delta(i, c));
    }
  }

  lemma {:induction false} DotScaled(a: Vector, b: Vector, z: Vector, s: real, upTo: nat)
    requires upTo <= |a| && upTo <= |b| && upTo <= |z| && s != 0.0 && forall j :: 0 <= j < upTo ==> a[j] == b[j] / s
    ensures Dot(a, z, upTo) == Dot(b, z, upTo) / s
  {
    if upTo > 0 {
      DotScaled(a, b, z, s, upTo - 1);
      var q := 1.0 / s;
      assert b[upTo - 1] / s == b[upTo - 1] * q;
      assert Dot(b, z, upTo) / s == Dot(b, z, upTo - 1) * q + b[upTo - 1] * z[upTo - 1] * q;
    }
  }

  lemma NotSingular(a: Matrix, aug: Matrix, n: nat, prev: real)
    requires Shape(a, n, n) && Shape(aug, n, 2 * n) && prev != 0.0
    requires SameKernel(Augment(a, n), Full(aug, n, n, prev))
    ensures !Singular(a, n)
  {
    forall x: Vector | |x| == n && InKernel(a, x) ensures !NonZero(x) {
      forall i | 0 <= i < n ensures x[i] == 0.0 {
        Undoes(a, aug, n, prev, x, i);
        DotZero(aug[i][n..], Apply(a, x), n);
      }
    }
  }

  function Back(x: real, prev: real): real
    requires prev != 0.0
  {
    -x / prev
  }

  /** No pivot in column `k`: the earlier unit columns combine to that column, so some nonzero vector is mapped to
   * zero. */
  lemma DeadColumn(a: Matrix, aug: Matrix, n: nat, k: nat, prev: real)
    requires Shape(a, n, n) && Shape(aug, n, 2 * n) && k < n && prev != 0.0
    requires SameKernel(Augment(a, n), Full(aug, n, k, prev))
    requires forall i :: k <= i < n ==> aug[i][k] == 0.0
    ensures Singular(a, n)
  {
    hide Full, Back, Dot;
    var x := seq(n, j requires 0 <= j < n => if j < k then Back(aug[j][k], prev) else if j == k then 1.0 else 0.0);
    var zero := seq(n, _ => 0.0);
    var full := Full(aug, n, k, prev);
    forall i | 0 <= i < n ensures Dot(full[i], x + zero, 2 * n) == 0.0 {
      DeadRow(aug, n, k, prev, x, zero, i);
    }
    assert InKernel(full, x + zero);
    assert InKernel(Augment(a, n), x + zero);
    forall i | 0 <= i < n ensures Dot(a[i], x, n) == 0.0 {
      AugmentDot(a, n, i, x, zero);
    }
    assert x[k] != 0.0;
  }

  lemma DeadRow(aug: Matrix, n: nat, k: nat, prev: real, x: Vector, zero: Vector, i: nat)
    requires Shape(aug, n, 2 * n) && k < n && prev != 0.0 && i < n && |x| == |zero| == n
    requires forall r :: k <= r < n ==> aug[r][k] == 0.0
    requires forall j :: 0 <= j < n ==>
      zero[j] == 0.0 && x[j] == if j < k then Back(aug[j][k], prev) else if j == k then 1.0 else 0.0
    ensures Dot(Full(aug, n, k, prev)[i], x + zero, 2 * n) == 0.0
  {
    hide Full, Back, Dot;
    var row := Full(aug, n, k, prev)[i];
    TailVanishes(row, x + zero, k + 1, 2 * n);
    assert row[k] == aug[i][k] && (x + zero)[k] == 1.0;
    DeadDot(row, x + zero, k, i, prev, aug[i][k]);
  }

  lemma {:induction false} TailVanishes(a: Vector, z: Vector, mid: nat, upTo: nat)
    requires mid <= upTo <= |a| && upTo <= |z| && forall j :: mid <= j < upTo ==> z[j] == 0.0
    ensures Dot(a, z, upTo) == Dot(a, z, mid)
  {
    if mid < upTo {
      TailVanishes(a, z, mid, upTo - 1);
    }
  }

  lemma DeadDot(row: Vector, z: Vector, k: nat, i: nat, prev: real, e: real)
    requires k < |row| && k < |z| && prev != 0.0 && row[k] == e && z[k] == 1.0
    requires forall j :: 0 <= j < k ==> row[j] == Unit(prev, i, j)
    requires if i < k then z[i] == Back(e, prev) else e == 0.0
    ensures Dot(row, z, k + 1) == 0.0
  {
    if i < k {
      DotSingle(row, z, k, i);
      assert prev * Back(e, prev) == -e by { Undivide(prev, -e); }
    } else {
      DotZero(row, z, k);
    }
  }

  // ----- The entry point, with its small cases -----

  method Invert(a: Matrix, n: nat) returns (inv: Inverse)
    requires Shape(a, n, n)
    ensures inv.Inverted? ==>
      Shape(inv.matrix, n, n) && ProductIsIdentity(a, inv.matrix, n) && ProductIsIdentity(inv.matrix, a, n)
    ensures inv.SingularMatrix? <==> Singular(a, n)
  {
    if n == 0 {
      return Inverted([]);
    }
    hide ProductIsIdentity, Singular;
    if n == 1 {
      OneByOne(a);
      if a[0][0] == 0.0 {
        return SingularMatrix;
      }
      return Inverted([[1.0 / a[0][0]]]);
    }
    if n == 2 {
      var p, q, r, s := a[0][0], a[0][1], a[1][0], a[1][1];
      assert a[0] == [p, q] && a[1] == [r, s];
      var det := p * s - q * r;
      if det == 0.0 {
        TwoByTwoSingular(a, p, q, r, s);
        return SingularMatrix;
      }
      TwoByTwoRegular(a, p, q, r, s, det);
      TwoByTwoProducts(a, p, q, r, s, det);
      return Inverted(Inverse2(p, q, r, s, det));
    }
    inv := GaussJordan(a, n);
  }

  lemma OneByOne(a: Matrix)
    requires Shape(a, 1, 1)
    ensures a[0][0] == 0.0 ==> Singular(a, 1)
    ensures a[0][0] != 0.0 ==>
      !Singular(a, 1) && ProductIsIdentity(a, [[1.0 / a[0][0]]], 1) && ProductIsIdentity([[1.0 / a[0][0]]], a, 1)
  {
    hide Dot;
    if a[0][0] == 0.0 {
      var x := [1.0];
      DotSingle(a[0], x, 1, 0);
      assert x[0] != 0.0 && InKernel(a, x);
    } else {
      forall x: Vector | |x| == 1 && InKernel(a, x) ensures !NonZero(x) {
        DotSingle(a[0], x, 1, 0);
      }
      var b: Matrix := [[1.0 / a[0][0]]];
      DotSingle(a[0], Column(b, 0), 1, 0);
      DotSingle(b[0], Column(a, 0), 1, 0);
    }
  }

  lemma DotTwo(a: Vector, z: Vector)
    requires |a| == |z| == 2
    ensures Dot(a, z, 2) == a[0] * z[0] + a[1] * z[1]
  {
    assert Dot(a, z, 1) == a[0] * z[0];
  }

  function Inverse2(p: real, q: real, r: real, s: real, det: real): (b: Matrix)
    requires det != 0.0
    ensures Shape(b, 2, 2)
  {
    [[s / det, -q / det], [-r / det, p / det]]
  }

  lemma TwoByTwoSingular(a: Matrix, p: real, q: real, r: real, s: real)
    requires Shape(a, 2, 2) && a[0] == [p, q] && a[1] == [r, s] && p * s - q * r == 0.0
    ensures Singular(a, 2)
  {
    hide Dot;
    var x := if p != 0.0 || q != 0.0 then [-q, p] else if r != 0.0 || s != 0.0 then [-s, r] else [1.0, 0.0];
    DotTwo(a[0], x);
    DotTwo(a[1], x);
    assert x[0] != 0.0 || x[1] != 0.0;
    assert InKernel(a, x);
  }

  lemma Solve2(p: real, q: real, r: real, s: real, x: real, y: real)
    requires p * x + q * y == 0.0 && r * x + s * y == 0.0 && p * s - q * r != 0.0
    ensures x == 0.0 && y == 0.0
  {
    assert (p * s - q * r) * x == s * (p * x + q * y) - q * (r * x + s * y);
    assert (p * s - q * r) * y == p * (r * x + s * y) - r * (p * x + q * y);
  }

  lemma TwoByTwoRegular(a: Matrix, p: real, q: real, r: real, s: real, det: real)
    requires Shape(a, 2, 2) && a[0] == [p, q] && a[1] == [r, s] && det == p * s - q * r && det != 0.0
    ensures !Singular(a, 2)
  {
    hide Dot;
    forall x: Vector | |x| == 2 && InKernel(a, x) ensures !NonZero(x) {
      DotTwo(a[0], x);
      DotTwo(a[1], x);
      Solve2(p, q, r, s, x[0], x[1]);
    }
  }

  /** One entry of a product in which one factor carries the common denominator. */
  lemma Entry2(row: Vector, col: Vector, u: real, w: real, v: real, z: real, det: real, e: real)
    requires det != 0.0 && row == [u, w] && col == [v / det, z / det] && u * v + w * z == e * det
    ensures Dot(row, col, 2) == e && Dot(col, row, 2) == e
  {
    hide Dot;
    DotTwo(row, col);
    DotTwo(col, row);
    OverDet(u, v, w, z, det);
    Redivide(det, e);
  }

  lemma OverDet(u: real, v: real, w: real, z: real, det: real)
    requires det != 0.0
    ensures u * (v / det) + w * (z / det) == (u * v + w * z) / det
  {
    var i := 1.0 / det;
    assert v / det == v * i && z / det == z * i && (u * v + w * z) / det == (u * v + w * z) * i;
    assert u * (v * i) == (u * v) * i && w * (z * i) == (w * z) * i;
  }

  lemma TwoByTwoProducts(a: Matrix, p: real, q: real, r: real, s: real, det: real)
    requires Shape(a, 2, 2) && a[0] == [p, q] && a[1] == [r, s] && det == p * s - q * r && det != 0.0
    ensures var b := Inverse2(p, q, r, s, det);
      ProductIsIdentity(a, b, 2) && ProductIsIdentity(b, a, 2)
  {
    hide Dot;
    var b := Inverse2(p, q, r, s, det);
    Entry2(a[0], Column(b, 0), p, q, s, -r, det, 1.0);
    Entry2(a[0], Column(b, 1), p, q, -q, p, det, 0.0);
    Entry2(a[1], Column(b, 0), r, s, s, -r, det, 0.0);
    Entry2(a[1], Column(b, 1), r, s, -q, p, det, 1.0);
    Entry2(Column(a, 0), b[0], p, r, s, -q, det, 1.0);
    Entry2(Column(a, 1), b[0], q, s, s, -q, det, 0.0);
    Entry2(Column(a, 0), b[1], p, r, -r, p, det, 0.0);
    Entry2(Column(a, 1), b[1], q, s, -r, p, det, 1.0);
  }
}
