/** Matrices over a field, as rows; `real` stands for the field the symbolic entries live in. */
module LinearAlgebra {

  type Vector = seq<real>
  type Matrix = seq<Vector>

  ghost predicate Shape(m: Matrix, rows: nat, cols: nat) {
    |m| == rows && forall i :: 0 <= i < rows ==> |m[i]| == cols
  }

  /** The sum of the first `upTo` products. */
  function Dot(a: Vector, z: Vector, upTo: nat): real
    requires upTo <= |a| && upTo <= |z|
  {
    if upTo == 0 then 0.0 else Dot(a, z, upTo - 1) + a[upTo - 1] * z[upTo - 1]
  }

  /** `z` solves the homogeneous system with rows `m`. */
  ghost predicate InKernel(m: Matrix, z: Vector) {
    forall i :: 0 <= i < |m| ==> |m[i]| == |z| && Dot(m[i], z, |z|) == 0.0
  }

  function Column(m: Matrix, c: nat): Vector
    requires forall i :: 0 <= i < |m| ==> c < |m[i]|
  {
    seq(|m|, i requires 0 <= i < |m| => m[i][c])
  }

  function Delta(i: int, j: int): real {
    if i == j then 1.0 else 0.0
  }

  /** The product of `a` and `b` is the identity. */
  ghost predicate ProductIsIdentity(a: Matrix, b: Matrix, n: nat)
    requires Shape(a, n, n) && Shape(b, n, n)
  {
    forall i, j :: 0 <= i < n && 0 <= j < n ==> Dot(a[i], Column(b, j), n) == Delta(i, j)
  }

  /** A nonzero vector is mapped to zero. */
  ghost predicate Singular(a: Matrix, n: nat) {
    exists x: Vector :: |x| == n && NonZero(x) && InKernel(a, x)
  }

  ghost predicate NonZero(x: Vector) {
    exists i :: 0 <= i < |x| && x[i] != 0.0
  }

  // ----- Sums -----

  /** Dot products are linear in the first factor. */
  lemma {:induction false} DotCombine(a: Vector, b: Vector, c: Vector, z: Vector, s: real, t: real, upTo: nat)
    requires upTo <= |a| && upTo <= |b| && upTo <= |c| && upTo <= |z|
    requires forall j :: 0 <= j < upTo ==> c[j] == s * a[j] + t * b[j]
    ensures Dot(c, z, upTo) == s * Dot(a, z, upTo) + t * Dot(b, z, upTo)
  {
    if upTo > 0 {
      DotCombine(a, b, c, z, s, t, upTo - 1);
      var x, y, w := a[upTo - 1], b[upTo - 1], z[upTo - 1];
      assert c[upTo - 1] * w == s * (x * w) + t * (y * w);
    }
  }

  lemma {:induction false} DotZero(a: Vector, z: Vector, upTo: nat)
    requires upTo <= |a| && upTo <= |z|
    requires forall j :: 0 <= j < upTo ==> a[j] == 0.0 || z[j] == 0.0
    ensures Dot(a, z, upTo) == 0.0
  {
    if upTo > 0 {
      DotZero(a, z, upTo - 1);
    }
  }

  /** Only the product at position `k` counts. */
  lemma {:induction false} DotSingle(a: Vector, z: Vector, upTo: nat, k: nat)
    requires k < upTo <= |a| && upTo <= |z|
    requires forall j :: 0 <= j < upTo && j != k ==> a[j] == 0.0 || z[j] == 0.0
    ensures Dot(a, z, upTo) == a[k] * z[k]
  {
    if k == upTo - 1 {
      DotZero(a, z, upTo - 1);
    } else {
      DotSingle(a, z, upTo - 1, k);
    }
  }

  lemma {:induction false} DotSame(a: Vector, b: Vector, y: Vector, z: Vector, upTo: nat)
    requires upTo <= |a| && upTo <= |b| && upTo <= |y| && upTo <= |z|
    requires forall j :: 0 <= j < upTo ==> a[j] == b[j] && y[j] == z[j]
    ensures Dot(a, y, upTo) == Dot(b, z, upTo)
  {
    if upTo > 0 {
      DotSame(a, b, y, z, upTo - 1);
    }
  }

  /** Splitting a sum at `mid`. */
  lemma {:induction false} DotSplit(a: Vector, z: Vector, mid: nat, upTo: nat)
    requires mid <= upTo <= |a| && upTo <= |z|
    ensures Dot(a, z, upTo) == Dot(a, z, mid) + Dot(a[mid..], z[mid..], upTo - mid)
  {
    if upTo > mid {
      DotSplit(a, z, mid, upTo - 1);
    }
  }
}
